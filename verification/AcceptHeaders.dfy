/** Content negotiation: parsing and ordering an Accept header, and finding the best offer. */
module AcceptHeaders {
  import opened Sequences
  import opened Sorting
  import opened Texts

  /** A media type with the q value and the parameters it was given. */
  datatype MediaType = MediaType(kind: string, subtype: string, q: real, params: map<string, string>)

  datatype Error = ValueError | TypeError | InvalidHeader

  /** `MediaType._parse`: nothing without a slash, else a media type, or an error. */
  datatype Parsed = Skipped | Media(m: MediaType) | Failed(error: Error)

  /** The parameters of the list `raw`; a later one replaces an earlier one of the same name. */
  function ParseParams(raw: seq<string>): Option<map<string, string>> {
    if |raw| == 0 then Some(map[])
    else
      var eq := Find("=", raw[|raw| - 1], 0);
      match ParseParams(raw[..|raw| - 1])
      case None => None
      case Some(ps) =>
        if eq < 0 then None
        else Some(ps[Strip(raw[|raw| - 1][..eq]) := Strip(raw[|raw| - 1][eq + 1..])])
  }

  /** Parameters named like the constructor's own arguments are given twice. */
  predicate Clash(ps: map<string, string>) {
    "self" in ps || "type_" in ps || "subtype" in ps
  }

  /** `qOf` is `float` on the text of a q parameter. */
  function Parse(text: string, qOf: string -> Option<real>): Parsed {
    var parts := Split(Strip(text), ";");
    var slash := Find("/", parts[0], 0);
    if '/' !in text then Skipped
    else if slash <= 0 || slash + 1 == |parts[0]| then Failed(ValueError)
    else match ParseParams(parts[1..])
      case None => Failed(ValueError)
      case Some(ps) =>
        if Clash(ps) then Failed(TypeError)
        else
          var q := if "q" in ps then qOf(ps["q"]) else Some(1.0);
          if q.None? then Failed(ValueError)
          else Media(MediaType(LStrip(parts[0][..slash]), RStrip(parts[0][slash + 1..]), q.value, ps))
  }

  function ParseAll(texts: seq<string>, qOf: string -> Option<real>): (r: seq<Parsed>)
    ensures |r| == |texts| && forall i :: 0 <= i < |r| ==> r[i] == Parse(texts[i], qOf)
  {
    seq(|texts|, i requires 0 <= i < |texts| => Parse(texts[i], qOf))
  }

  /** An entry of an Accept header, with its place in the header. */
  datatype Entry = Entry(m: MediaType, place: nat)

  predicate SubWild(m: MediaType) {
    m.subtype == "*"
  }

  predicate TypeWild(m: MediaType) {
    m.kind == "*"
  }

  /** The order of `MediaType.key`: higher q, more parameters, no wildcard subtype, no wildcard type. */
  predicate KeyAtMost(a: Entry, b: Entry) {
    a.m.q > b.m.q || (a.m.q == b.m.q &&
      (|a.m.params| > |b.m.params| || (|a.m.params| == |b.m.params| &&
        ((!SubWild(a.m) && SubWild(b.m)) || (SubWild(a.m) == SubWild(b.m) &&
          (TypeWild(a.m) ==> TypeWild(b.m)))))))
  }

  /** The same order, ties broken by the place in the header. */
  predicate Precedes(a: Entry, b: Entry) {
    KeyAtMost(a, b) && (KeyAtMost(b, a) ==> a.place <= b.place)
  }

  datatype Result<+T> = Ok(value: T) | Err(error: Error)

  /** The media types among the parsed parts of a header, or the first error. */
  function Entries(parsed: seq<Parsed>): Result<seq<Entry>> {
    if |parsed| == 0 then Ok([])
    else match Entries(parsed[..|parsed| - 1])
      case Err(e) => Err(e)
      case Ok(es) => match parsed[|parsed| - 1]
        case Failed(e) => Err(e)
        case Skipped => Ok(es)
        case Media(m) => Ok(es + [Entry(m, |parsed| - 1)])
  }

  /** The list `parse_accept` makes of the parsed parts. A ValueError becomes InvalidHeader, and so does a
      header without a media type. */
  function AcceptList(parsed: seq<Parsed>): Result<seq<Entry>> {
    match Entries(parsed)
    case Err(e) => Err(if e.ValueError? then InvalidHeader else e)
    case Ok(es) => if es == [] then Err(InvalidHeader) else Ok(StableSort(es, KeyAtMost))
  }

  /** The parts of the header; a missing one accepts everything, an empty one nothing. */
  function Parts(header: Option<string>): seq<string> {
    if header == Some("") then [] else Split(if header.Some? then header.value else "*/*", ",")
  }

  /** `parse_accept`. */
  function ParseAccept(header: Option<string>, qOf: string -> Option<real>): Result<seq<Entry>> {
    if header == Some("") then Ok([]) else AcceptList(ParseAll(Parts(header), qOf))
  }

  /** `MediaType.match`: parameters of the offer must be met, wildcards count on both sides. */
  predicate Compatible(a: MediaType, offer: MediaType) {
    && (forall k :: k in offer.params ==> k in a.params && a.params[k] == offer.params[k])
    && (a.subtype == offer.subtype || SubWild(a) || SubWild(offer))
    && (a.kind == offer.kind || TypeWild(a) || TypeWild(offer))
  }

  /** The tuple sorted by `match`: the entry's q, the offer's index and the entry's index in the list. */
  datatype Candidate = Candidate(q: real, offer: nat, entry: nat)

  /** The order of the tuples: higher q, earlier offer, earlier entry. */
  predicate TupleAtMost(a: Candidate, b: Candidate) {
    a.q > b.q || (a.q == b.q && (a.offer < b.offer || (a.offer == b.offer && a.entry <= b.entry)))
  }

  /** The entry `e` may answer for the offer. */
  predicate Answers(e: Entry, offer: Parsed, wildcards: bool) {
    TakesPart(e, wildcards) && offer.Media? && Compatible(e.m, offer.m)
  }

  /** The candidates of entry `j` among the first `n` offers. */
  function Row(list: seq<Entry>, offers: seq<Parsed>, wildcards: bool, j: nat, n: nat): (r: seq<Candidate>)
    requires j < |list| && n <= |offers|
    ensures forall i :: 0 <= i < n && Answers(list[j], offers[i], wildcards) ==> Candidate(list[j].m.q, i, j) in r
    ensures forall c :: c in r ==>
      c.entry == j && c.offer < n && c.q == list[j].m.q && Answers(list[j], offers[c.offer], wildcards)
  {
    if n == 0 then []
    else
      Row(list, offers, wildcards, j, n - 1) +
      if Answers(list[j], offers[n - 1], wildcards) then [Candidate(list[j].m.q, n - 1, j)] else []
  }

  /** The candidates of the first `m` entries. */
  function Candidates(list: seq<Entry>, offers: seq<Parsed>, wildcards: bool, m: nat): (r: seq<Candidate>)
    requires m <= |list|
    ensures forall i, j :: 0 <= i < |offers| && 0 <= j < m && Answers(list[j], offers[i], wildcards) ==>
      Candidate(list[j].m.q, i, j) in r
    ensures forall c :: c in r ==>
      c.entry < m && c.offer < |offers| && c.q == list[c.entry].m.q
      && Answers(list[c.entry], offers[c.offer], wildcards)
  {
    if m == 0 then []
    else Candidates(list, offers, wildcards, m - 1) + Row(list, offers, wildcards, m - 1, |offers|)
  }

  /** The entry takes part in a match. */
  predicate TakesPart(e: Entry, wildcards: bool) {
    wildcards || !(SubWild(e.m) || TypeWild(e.m))
  }

  function FirstError(offers: seq<Parsed>): (e: Option<Error>)
    ensures e.None? <==> forall i :: 0 <= i < |offers| ==> !offers[i].Failed?
    ensures e.Some? ==> Failed(e.value) in offers
  {
    if |offers| == 0 then None
    else if offers[0].Failed? then Some(offers[0].error)
    else FirstError(offers[1..])
  }

  /** `AcceptList.match`: every offer is parsed once an entry takes part; then the first of the sorted
      candidates is the match, if there is one. */
  function Match(list: seq<Entry>, offers: seq<Parsed>, wildcards: bool): Result<Option<Candidate>> {
    if FirstError(offers).Some? && exists j :: 0 <= j < |list| && TakesPart(list[j], wildcards) then
      Err(FirstError(offers).value)
    else
      var cs := StableSort(Candidates(list, offers, wildcards, |list|), TupleAtMost);
      Ok(if cs == [] then None else Some(cs[0]))
  }

  /** A request's header against a handler's offers. */
  function Negotiate(header: Option<string>, offers: seq<string>, wildcards: bool, qOf: string -> Option<real>)
      : Result<Option<Candidate>> {
    match ParseAccept(header, qOf)
    case Err(e) => Err(e)
    case Ok(list) => Match(list, ParseAll(offers, qOf), wildcards)
  }

  // ---------------------------------------------------------------- the choice is the best one

  /** Between two pairs of an entry and an offer: higher q, earlier offer, more parameters, no wildcard
      subtype, no wildcard type, earlier in the header. */
  predicate Better(e: Entry, i: nat, e': Entry, i': nat) {
    e.m.q > e'.m.q || (e.m.q == e'.m.q && (i < i' || (i == i' && Precedes(e, e') && e.place != e'.place)))
  }

  lemma TuplesAreOrdered()
    ensures TotalPreorder(TupleAtMost)
  {
  }

  lemma KeysAreOrdered()
    ensures TotalPreorder(KeyAtMost)
    ensures Refines(Precedes, KeyAtMost)
  {
  }

  lemma {:induction false} PlacesAscend(parsed: seq<Parsed>)
    requires Entries(parsed).Ok?
    ensures var es := Entries(parsed).value;
      && (forall i :: 0 <= i < |es| ==> es[i].place < |parsed| && parsed[es[i].place] == Media(es[i].m))
      && (forall i, j :: 0 <= i < j < |es| ==> es[i].place < es[j].place)
      && (forall k :: 0 <= k < |parsed| && parsed[k].Media? ==> Entry(parsed[k].m, k) in es)
  {
    if |parsed| > 0 {
      var init := parsed[..|parsed| - 1];
      PlacesAscend(init);
      var es, before := Entries(parsed).value, Entries(init).value;
      assert forall e :: e in before ==> e in es;
      assert forall k :: 0 <= k < |init| ==> parsed[k] == init[k];
    }
  }

  /** The list holds exactly the media types of the parts, better ones first. */
  ghost predicate Lists(list: seq<Entry>, parsed: seq<Parsed>) {
    && (forall i, j :: 0 <= i < j < |list| ==> Precedes(list[i], list[j]) && list[i].place != list[j].place)
    && (forall i :: 0 <= i < |list| ==> list[i].place < |parsed| && parsed[list[i].place] == Media(list[i].m))
    && (forall k :: 0 <= k < |parsed| && parsed[k].Media? ==> Entry(parsed[k].m, k) in list)
  }

  /** The accept list is the header's media types, best first; equals keep their place in the header. */
  lemma ListIsOrdered(parsed: seq<Parsed>)
    requires AcceptList(parsed).Ok?
    ensures Lists(AcceptList(parsed).value, parsed)
  {
    var es := Entries(parsed).value;
    PlacesAscend(parsed);
    KeysAreOrdered();
    SortIsStable(es, KeyAtMost, Precedes);
    var list := AcceptList(parsed).value;
    SameElements(es, list);
    forall i | 0 <= i < |list|
      ensures list[i].place < |parsed| && parsed[list[i].place] == Media(list[i].m)
    {
      assert list[i] in es;
    }
  }

  /** A rearrangement of entries with distinct places has the same entries, with distinct places. */
  lemma SameElements(es: seq<Entry>, list: seq<Entry>)
    requires multiset(es) == multiset(list)
    requires forall i, j :: 0 <= i < j < |es| ==> es[i].place < es[j].place
    ensures forall e :: e in list <==> e in es
    ensures forall i, j :: 0 <= i < j < |list| ==> list[i].place != list[j].place
  {
    forall e
      ensures e in list <==> e in es
    {
      assert e in list <==> e in multiset(list);
      assert e in es <==> e in multiset(es);
    }
    forall i, j | 0 <= i < j < |list|
      ensures list[i].place != list[j].place
    {
      if list[i].place == list[j].place {
        assert list[i] in es && list[j] in es;
        assert list[i] == list[j];
        TwiceInList(list, i, j);
        OnceInHeader(es, list[i]);
      }
    }
  }

  lemma TwiceInList(list: seq<Entry>, i: nat, j: nat)
    requires i < j < |list| && list[i] == list[j]
    ensures multiset(list)[list[i]] >= 2
  {
    assert list == list[..i] + [list[i]] + list[i + 1..j] + [list[j]] + list[j + 1..];
  }

  lemma {:induction false} OnceInHeader(es: seq<Entry>, e: Entry)
    requires forall i, j :: 0 <= i < j < |es| ==> es[i].place < es[j].place
    ensures multiset(es)[e] <= 1
  {
    if |es| > 0 {
      OnceInHeader(es[1..], e);
      assert es == [es[0]] + es[1..];
      if es[0] == e {
        assert forall k :: 0 <= k < |es| - 1 ==> es[1..][k] == es[k + 1] != e;
        assert e !in multiset(es[1..]);
      }
    }
  }

  /** The part `k` of a header is a media type that may answer for the offer `i`. */
  predicate Pairs(parsed: seq<Parsed>, offers: seq<Parsed>, wildcards: bool, k: nat, i: nat) {
    k < |parsed| && i < |offers| && parsed[k].Media? && Answers(Entry(parsed[k].m, k), offers[i], wildcards)
  }

  /** The candidate is the one pair of a part and an offer that is better than every other. */
  ghost predicate IsBest(list: seq<Entry>, c: Candidate, parsed: seq<Parsed>, offers: seq<Parsed>, wildcards: bool) {
    && c.entry < |list| && c.offer < |offers|
    && var best := list[c.entry];
       && Pairs(parsed, offers, wildcards, best.place, c.offer) && parsed[best.place] == Media(best.m)
       && forall k: nat, i: nat :: Pairs(parsed, offers, wildcards, k, i) ==>
            (k == best.place && i == c.offer) || Better(best, c.offer, Entry(parsed[k].m, k), i)
  }

  /** Negotiation is optimal. For every header text and every list of offers: it fails exactly when the
      header is refused, or an offer cannot be parsed and some media type of the header is compared with
      it; otherwise there is no match exactly when no media type of the header is compatible with an offer,
      and else the match is the one pair that is better than every other compatible pair. */
  lemma NegotiationIsOptimal(header: Option<string>, offers: seq<string>, wildcards: bool, qOf: string -> Option<real>)
    ensures var parsed := ParseAll(Parts(header), qOf); var wanted := ParseAll(offers, qOf);
      var r := Negotiate(header, offers, wildcards, qOf); var list := ParseAccept(header, qOf);
      && (r.Err? <==> (list.Err? ||
            ((exists i :: 0 <= i < |wanted| && wanted[i].Failed?)
             && exists k :: 0 <= k < |parsed| && parsed[k].Media? && TakesPart(Entry(parsed[k].m, k), wildcards))))
      && (r == Ok(None) ==> forall k: nat, i: nat :: !Pairs(parsed, wanted, wildcards, k, i))
      && (r.Ok? && r.value.Some? ==> IsBest(list.value, r.value.value, parsed, wanted, wildcards))
  {
    var parsed, wanted := ParseAll(Parts(header), qOf), ParseAll(offers, qOf);
    var list := ParseAccept(header, qOf);
    if list.Ok? {
      ListOfHeader(header, qOf);
      SomeTakesPart(list.value, parsed, wildcards);
      if Match(list.value, wanted, wildcards).Ok? {
        MatchIsBest(list.value, parsed, wanted, wildcards);
      }
    }
  }

  lemma ListOfHeader(header: Option<string>, qOf: string -> Option<real>)
    requires ParseAccept(header, qOf).Ok?
    ensures Lists(ParseAccept(header, qOf).value, ParseAll(Parts(header), qOf))
  {
    if header != Some("") {
      ListIsOrdered(ParseAll(Parts(header), qOf));
    }
  }

  lemma SomeTakesPart(list: seq<Entry>, parsed: seq<Parsed>, wildcards: bool)
    requires Lists(list, parsed)
    ensures (exists j :: 0 <= j < |list| && TakesPart(list[j], wildcards))
      <==> exists k :: 0 <= k < |parsed| && parsed[k].Media? && TakesPart(Entry(parsed[k].m, k), wildcards)
  {
    if j :| 0 <= j < |list| && TakesPart(list[j], wildcards) {
      assert parsed[list[j].place] == Media(list[j].m) && list[j] == Entry(list[j].m, list[j].place);
    }
  }

  lemma MatchIsBest(list: seq<Entry>, parsed: seq<Parsed>, offers: seq<Parsed>, wildcards: bool)
    requires Lists(list, parsed) && Match(list, offers, wildcards).Ok?
    ensures var m := Match(list, offers, wildcards).value;
      && (m.None? ==> forall k: nat, i: nat :: !Pairs(parsed, offers, wildcards, k, i))
      && (m.Some? ==> IsBest(list, m.value, parsed, offers, wildcards))
  {
    MatchIsLeast(list, offers, wildcards);
    forall k: nat, i: nat | Pairs(parsed, offers, wildcards, k, i)
      ensures Match(list, offers, wildcards).value.Some?
      ensures var c := Match(list, offers, wildcards).value.value;
        && c.entry < |list|
        && ((k == list[c.entry].place && i == c.offer)
            || Better(list[c.entry], c.offer, Entry(parsed[k].m, k), i))
    {
      var e := Entry(parsed[k].m, k);
      var j :| 0 <= j < |list| && list[j] == e;
      BestIsBetter(list, offers, wildcards, j, i);
    }
  }

  lemma BestIsBetter(list: seq<Entry>, offers: seq<Parsed>, wildcards: bool, j: nat, i: nat)
    requires forall i, j :: 0 <= i < j < |list| ==> Precedes(list[i], list[j]) && list[i].place != list[j].place
    requires j < |list| && i < |offers| && Answers(list[j], offers[i], wildcards)
    requires Match(list, offers, wildcards).Ok?
    ensures Match(list, offers, wildcards).value.Some?
    ensures var c := Match(list, offers, wildcards).value.value;
      c.entry < |list| && ((c.entry == j && i == c.offer) || Better(list[c.entry], c.offer, list[j], i))
  {
    MatchIsLeast(list, offers, wildcards);
    var c := Match(list, offers, wildcards).value.value;
    assert TupleAtMost(c, Candidate(list[j].m.q, i, j));
    if c.q == list[j].m.q && c.offer == i && c.entry != j {
      assert c.entry < j;
      assert Precedes(list[c.entry], list[j]) && list[c.entry].place != list[j].place;
    }
  }

  /** The match precedes every candidate. */
  lemma MatchIsLeast(list: seq<Entry>, offers: seq<Parsed>, wildcards: bool)
    requires Match(list, offers, wildcards).Ok?
    ensures var m := Match(list, offers, wildcards).value;
      && (m.Some? ==>
            m.value.entry < |list| && m.value.offer < |offers| && m.value.q == list[m.value.entry].m.q
            && Answers(list[m.value.entry], offers[m.value.offer], wildcards))
      && (forall i, j :: 0 <= i < |offers| && 0 <= j < |list| && Answers(list[j], offers[i], wildcards) ==>
            m.Some? && TupleAtMost(m.value, Candidate(list[j].m.q, i, j)))
  {
    var cs := Candidates(list, offers, wildcards, |list|);
    TuplesAreOrdered();
    SortSorts(cs, TupleAtMost);
    var sorted := StableSort(cs, TupleAtMost);
    if |sorted| > 0 {
      assert sorted[0] in multiset(sorted);
      assert sorted[0] in cs;
    }
    forall i, j | 0 <= i < |offers| && 0 <= j < |list| && Answers(list[j], offers[i], wildcards)
      ensures |sorted| > 0 && TupleAtMost(sorted[0], Candidate(list[j].m.q, i, j))
    {
      var c := Candidate(list[j].m.q, i, j);
      assert c in multiset(cs);
      assert c in multiset(sorted);
      var k :| 0 <= k < |sorted| && sorted[k] == c;
    }
  }

  /** The order of the arguments comes before specificity: of two media types at the same q, the less
      specific one decides when it alone is compatible with the first offer. */
  lemma OfferOrderBeatsSpecificity(specific: Entry, general: Entry, offers: seq<Parsed>)
    requires Precedes(specific, general) && specific.m.q == general.m.q
    requires |offers| == 2 && offers[0].Media? && offers[1].Media?
    requires Compatible(general.m, offers[0].m) && !Compatible(specific.m, offers[0].m)
    ensures Match([specific, general], offers, true) == Ok(Some(Candidate(general.m.q, 0, 1)))
  {
    var list := [specific, general];
    assert forall i :: 0 <= i < |offers| ==> !offers[i].Failed?;
    MatchIsLeast(list, offers, true);
    assert Answers(list[1], offers[0], true);
    var m := Match(list, offers, true).value.value;
    assert TupleAtMost(m, Candidate(general.m.q, 0, 1));
  }

  /** So it is for an Accept header with `text/html` and a wildcard, when JSON is offered before HTML. */
  lemma WildcardWins()
    ensures var html, json := MediaType("text", "html", 1.0, map[]), MediaType("application", "json", 1.0, map[]);
      Match([Entry(html, 0), Entry(EVERYTHING, 1)], [Media(json), Media(html)], true) == Ok(Some(Candidate(1.0, 0, 1)))
  {
    var html, json := MediaType("text", "html", 1.0, map[]), MediaType("application", "json", 1.0, map[]);
    assert html.subtype[0] != json.subtype[0];
    OfferOrderBeatsSpecificity(Entry(html, 0), Entry(EVERYTHING, 1), [Media(json), Media(html)]);
  }

  // ---------------------------------------------------------------- the two special headers

  /** An empty header accepts nothing, and does not even look at the offers. */
  lemma EmptyHeaderAcceptsNothing(offers: seq<string>, wildcards: bool, qOf: string -> Option<real>)
    ensures Negotiate(Some(""), offers, wildcards, qOf) == Ok(None)
  {
  }

  /** Without a header the match is the first offer that is a media type without parameters: the entry
      that stands for everything has none, and the parameters of an offer must be met. */
  lemma NoHeaderAcceptsFirstPlainOffer(offers: seq<string>, qOf: string -> Option<real>)
    requires FirstError(ParseAll(offers, qOf)).None?
    ensures var wanted := ParseAll(offers, qOf); var r := Negotiate(None, offers, true, qOf);
      && r.Ok?
      && (r.value.None? <==> forall i :: 0 <= i < |wanted| ==> !IsPlain(wanted[i]))
      && (r.value.Some? ==>
            var n := r.value.value.offer;
            n < |wanted| && IsPlain(wanted[n]) && forall i :: 0 <= i < n ==> !IsPlain(wanted[i]))
  {
    var wanted, parsed := ParseAll(offers, qOf), ParseAll(Parts(None), qOf);
    NoHeader(qOf);
    NegotiationIsOptimal(None, offers, true, qOf);
    var m := Negotiate(None, offers, true, qOf).value;
    if m.None? {
      forall i | 0 <= i < |wanted|
        ensures !IsPlain(wanted[i])
      {
        PlainIsAnswered(parsed, wanted, i);
      }
    } else {
      FirstPlain(ParseAccept(None, qOf).value, m.value, parsed, wanted);
    }
  }

  predicate IsPlain(offer: Parsed) {
    offer.Media? && offer.m.params == map[]
  }

  const EVERYTHING := MediaType("*", "*", 1.0, map[])

  lemma PlainIsAnswered(parsed: seq<Parsed>, offers: seq<Parsed>, i: nat)
    requires parsed == [Media(EVERYTHING)] && i < |offers|
    ensures Pairs(parsed, offers, true, 0, i) <==> IsPlain(offers[i])
  {
    if offers[i].Media? && offers[i].m.params != map[] {
      var k :| k in offers[i].m.params;
    }
  }

  lemma FirstPlain(list: seq<Entry>, c: Candidate, parsed: seq<Parsed>, offers: seq<Parsed>)
    requires parsed == [Media(EVERYTHING)] && IsBest(list, c, parsed, offers, true)
    ensures c.offer < |offers| && IsPlain(offers[c.offer])
    ensures forall i :: 0 <= i < c.offer ==> !IsPlain(offers[i])
  {
    PlainIsAnswered(parsed, offers, c.offer);
    forall i | 0 <= i < c.offer
      ensures !IsPlain(offers[i])
    {
      PlainIsAnswered(parsed, offers, i);
    }
  }

  lemma NoHeader(qOf: string -> Option<real>)
    ensures ParseAll(Parts(None), qOf) == [Media(EVERYTHING)]
    ensures ParseAccept(None, qOf).Ok?
  {
    var t := "*/*";
    NoSymbol(t, ',');
    NoSymbol(t, ';');
    assert Strip(t) == t by {
      StripNothing(t);
    }
    assert t[1..2] == "/" && t[0..1] != "/" && t[..1] == "*" && t[2..] == "*";
    FindIs("/", t, 0, 1);
    assert LStrip("*") == "*" && RStrip("*") == "*";
    var m := EVERYTHING;
    assert Parse(t, qOf) == Media(m);
    assert ParseAll([t], qOf) == [Media(m)];
    assert [Media(m)][..0] == [];
    assert Entries([Media(m)]) == Ok([] + [Entry(m, 0)]);
  }

  lemma NoSymbol(t: string, c: char)
    requires c !in t
    ensures Split(t, [c]) == [t]
  {
    CutsAfterSymbol(t, c);
  }
}
