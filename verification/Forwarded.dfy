/** The Forwarded header of RFC 7239: a right-to-left scan for the element that carries the secret. */
module Forwarded {
  import opened Sequences
  import opened Texts

  datatype Pair = Pair(key: string, val: string)

  // ---------------------------------------------------------------- the pattern on the reversed header

  /** A match at the front of a reversed text: `value=key`, white space, then the end or a separator. */
  datatype Found = Found(length: nat, pair: Pair, sep: Separator)

  datatype Separator = End | Semicolon | Comma

  /** What separates a parameter from the one to its left, by the text that is left. */
  function SeparatorOf(rest: string): Separator {
    if rest == "" then End else if rest[0] == ';' then Semicolon else Comma
  }

  /** The value part: a run of token characters or a quoted text; its length, and the value. */
  function ValueAt(s: string): (r: Option<(nat, string)>)
    ensures r.Some? ==> 0 < r.value.0 <= |s|
  {
    if TokenRun(s) > 0 then Some((TokenRun(s), s[..TokenRun(s)]))
    else if s != "" && s[0] == '"' && Find("\"", s, 1) >= 0 then
      var close := Find("\"", s, 1);
      Some((close + 1, s[1..close]))
    else None
  }

  /** The part behind the equals sign: the reversed name, white space, and the separator if any. */
  function KeyAt(t: string): (r: Option<(nat, string, Separator)>)
    ensures r.Some? ==> r.value.0 <= |t|
  {
    var k := TokenRun(t);
    var e := k + BlankRun(t[k..]);
    if k == 0 then None
    else if e == |t| then Some((e, t[..k], End))
    else if t[e] == ';' || t[e] == ',' then Some((e + 1, t[..k], SeparatorOf(t[e..])))
    else None
  }

  function MatchAt(s: string): (r: Option<Found>)
    ensures r.Some? ==> 0 < r.value.length <= |s|
  {
    match ValueAt(s)
    case None => None
    case Some((n, val)) =>
      if n == |s| || s[n] != '=' then None
      else match KeyAt(s[n + 1..])
        case None => None
        case Some((len, key, sep)) => Some(Found(n + 1 + len, Pair(Reverse(Lower(key)), Reverse(val)), sep))
  }

  /** A pattern, by what it matches at the front of a text; it never matches nothing. */
  type Pattern = string -> Option<Found>

  ghost predicate Moves(at: Pattern) {
    forall t :: at(t).Some? ==> 0 < at(t).value.length <= |t|
  }

  /** The next match of `finditer`: how many characters it skips, and the match. */
  function NextMatch(s: string, at: Pattern): (r: Option<(nat, Found)>)
    requires Moves(at)
    ensures r.Some? ==> 0 < r.value.1.length && r.value.0 + r.value.1.length <= |s|
  {
    if s == "" then None
    else if at(s).Some? then Some((0, at(s).value))
    else match NextMatch(s[1..], at)
      case None => None
      case Some((skip, m)) => Some((skip + 1, m))
  }

  /** One match of `finditer`, and whether it starts where the previous one ended. */
  datatype Hit = Hit(adjacent: bool, pair: Pair, sep: Separator)

  /** All matches of `finditer`, in order. */
  function FindAll(s: string, at: Pattern): seq<Hit>
    requires Moves(at)
    decreases |s|
  {
    match NextMatch(s, at)
    case None => []
    case Some((skip, m)) => [Hit(skip == 0, m.pair, m.sep)] + FindAll(s[skip + m.length..], at)
  }

  lemma MatchAtMoves()
    ensures Moves(MatchAt)
  {
  }

  /** All matches of the pattern of `parse_forwarded`. */
  function Matches(s: string): seq<Hit> {
    MatchAtMoves();
    FindAll(s, MatchAt)
  }

  // ---------------------------------------------------------------- the scan

  predicate IsSecret(p: Pair, secret: string) {
    (p.key == "secret" || p.key == "by") && p.val == secret
  }

  /** The options of the first element from the right that holds the secret, in right-to-left order.
      `chained` is whether the last match ended with a semicolon. */
  function Scan(hits: seq<Hit>, secret: string, chained: bool, options: seq<Pair>, found: bool): Option<seq<Pair>> {
    if |hits| == 0 then if found then Some(options) else None
    else
      var m := hits[0];
      var anew := !m.adjacent || !chained;
      var options' := (if anew then [] else options) + [m.pair];
      var found' := found || IsSecret(m.pair, secret);
      if anew && found then Some(options)
      else if found' && !m.sep.Semicolon? then Some(options')
      else Scan(hits[1..], secret, m.sep.Semicolon?, options', found')
  }

  // ---------------------------------------------------------------- normalising

  datatype Value = Text(text: string) | Number(n: int)

  /** `int` on a text, with `None` for a ValueError, and the percent-decoding of `unquote`. */
  datatype Conversions = Conversions(toInt: string -> Option<int>, unquote: string -> string)

  predicate IsHexGroup(s: string) {
    |s| <= 4 && forall i :: 0 <= i < |s| ==> '0' <= s[i] <= '9' || 'A' <= s[i] <= 'F' || 'a' <= s[i] <= 'f'
  }

  /** Three to eight groups of at most four hexadecimal digits, separated by colons. */
  predicate IsIpv6(addr: string) {
    var groups := Split(addr, ":");
    3 <= |groups| <= 8 && forall i :: 0 <= i < |groups| ==> IsHexGroup(groups[i])
  }

  /** `fwd_normalize_address`. */
  function Address(addr: string): Option<string> {
    if addr == "unknown" then None
    else if addr != "" && addr[0] == '_' then Some(addr)
    else Some(Lower(if IsIpv6(addr) then "[" + addr + "]" else addr))
  }

  /** What `fwd_normalize` makes of one option; nothing for a ValueError. */
  function Normal(p: Pair, cv: Conversions): Option<Value> {
    if p.key == "by" || p.key == "for" then
      if Address(p.val).None? then None else Some(Text(Address(p.val).value))
    else if p.key == "host" || p.key == "proto" then Some(Text(Lower(p.val)))
    else if p.key == "port" then
      if cv.toInt(p.val).None? then None else Some(Number(cv.toInt(p.val).value))
    else if p.key == "path" then Some(Text(cv.unquote(p.val)))
    else Some(Text(p.val))
  }

  /** The last option of that name that has a normal form. */
  function LastNormal(pairs: seq<Pair>, key: string, cv: Conversions): Option<Value> {
    if |pairs| == 0 then None
    else if pairs[|pairs| - 1].key == key && Normal(pairs[|pairs| - 1], cv).Some? then Normal(pairs[|pairs| - 1], cv)
    else LastNormal(pairs[..|pairs| - 1], key, cv)
  }

  /** The dictionary holds, for every name, its last option that has a normal form, and nothing else. */
  ghost predicate IsNormalized(ret: map<string, Value>, pairs: seq<Pair>, cv: Conversions) {
    forall key: string ::
      && (key in ret <==> LastNormal(pairs, key, cv).Some?)
      && (key in ret ==> LastNormal(pairs, key, cv) == Some(ret[key]))
  }

  /** `fwd_normalize`. */
  method FwdNormalize(pairs: seq<Pair>, cv: Conversions) returns (ret: map<string, Value>)
    ensures IsNormalized(ret, pairs, cv)
  {
    ret := map[];
    for i := 0 to |pairs|
      invariant IsNormalized(ret, pairs[..i], cv)
    {
      assert pairs[..i + 1][..i] == pairs[..i];
      var v := Normal(pairs[i], cv);
      if v.Some? {
        ret := ret[pairs[i].key := v.value];
      }
    }
    assert pairs[..|pairs|] == pairs;
  }

  /** The options that `parse_forwarded` selects, left to right; `None` when nothing matched. */
  function Selected(lines: seq<string>, secret: string): Option<seq<Pair>> {
    var header := Join(lines, ",");
    if |lines| == 0 || secret == "" || Find(secret, header, 0) < 0 then None
    else match Scan(Matches(Reverse(header)), secret, false, [], false)
      case None => None
      case Some(options) => Some(Reverse(options))
  }

  /** `parse_forwarded`, with the header lines and the configured secret. */
  method ParseForwarded(lines: seq<string>, secret: string, cv: Conversions) returns (r: Option<map<string, Value>>)
    ensures r.Some? <==> Selected(lines, secret).Some?
    ensures r.Some? ==> IsNormalized(r.value, Selected(lines, secret).value, cv)
  {
    if |lines| == 0 || secret == "" {
      return None;
    }
    var header := Join(lines, ",");
    if Find(secret, header, 0) < 0 {
      return None;
    }
    var options := ScanHits(Matches(Reverse(header)), secret);
    if options.None? {
      return None;
    }
    var ret := FwdNormalize(Reverse(options.value), cv);
    r := Some(ret);
  }

  /** The loop of `parse_forwarded`. */
  method ScanHits(hits: seq<Hit>, secret: string) returns (r: Option<seq<Pair>>)
    ensures r == Scan(hits, secret, false, [], false)
  {
    var chained, found := false, false;
    var options: seq<Pair> := [];
    assert hits[0..] == hits;
    for i := 0 to |hits|
      invariant Scan(hits[i..], secret, chained, options, found) == Scan(hits, secret, false, [], false)
    {
      var m := hits[i];
      // Start of a new element?
      if !m.adjacent || !chained {
        if found {
          break;
        }
        options := [];
      }
      options := options + [m.pair];
      if IsSecret(m.pair, secret) {
        found := true;
      }
      chained := m.sep.Semicolon?;
      if found && !chained {
        return Some(options);
      }
    }
    r := if found then Some(options) else None;
  }

  // ---------------------------------------------------------------- rendered headers

  /** A parameter as a proxy writes it: white space, a name, a token or quoted value, white space. */
  datatype Param = Param(pad: string, key: string, val: string, quoted: bool, gap: string)

  predicate IsParam(p: Param) {
    && AllBlank(p.pad) && IsToken(p.key) && AllBlank(p.gap)
    && (if p.quoted then '"' !in p.val else IsToken(p.val))
  }

  function ValueText(p: Param): string {
    if p.quoted then "\"" + p.val + "\"" else p.val
  }

  /** The parameter without the white space behind it. */
  function ParamText(p: Param): string {
    p.pad + p.key + "=" + ValueText(p)
  }

  /** A parameter with the separator in front of it: a comma if it opens an element, else a semicolon. */
  datatype Item = Item(param: Param, opens: bool)

  predicate AreItems(items: seq<Item>) {
    |items| > 0 && forall i :: 0 <= i < |items| ==> IsParam(items[i].param)
  }

  /** The text of a header, without the separator in front of its first parameter. */
  function HeaderText(items: seq<Item>): string
    requires |items| > 0
  {
    var n := |items| - 1;
    var text := ParamText(items[n].param) + items[n].param.gap;
    if n == 0 then text else HeaderText(items[..n]) + (if items[n].opens then "," else ";") + text
  }

  /** The parameter continues the element of the one in front of it: behind a semicolon that follows the
      value at once. White space in front of a semicolon breaks an element in two. */
  predicate Continues(items: seq<Item>, n: nat)
    requires n < |items|
  {
    n > 0 && !items[n].opens && items[n - 1].param.gap == ""
  }

  /** The elements that the parser sees. */
  function Elements(items: seq<Item>): (es: seq<seq<Param>>)
    ensures |items| > 0 ==> |es| > 0 && |es[|es| - 1]| > 0
  {
    if |items| == 0 then []
    else
      var n := |items| - 1;
      var before, p := Elements(items[..n]), items[n].param;
      if Continues(items, n) then before[..|before| - 1] + [before[|before| - 1] + [p]] else before + [[p]]
  }

  function Named(p: Param): Pair {
    Pair(Lower(p.key), p.val)
  }

  function NamedAll(ps: seq<Param>): seq<Pair> {
    seq(|ps|, i requires 0 <= i < |ps| => Named(ps[i]))
  }

  predicate Holds(ps: seq<Param>, secret: string) {
    exists i :: 0 <= i < |ps| && IsSecret(Named(ps[i]), secret)
  }

  predicate NoneAfter(es: seq<seq<Param>>, i: nat, secret: string) {
    forall j :: i < j < |es| ==> !Holds(es[j], secret)
  }

  /** The rightmost element that holds the secret. */
  function Rightmost(es: seq<seq<Param>>, secret: string): Option<seq<Param>> {
    if |es| == 0 then None
    else if Holds(es[|es| - 1], secret) then Some(es[|es| - 1])
    else Rightmost(es[..|es| - 1], secret)
  }

  /** It holds the secret and no element to its right does; there is none iff no element does. */
  lemma {:induction false} RightmostIs(es: seq<seq<Param>>, secret: string)
    ensures var r := Rightmost(es, secret);
      && (r.None? <==> forall i :: 0 <= i < |es| ==> !Holds(es[i], secret))
      && (r.Some? ==>
            exists i :: 0 <= i < |es| && es[i] == r.value && Holds(es[i], secret) && NoneAfter(es, i, secret))
  {
    if |es| > 0 {
      var init := es[..|es| - 1];
      RightmostIs(init, secret);
      if Holds(es[|es| - 1], secret) {
        assert NoneAfter(es, |es| - 1, secret);
      } else if Rightmost(init, secret).Some? {
        var i :| 0 <= i < |init| && init[i] == Rightmost(init, secret).value && Holds(init[i], secret)
          && NoneAfter(init, i, secret);
        assert es[i] == init[i] && NoneAfter(es, i, secret) by {
          assert forall k :: i < k < |init| ==> es[k] == init[k];
        }
      } else {
        assert forall i :: 0 <= i < |init| ==> es[i] == init[i];
      }
    }
  }

  // What the pattern matches, by position.

  lemma TokenValue(s: string, n: nat)
    requires 0 < n < |s| && AllToken(s[..n]) && !IsTokenChar(s[n])
    ensures ValueAt(s) == Some((n, s[..n]))
  {
    TokenRunAt(s, n);
  }

  lemma QuotedValue(s: string, close: nat)
    requires 0 < close < |s| && s[0] == '"' && s[close] == '"'
    requires forall i :: 1 <= i < close ==> s[i] != '"'
    ensures ValueAt(s) == Some((close + 1, s[1..close]))
  {
    forall i: nat | 1 <= i < close
      ensures !OccursAt("\"", s, i)
    {
      assert s[i..i + 1] == [s[i]];
    }
    assert s[close..close + 1] == "\"";
    FindIs("\"", s, 1, close);
  }

  predicate StartsSeparator(rest: string) {
    rest == "" || rest[0] == ';' || rest[0] == ','
  }

  lemma KeyHere(t: string, k: nat, e: nat)
    requires 0 < k <= e <= |t| && AllToken(t[..k]) && AllBlank(t[k..e]) && StartsSeparator(t[e..])
    ensures KeyAt(t) == Some((if e == |t| then e else e + 1, t[..k], SeparatorOf(t[e..])))
  {
    assert k < e ==> IsBlank(t[k..e][0]);
    assert e < |t| ==> t[e..][0] == t[e];
    TokenRunAt(t, k);
    var b := t[k..];
    assert b[..e - k] == t[k..e];
    assert e < |t| ==> b[e - k] == t[e];
    BlankRunAt(b, e - k);
  }

  lemma MatchHere(s: string, n: nat, val: string, t: string, key: string, len: nat, sep: Separator)
    requires n < |s| && ValueAt(s) == Some((n, val)) && s[n] == '=' && s[n + 1..] == t
    requires KeyAt(t) == Some((len, key, sep))
    ensures MatchAt(s) == Some(Found(n + 1 + len, Pair(Reverse(Lower(key)), Reverse(val)), sep))
  {
  }

  // A rendered parameter, reversed.

  lemma Shape(v: string, k: string, w: string, rest: string)
    ensures var s := v + "=" + k + w + rest;
      var t := s[|v| + 1..];
      && s[..|v|] == v && s[|v|] == '='
      && |t| == |k| + |w| + |rest|
      && t[..|k|] == k && t[|k|..|k| + |w|] == w && t[|k| + |w|..] == rest
  {
    var s := v + "=" + k + w + rest;
    assert s[|v| + 1..] == k + w + rest;
  }

  lemma ReverseQuoted(val: string)
    ensures Reverse("\"" + val + "\"") == "\"" + Reverse(val) + "\""
  {
    ReverseAppend("\"" + val, "\"");
    ReverseAppend("\"", val);
    assert Reverse("\"") == "\"";
  }

  lemma ReverseHas(val: string, c: char)
    requires c !in val
    ensures forall i :: 0 <= i < |val| ==> Reverse(val)[i] != c
  {
    forall i | 0 <= i < |val|
      ensures Reverse(val)[i] != c
    {
      ReverseAt(val, i);
    }
  }

  /** The value part of a reversed parameter. */
  lemma ValueOfParam(p: Param, s: string)
    requires IsParam(p) && |s| > |ValueText(p)|
    requires s[..|ValueText(p)|] == Reverse(ValueText(p)) && s[|ValueText(p)|] == '='
    ensures ValueAt(s) == Some((|ValueText(p)|, Reverse(p.val)))
  {
    if p.quoted {
      ReverseQuoted(p.val);
      ReverseHas(p.val, '"');
      ValueOfQuoted(s, Reverse(p.val));
    } else {
      ReverseAll(p.val);
      TokenValue(s, |p.val|);
    }
  }

  lemma ValueOfQuoted(s: string, w: string)
    requires |s| > |w| + 2 && s[..|w| + 2] == "\"" + w + "\""
    requires forall i :: 0 <= i < |w| ==> w[i] != '"'
    ensures ValueAt(s) == Some((|w| + 2, w))
  {
    var q := "\"" + w + "\"";
    forall i | 0 <= i < |w| + 2
      ensures s[i] == q[i]
    {
      assert s[..|w| + 2][i] == s[i];
    }
    forall i | 1 <= i < |w| + 1
      ensures s[i] != '"'
    {
      assert q[i] == w[i - 1];
    }
    QuotedValue(s, |w| + 1);
    assert s[1..|w| + 1] == w;
  }

  /** A parameter at the right end of what is left matches there and then, up to its separator. */
  lemma MatchParam(p: Param, rest: string) returns (m: Found)
    requires IsParam(p) && StartsSeparator(rest)
    ensures MatchAt(Reverse(ParamText(p)) + rest) == Some(m)
    ensures m == Found(|ParamText(p)| + (if rest == "" then 0 else 1), Named(p), SeparatorOf(rest))
  {
    var v := Reverse(ValueText(p));
    var s := v + "=" + Reverse(p.key) + Reverse(p.pad) + rest;
    ReverseParam(p);
    ValueInParam(p, s, Reverse(p.key), Reverse(p.pad), rest);
    ReverseAll(p.key);
    ReverseAll(p.pad);
    MatchOf(s, v, Reverse(p.key), Reverse(p.pad), rest, Reverse(p.val));
    ReversedTwice(p);
    m := Found(|ParamText(p)| + (if rest == "" then 0 else 1), Named(p), SeparatorOf(rest));
  }

  lemma ValueInParam(p: Param, s: string, k: string, w: string, rest: string)
    requires IsParam(p) && s == Reverse(ValueText(p)) + "=" + k + w + rest
    ensures ValueAt(s) == Some((|ValueText(p)|, Reverse(p.val)))
  {
    Shape(Reverse(ValueText(p)), k, w, rest);
    ValueOfParam(p, s);
  }

  lemma KeyOf(t: string, k: string, w: string, rest: string)
    requires |t| == |k| + |w| + |rest| && t[..|k|] == k && t[|k|..|k| + |w|] == w && t[|k| + |w|..] == rest
    requires IsToken(k) && AllBlank(w) && StartsSeparator(rest)
    ensures KeyAt(t) == Some((|k| + |w| + (if rest == "" then 0 else 1), k, SeparatorOf(rest)))
  {
    KeyHere(t, |k|, |k| + |w|);
  }

  lemma MatchOf(s: string, v: string, k: string, w: string, rest: string, val: string)
    requires s == v + "=" + k + w + rest && IsToken(k) && AllBlank(w) && StartsSeparator(rest)
    requires ValueAt(s) == Some((|v|, val))
    ensures MatchAt(s) == Some(Found(|v| + 1 + |k| + |w| + (if rest == "" then 0 else 1),
                                     Pair(Reverse(Lower(k)), Reverse(val)), SeparatorOf(rest)))
  {
    var t := s[|v| + 1..];
    Shape(v, k, w, rest);
    KeyOf(t, k, w, rest);
    MatchHere(s, |v|, val, t, k, |k| + |w| + (if rest == "" then 0 else 1), SeparatorOf(rest));
  }

  lemma ReversedTwice(p: Param)
    ensures Pair(Reverse(Lower(Reverse(p.key))), Reverse(Reverse(p.val))) == Named(p)
  {
    ReverseTwice(p.val);
    ReverseTwice(p.key);
    ReverseLower(Reverse(p.key));
  }

  lemma ReverseParam(p: Param)
    ensures Reverse(ParamText(p)) == Reverse(ValueText(p)) + "=" + Reverse(p.key) + Reverse(p.pad)
  {
    ReverseAppend(p.pad + p.key + "=", ValueText(p));
    ReverseAppend(p.pad + p.key, "=");
    ReverseAppend(p.pad, p.key);
    assert Reverse("=") == "=";
  }

  /** What is left behind a parameter's separator. */
  function Tail(rest: string): string {
    if rest == "" then "" else rest[1..]
  }

  /** No match starts with white space. */
  ghost predicate SkipsBlanks(at: Pattern) {
    forall t :: t != "" && IsBlank(t[0]) ==> at(t).None?
  }

  lemma {:induction false} SkipBlanks(w: string, s: string, m: Found, at: Pattern)
    requires Moves(at) && SkipsBlanks(at) && AllBlank(w) && at(s) == Some(m)
    ensures NextMatch(w + s, at) == Some((|w|, m))
  {
    if w == "" {
      assert w + s == s && s != "";
    } else {
      assert IsBlank(w[0]);
      assert (w + s)[1..] == w[1..] + s;
      SkipBlanks(w[1..], s, m, at);
    }
  }

  lemma MatchAtSkipsBlanks()
    ensures SkipsBlanks(MatchAt)
  {
  }

  lemma HitBehind(w: string, s: string, m: Found, tail: string, at: Pattern)
    requires Moves(at) && SkipsBlanks(at) && AllBlank(w)
    requires at(s) == Some(m) && s[m.length..] == tail
    ensures FindAll(w + s, at) == [Hit(w == "", m.pair, m.sep)] + FindAll(tail, at)
  {
    SkipBlanks(w, s, m, at);
    DropMore(w, s, m.length);
  }

  lemma DropMore(w: string, s: string, n: nat)
    requires n <= |s|
    ensures |w| + n <= |w + s| && (w + s)[|w| + n..] == s[n..]
  {
  }

  lemma DropText(text: string, rest: string, n: nat)
    requires n == |text| + (if rest == "" then 0 else 1)
    ensures (text + rest)[n..] == Tail(rest)
  {
  }

  /** The next match is the parameter at the right end; it is adjacent unless white space follows it. */
  lemma FindParam(p: Param, rest: string)
    requires IsParam(p) && StartsSeparator(rest)
    ensures Matches(Reverse(p.gap) + (Reverse(ParamText(p)) + rest))
         == [Hit(p.gap == "", Named(p), SeparatorOf(rest))] + Matches(Tail(rest))
  {
    var text := Reverse(ParamText(p));
    var m := MatchParam(p, rest);
    DropText(text, rest, m.length);
    ReverseAll(p.gap);
    MatchAtMoves();
    MatchAtSkipsBlanks();
    HitBehind(Reverse(p.gap), text + rest, m, Tail(rest), MatchAt);
  }

  /** The matches of a header, from its right end, and `more` to its left; the leftmost one ends with `sep`. */
  function Hits(items: seq<Item>, sep: Separator, more: seq<Hit>): seq<Hit> {
    if |items| == 0 then more
    else [LastHit(items, sep)] + Hits(items[..|items| - 1], sep, more)
  }

  function LastHit(items: seq<Item>, sep: Separator): Hit
    requires |items| > 0
  {
    var item := items[|items| - 1];
    Hit(item.param.gap == "", Named(item.param),
        if |items| == 1 then sep else if item.opens then Comma else Semicolon)
  }

  /** Read backwards, a header is its last parameter, the separator, and the header in front of it. */
  lemma ReverseHeader(items: seq<Item>, rest: string)
    requires |items| > 0
    ensures var n := |items| - 1; var p := items[n].param;
      Reverse(HeaderText(items)) + rest == Reverse(p.gap) + (Reverse(ParamText(p)) + TextBefore(items, rest))
  {
    var n := |items| - 1;
    var p := items[n].param;
    ReverseAppend(ParamText(p), p.gap);
    if n > 0 {
      ReverseJoin(HeaderText(items[..n]), if items[n].opens then "," else ";", ParamText(p) + p.gap, rest);
    }
    Associate(Reverse(p.gap), Reverse(ParamText(p)), TextBefore(items, rest));
  }

  /** What is in front of the last parameter, read backwards. */
  function TextBefore(items: seq<Item>, rest: string): string
    requires |items| > 0
  {
    var n := |items| - 1;
    if n == 0 then rest else (if items[n].opens then "," else ";") + (Reverse(HeaderText(items[..n])) + rest)
  }

  /** Read backwards, the pattern matches exactly the parameters of a header. */
  lemma {:induction false} FindHeader(items: seq<Item>, rest: string)
    requires AreItems(items) && StartsSeparator(rest)
    ensures Matches(Reverse(HeaderText(items)) + rest) == Hits(items, SeparatorOf(rest), Matches(Tail(rest)))
  {
    FindLast(items, rest);
    if |items| > 1 {
      FindHeader(items[..|items| - 1], rest);
    }
  }

  lemma FindLast(items: seq<Item>, rest: string)
    requires AreItems(items) && StartsSeparator(rest)
    ensures Matches(Reverse(HeaderText(items)) + rest) == [LastHit(items, SeparatorOf(rest))] +
      Matches(if |items| == 1 then Tail(rest) else Reverse(HeaderText(items[..|items| - 1])) + rest)
  {
    var before := TextBefore(items, rest);
    ReverseHeader(items, rest);
    FindParam(items[|items| - 1].param, before);
    if |items| > 1 {
      assert Tail(before) == Reverse(HeaderText(items[..|items| - 1])) + rest;
    }
  }

  /** What the scan makes of the elements, when `options` were already taken for the last of them and
      `more` is to the left of them. */
  function Outcome(es: seq<seq<Param>>, options: seq<Pair>, found: bool, more: seq<Hit>, secret: string)
      : Option<seq<Pair>>
    requires |es| > 0
  {
    var last := es[|es| - 1];
    if found || Holds(last, secret) then Some(options + Reverse(NamedAll(last)))
    else if Rightmost(es[..|es| - 1], secret).Some? then
      Some(Reverse(NamedAll(Rightmost(es[..|es| - 1], secret).value)))
    else Scan(more, secret, false, [], false)
  }

  lemma OptionsDropped(more: seq<Hit>, secret: string, options: seq<Pair>)
    ensures Scan(more, secret, false, options, false) == Scan(more, secret, false, [], false)
  {
  }

  /** The scan over the matches of a header. */
  lemma {:induction false} ScanHeader(items: seq<Item>, sep: Separator, more: seq<Hit>, secret: string,
                                      chained: bool, options: seq<Pair>, found: bool)
    requires |items| > 0 && !sep.Semicolon?
    requires found ==> chained && items[|items| - 1].param.gap == ""
    ensures var kept := if chained && items[|items| - 1].param.gap == "" then options else [];
      Scan(Hits(items, sep, more), secret, chained, options, found)
      == Outcome(Elements(items), kept, found, more, secret)
  {
    var n := |items| - 1;
    var init, p, hit := items[..n], items[n].param, LastHit(items, sep);
    var kept := if chained && p.gap == "" then options else [];
    var found' := found || IsSecret(Named(p), secret);
    ScanStep(hit, Hits(init, sep, more), secret, chained, options, found);
    if Continues(items, n) {
      ScanHeader(init, sep, more, secret, true, kept + [Named(p)], found');
      LastContinues(Elements(init), p, kept, found, more, secret);
    } else {
      LastOpens(Elements(init), p, kept, found, more, secret);
      if n == 0 {
        OptionsDropped(more, secret, kept + [Named(p)]);
      } else if found' {
        assert Hits(init, sep, more)[0] == LastHit(init, sep);
      } else {
        ScanHeader(init, sep, more, secret, hit.sep.Semicolon?, kept + [Named(p)], false);
      }
    }
  }

  lemma ScanStep(hit: Hit, more: seq<Hit>, secret: string, chained: bool, options: seq<Pair>, found: bool)
    requires found ==> chained && hit.adjacent
    ensures var kept := (if chained && hit.adjacent then options else []) + [hit.pair];
      var found' := found || IsSecret(hit.pair, secret);
      Scan([hit] + more, secret, chained, options, found) ==
        if found' && !hit.sep.Semicolon? then Some(kept) else Scan(more, secret, hit.sep.Semicolon?, kept, found')
  {
    assert ([hit] + more)[1..] == more;
  }

  lemma NothingBefore<T>(s: seq<T>)
    ensures [] + s == s
  {
  }

  lemma OneElement(p: Param, secret: string)
    ensures Holds([p], secret) <==> IsSecret(Named(p), secret)
    ensures Reverse(NamedAll([p])) == [Named(p)]
  {
    assert [p][0] == p;
    assert NamedAll([p]) == [Named(p)];
  }

  /** A last element of one parameter. */
  lemma LastOpens(es: seq<seq<Param>>, p: Param, options: seq<Pair>, found: bool, more: seq<Hit>, secret: string)
    ensures Outcome(es + [[p]], options, found, more, secret) ==
      if found || IsSecret(Named(p), secret) then Some(options + [Named(p)])
      else if es == [] then Scan(more, secret, false, [], false)
      else Outcome(es, [], false, more, secret)
  {
    var all := es + [[p]];
    assert all[|all| - 1] == [p] && all[..|all| - 1] == es;
    OneElement(p, secret);
    if es != [] {
      RightmostOfAll(es, secret);
      NothingBefore(Reverse(NamedAll(es[|es| - 1])));
    }
  }

  /** A last element with one more parameter. */
  lemma LastContinues(es: seq<seq<Param>>, p: Param, options: seq<Pair>, found: bool, more: seq<Hit>, secret: string)
    requires |es| > 0
    ensures var k := |es| - 1;
      Outcome(es[..k] + [es[k] + [p]], options, found, more, secret)
      == Outcome(es, options + [Named(p)], found || IsSecret(Named(p), secret), more, secret)
  {
    var k := |es| - 1;
    var last, all := es[k], es[..k] + [es[k] + [p]];
    assert all[..k] == es[..k] && |all| - 1 == k && all[k] == last + [p];
    HoldsSplit(last + [p], secret);
    assert (last + [p])[..|last|] == last;
    assert NamedAll(last + [p]) == NamedAll(last) + [Named(p)];
    ReverseAppend(NamedAll(last), [Named(p)]);
    assert Reverse([Named(p)]) == [Named(p)];
    Associate(options, [Named(p)], Reverse(NamedAll(last)));
  }

  lemma RightmostOfAll(es: seq<seq<Param>>, secret: string)
    requires |es| > 0
    ensures Rightmost(es, secret) ==
      if Holds(es[|es| - 1], secret) then Some(es[|es| - 1]) else Rightmost(es[..|es| - 1], secret)
  {
  }

  lemma HoldsSplit(ps: seq<Param>, secret: string)
    requires |ps| > 0
    ensures Holds(ps, secret) <==> IsSecret(Named(ps[|ps| - 1]), secret) || Holds(ps[..|ps| - 1], secret)
  {
    var init := ps[..|ps| - 1];
    assert forall i :: 0 <= i < |init| ==> init[i] == ps[i];
  }

  lemma ReverseJoin(a: string, sep: string, b: string, rest: string)
    requires |sep| == 1
    ensures Reverse(a + sep + b) + rest == Reverse(b) + (sep + (Reverse(a) + rest))
  {
    ReverseAppend(a + sep, b);
    ReverseAppend(a, sep);
    assert Reverse(sep) == sep;
    Associate(Reverse(b), sep + Reverse(a), rest);
    Associate(sep, Reverse(a), rest);
  }

  // ---------------------------------------------------------------- the quick check is no obstacle

  /** `part` occurs in `s`. */
  ghost predicate Contains(s: string, part: string) {
    exists a: string, b: string :: s == a + part + b
  }

  lemma ContainsIsFound(s: string, part: string)
    requires Contains(s, part)
    ensures Find(part, s, 0) >= 0
  {
    var a, b :| s == a + part + b;
    assert s[|a|..|a| + |part|] == part;
    assert OccursAt(part, s, |a|);
  }

  lemma ContainsLeft(s: string, part: string, r: string)
    requires Contains(s, part)
    ensures Contains(s + r, part)
  {
    var a, b :| s == a + part + b;
    assert s + r == a + part + (b + r);
  }

  lemma ContainsRight(l: string, s: string, part: string)
    requires Contains(s, part)
    ensures Contains(l + s, part)
  {
    var a, b :| s == a + part + b;
    assert l + s == (l + a) + part + b;
  }

  lemma ParamContains(p: Param)
    ensures Contains(ParamText(p), p.val)
  {
    var q := if p.quoted then "\"" else "";
    assert ParamText(p) == (p.pad + p.key + "=" + q) + p.val + q;
  }

  lemma {:induction false} HeaderContains(items: seq<Item>, i: nat)
    requires i < |items|
    ensures Contains(HeaderText(items), items[i].param.val)
  {
    var n := |items| - 1;
    var p, val := items[n].param, items[i].param.val;
    var text := ParamText(p) + p.gap;
    if i == n {
      ParamContains(p);
      ContainsLeft(ParamText(p), val, p.gap);
      if n > 0 {
        ContainsRight(HeaderText(items[..n]) + (if items[n].opens then "," else ";"), text, val);
      }
    } else {
      HeaderContains(items[..n], i);
      ContainsLeft(HeaderText(items[..n]), val, if items[n].opens then "," else ";");
      ContainsLeft(HeaderText(items[..n]) + (if items[n].opens then "," else ";"), val, text);
    }
  }

  /** Every parameter of an element is one of the header's. */
  lemma {:induction false} ElementsHold(items: seq<Item>, e: nat, j: nat)
    requires e < |Elements(items)| && j < |Elements(items)[e]|
    ensures exists i :: 0 <= i < |items| && items[i].param == Elements(items)[e][j]
  {
    var n := |items| - 1;
    var before := Elements(items[..n]);
    if e < |before| && j < |before[e]| {
      ElementsHold(items[..n], e, j);
      var i :| 0 <= i < n && items[..n][i].param == before[e][j];
      assert items[i].param == Elements(items)[e][j];
    } else {
      assert items[n].param == Elements(items)[e][j];
    }
  }

  lemma SecretIsThere(items: seq<Item>, secret: string)
    requires |items| > 0 && Rightmost(Elements(items), secret).Some?
    ensures Contains(HeaderText(items), secret)
  {
    RightmostIs(Elements(items), secret);
    var e :| 0 <= e < |Elements(items)| && Holds(Elements(items)[e], secret);
    var j :| 0 <= j < |Elements(items)[e]| && IsSecret(Named(Elements(items)[e][j]), secret);
    ElementsHold(items, e, j);
    var i :| 0 <= i < |items| && items[i].param == Elements(items)[e][j];
    HeaderContains(items, i);
  }

  // ---------------------------------------------------------------- the selection

  /** What the scan finds in a header with `rest` in front of it, read backwards. */
  lemma ScanFinds(items: seq<Item>, rest: string, secret: string)
    requires AreItems(items) && (rest == "" || rest[0] == ',')
    ensures Scan(Matches(Reverse(HeaderText(items)) + rest), secret, false, [], false) ==
      if Rightmost(Elements(items), secret).Some? then Some(Reverse(NamedAll(Rightmost(Elements(items), secret).value)))
      else Scan(Matches(Tail(rest)), secret, false, [], false)
  {
    FindHeader(items, rest);
    ScanHeader(items, SeparatorOf(rest), Matches(Tail(rest)), secret, false, [], false);
    RightmostOfAll(Elements(items), secret);
    var es := Elements(items);
    assert [] + Reverse(NamedAll(es[|es| - 1])) == Reverse(NamedAll(es[|es| - 1]));
  }

  /** For every header of parameters, the scan selects the parameters of the rightmost element that holds
      the secret in a `by` or `secret` parameter, in left-to-right order, and nothing exactly when there is
      no such element. The elements end at commas, and at white space in front of a semicolon. */
  lemma ForwardedSelection(lines: seq<string>, items: seq<Item>, secret: string)
    requires AreItems(items) && secret != ""
    requires |lines| > 0 && Join(lines, ",") == HeaderText(items)
    ensures var r := Rightmost(Elements(items), secret);
      Selected(lines, secret) == if r.Some? then Some(NamedAll(r.value)) else None
  {
    var r, text := Rightmost(Elements(items), secret), Reverse(HeaderText(items));
    ScanFinds(items, "", secret);
    assert text + "" == text;
    assert Matches(Tail("")) == [];
    if r.Some? {
      SecretIsThere(items, secret);
      ContainsIsFound(HeaderText(items), secret);
      ReverseTwice(NamedAll(r.value));
    }
  }

  /** Text to the left cannot change the selection: whatever a client puts in front of the proxies' part,
      the element selected is the same as long as that part holds the secret. */
  lemma TextOnTheLeftIsIgnored(lines: seq<string>, left: string, items: seq<Item>, secret: string)
    requires AreItems(items) && secret != "" && Rightmost(Elements(items), secret).Some?
    requires |lines| > 0 && Join(lines, ",") == left + "," + HeaderText(items)
    ensures Selected(lines, secret) == Some(NamedAll(Rightmost(Elements(items), secret).value))
  {
    var r, text := Rightmost(Elements(items), secret), HeaderText(items);
    ScanFinds(items, "," + Reverse(left), secret);
    ReverseJoin(left, ",", text, "");
    assert Reverse(left) + "" == Reverse(left);
    assert Reverse(left + "," + text) + "" == Reverse(left + "," + text);
    SecretIsThere(items, secret);
    ContainsRight(left + ",", text, secret);
    ContainsIsFound(left + "," + text, secret);
    ReverseTwice(NamedAll(r.value));
  }

  lemma LastOfAll<T>(es: seq<T>, e: T)
    ensures (es + [e])[|es|] == e && (es + [e])[..|es|] == es
  {
  }

  /** The parameters of a list of elements, the first of each behind a comma. */
  function ItemsOf(es: seq<seq<Param>>): seq<Item> {
    if |es| == 0 then [] else ItemsOf(es[..|es| - 1]) + ElementItems(es[|es| - 1])
  }

  function ElementItems(ps: seq<Param>): seq<Item> {
    seq(|ps|, i requires 0 <= i < |ps| => Item(ps[i], i == 0))
  }

  predicate NoInnerGaps(ps: seq<Param>) {
    forall i :: 0 <= i < |ps| - 1 ==> ps[i].gap == ""
  }

  /** The parser sees the elements that were written if and only if white space stands nowhere in front of
      a semicolon. */
  lemma WrittenElements(es: seq<seq<Param>>)
    requires forall i :: 0 <= i < |es| ==> |es[i]| > 0
    ensures Elements(ItemsOf(es)) == es <==> forall i :: 0 <= i < |es| ==> NoInnerGaps(es[i])
  {
    CountElements(es);
    if forall i :: 0 <= i < |es| ==> NoInnerGaps(es[i]) {
      ElementsStay(es);
    }
  }

  lemma {:induction false} ElementsStay(es: seq<seq<Param>>)
    requires forall i :: 0 <= i < |es| ==> |es[i]| > 0 && NoInnerGaps(es[i])
    ensures Elements(ItemsOf(es)) == es
  {
    if |es| > 0 {
      var init, last := es[..|es| - 1], es[|es| - 1];
      ElementsStay(init);
      AddElement(ItemsOf(init), last);
      assert init + [last] == es;
    }
  }

  /** No element is lost, and every break adds one. */
  lemma {:induction false} CountElements(es: seq<seq<Param>>)
    requires forall i :: 0 <= i < |es| ==> |es[i]| > 0
    ensures |Elements(ItemsOf(es))| >= |es|
    ensures |Elements(ItemsOf(es))| == |es| ==> forall i :: 0 <= i < |es| ==> NoInnerGaps(es[i])
  {
    if |es| > 0 {
      var init, last := es[..|es| - 1], es[|es| - 1];
      CountElements(init);
      CountElement(ItemsOf(init), last);
      assert forall i :: 0 <= i < |es| - 1 ==> es[i] == init[i];
    }
  }

  /** The last item of an element behind others, and whether it continues the element in front of it. */
  lemma LastItem(items: seq<Item>, ps: seq<Param>)
    requires |ps| > 0
    ensures var n := |ps| - 1; var item := Item(ps[n], n == 0); var before := items + ElementItems(ps[..n]);
      && items + ElementItems(ps) == before + [item]
      && (n == 0 ==> before == items)
      && (Continues(before + [item], |before|) <==> n > 0 && ps[n - 1].gap == "")
  {
    var n := |ps| - 1;
    var init := ElementItems(ps[..n]);
    assert ElementItems(ps) == init + [Item(ps[n], n == 0)];
    if n > 0 {
      assert init[n - 1] == Item(ps[n - 1], n == 1);
    }
  }

  /** One more parameter continues the last element or opens another. */
  lemma OneMoreItem(items: seq<Item>, item: Item)
    ensures var es, all := Elements(items), items + [item];
      Elements(all) ==
        if Continues(all, |items|) then es[..|es| - 1] + [es[|es| - 1] + [item.param]] else es + [[item.param]]
  {
    assert (items + [item])[..|items|] == items;
  }

  lemma {:induction false} CountElement(items: seq<Item>, ps: seq<Param>)
    requires |ps| > 0
    ensures |Elements(items + ElementItems(ps))| >= |Elements(items)| + 1
    ensures |Elements(items + ElementItems(ps))| == |Elements(items)| + 1 ==> NoInnerGaps(ps)
  {
    var n := |ps| - 1;
    LastItem(items, ps);
    OneMoreItem(items + ElementItems(ps[..n]), Item(ps[n], n == 0));
    if n > 0 {
      CountElement(items, ps[..n]);
      assert forall i :: 0 <= i < n ==> ps[i] == ps[..n][i];
    }
  }

  lemma {:induction false} AddElement(items: seq<Item>, ps: seq<Param>)
    requires |ps| > 0 && NoInnerGaps(ps)
    ensures Elements(items + ElementItems(ps)) == Elements(items) + [ps]
  {
    var n := |ps| - 1;
    LastItem(items, ps);
    OneMoreItem(items + ElementItems(ps[..n]), Item(ps[n], n == 0));
    assert ps[..n] + [ps[n]] == ps;
    if n > 0 {
      assert forall i :: 0 <= i < n ==> ps[i] == ps[..n][i];
      AddElement(items, ps[..n]);
      LastOfAll(Elements(items), ps[..n]);
    }
  }
}
