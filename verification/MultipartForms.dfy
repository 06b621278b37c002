/** The multipart/form-data parser. */
module MultipartForms {
  import opened Sequences
  import opened Octets
  import opened Texts
  import opened Grouping

  datatype File = File(kind: string, body: Bytes, name: string)

  /** What the parser makes of one part: nothing when it has no name. */
  datatype Entry = NoEntry | FieldEntry(name: string, value: string) | FileEntry(name: string, file: File)

  /** The decoders, which are not part of this model: UTF-8, with `None` for its errors, text by a charset,
      file names by RFC 2231, and Unicode NFC. */
  datatype Codecs = Codecs(utf8: Bytes -> Option<string>, text: (Bytes, string) -> Option<string>,
                           rfc2231: string -> string, nfc: string -> string)

  // ---------------------------------------------------------------- `parse_content_header`

  /** The pattern of a header parameter at the front of a text: its length, name and value. */
  function ParamAt(s: string): (r: Option<(nat, Pair<string>)>)
    ensures r.Some? ==> 0 < r.value.0 <= |s|
  {
    if s == "" || s[0] != ';' then None
    else
      var b := 1 + BlankRun(s[1..]);
      match NameAndValue(s[b..])
      case None => None
      case Some((n, p)) => Some((b + n, p))
  }

  function NameAndValue(t: string): (r: Option<(nat, Pair<string>)>)
    ensures r.Some? ==> r.value.0 <= |t|
  {
    var k := TokenRun(t);
    if k == 0 || k == |t| || t[k] != '=' then None
    else match ParamValue(t[k + 1..])
      case None => None
      case Some((n, val)) => Some((k + 1 + n, Pair(Texts.Lower(t[..k]), val)))
  }

  function ParamValue(t: string): (r: Option<(nat, string)>)
    ensures r.Some? ==> r.value.0 <= |t|
  {
    if TokenRun(t) > 0 then Some((TokenRun(t), t[..TokenRun(t)]))
    else if t != "" && t[0] == '"' && Find("\"", t, 1) >= 0 then
      Some((Find("\"", t, 1) + 1, t[1..Find("\"", t, 1)]))
    else None
  }

  /** All matches of `finditer`. */
  function FindParams(s: string): seq<Pair<string>>
    decreases |s|
  {
    if s == "" then []
    else match ParamAt(s)
      case None => FindParams(s[1..])
      case Some((n, p)) => [p] + FindParams(s[n..])
  }

  /** `text.replace(old, new)`. */
  function Replace(text: string, old_: string, new_: string): string
    requires old_ != ""
  {
    Join(Split(text, old_), new_)
  }

  function Unescape(val: string): string {
    Replace(Replace(val, "%22", "\""), "%0D%0A", "\n")
  }

  function Options(ps: seq<Pair<string>>): map<string, string> {
    if |ps| == 0 then map[]
    else Options(ps[..|ps| - 1])[ps[|ps| - 1].name := Unescape(ps[|ps| - 1].value)]
  }

  /** `parse_content_header`: the value and its parameters. */
  function ParseContentHeader(value: string): (string, map<string, string>) {
    var pos := Find(";", value, 0);
    if pos < 0 then (Texts.Lower(Texts.Strip(value)), map[])
    else (Texts.Lower(Texts.Strip(value[..pos])), Options(FindParams(value[pos..])))
  }

  // ---------------------------------------------------------------- one part

  datatype Headers = Headers(fieldName: Option<string>, fileName: Option<string>, kind: string, charset: string)

  function Get(m: map<string, string>, k: string): Option<string> {
    if k in m then Some(m[k]) else None
  }

  /** What a header field does to what is known of the part. */
  function ApplyField(st: Headers, field: string, value: string, options: map<string, string>, codecs: Codecs)
      : Headers {
    if field == "content-disposition" then
      var plain := Get(options, "filename");
      var extended := Get(options, "filename*");
      var file :=
        if plain.None? && extended.Some? && extended.value != "" then Some(codecs.rfc2231(extended.value)) else plain;
      st.(fieldName := Get(options, "name"), fileName := if file.Some? then Some(codecs.nfc(file.value)) else None)
    else if field == "content-type" then
      var charset := Get(options, "charset");
      st.(kind := value, charset := if charset.Some? then charset.value else "utf-8")
    else st
  }

  /** One header line; `None` is the error of a line without a colon. */
  function TextLine(st: Headers, line: string, codecs: Codecs): Option<Headers> {
    var colon := Find(":", line, 0);
    if colon < 0 then None
    else
      var (value, options) := ParseContentHeader(if colon + 2 <= |line| then line[colon + 2..] else "");
      Some(ApplyField(st, Texts.Lower(line[..colon]), value, options, codecs))
  }

  /** The same from its octets; `None` is also the error of octets that are not UTF-8. */
  function HeaderLine(st: Headers, raw: Bytes, codecs: Codecs): Option<Headers> {
    match codecs.utf8(raw)
    case None => None
    case Some(line) => TextLine(st, line, codecs)
  }

  function HeaderFields(lines: seq<Bytes>, codecs: Codecs): Option<Headers> {
    if |lines| == 0 then Some(INITIAL)
    else match HeaderFields(lines[..|lines| - 1], codecs)
      case None => None
      case Some(st) => HeaderLine(st, lines[|lines| - 1], codecs)
  }

  /** `s[a:-cut]`. */
  function SliceTo<T>(s: seq<T>, a: nat, cut: nat): seq<T> {
    if a + cut <= |s| then s[a..|s| - cut] else []
  }

  /** The header lines from index `i` on, and the index where the data starts. A missing CRLF makes
      the rest of the part, but for its last octet, the last line. Only an empty line decodes to no text. */
  function HeaderLines(part: Bytes, i: nat): (seq<Bytes>, nat)
    decreases |part| - i
  {
    var e := Find(CRLF, part, i);
    var line := if e < 0 then SliceTo(part, i, 1) else part[i..e];
    if line == [] then ([], if e < 0 then 1 else e + 2)
    else if e < 0 then ([line], 1)
    else
      var (lines, start) := HeaderLines(part, e + 2);
      ([line] + lines, start)
  }

  const INITIAL := Headers(None, None, "text/plain", "utf-8")

  /** One part between two boundaries. */
  function PartEntry(part: Bytes, codecs: Codecs): Option<Entry> {
    var (lines, i) := HeaderLines(part, 2);
    match HeaderFields(lines, codecs)
    case None => None
    case Some(st) => Contribution(st, SliceTo(part, i, 4), codecs)
  }

  /** What a part with these headers and this data contributes; `None` for a value its charset cannot decode. */
  function Contribution(st: Headers, data: Bytes, codecs: Codecs): Option<Entry> {
    if st.fieldName.None? || st.fieldName.value == "" then Some(NoEntry)
    else if st.fileName.Some? then Some(FileEntry(st.fieldName.value, File(st.kind, data, st.fileName.value)))
    else match codecs.text(data, st.charset)
      case None => None
      case Some(value) => Some(FieldEntry(st.fieldName.value, value))
  }

  // ---------------------------------------------------------------- the parser

  /** The entries of the parts, or `None` at the first that raises. */
  function Entries(parts: seq<Bytes>, codecs: Codecs): Option<seq<Entry>> {
    if |parts| == 0 then Some([])
    else match Entries(parts[..|parts| - 1], codecs)
      case None => None
      case Some(es) => match PartEntry(parts[|parts| - 1], codecs)
        case None => None
        case Some(e) => Some(es + [e])
  }

  function FieldsOf(es: seq<Entry>): seq<Pair<string>> {
    if |es| == 0 then []
    else
      FieldsOf(es[..|es| - 1]) +
      if es[|es| - 1].FieldEntry? then [Pair(es[|es| - 1].name, es[|es| - 1].value)] else []
  }

  function FilesOf(es: seq<Entry>): seq<Pair<File>> {
    if |es| == 0 then []
    else
      FilesOf(es[..|es| - 1]) +
      if es[|es| - 1].FileEntry? then [Pair(es[|es| - 1].name, es[|es| - 1].file)] else []
  }

  lemma {:induction false} EntriesStop(parts: seq<Bytes>, codecs: Codecs, i: nat)
    requires i <= |parts| && Entries(parts[..i], codecs).None?
    ensures Entries(parts, codecs).None?
  {
    if i == |parts| {
      assert parts[..i] == parts;
    } else {
      assert parts[..|parts| - 1][..i] == parts[..i];
      EntriesStop(parts[..|parts| - 1], codecs, i);
    }
  }

  /** The parts of a body between its first and its last boundary: `body.split(boundary)[1:-1]`. */
  function Parts(body: Bytes, boundary: Bytes): seq<Bytes>
    requires boundary != []
  {
    var all := Split(body, boundary);
    if |all| < 2 then [] else all[1..|all| - 1]
  }

  lemma {:induction false} FieldsStop(lines: seq<Bytes>, codecs: Codecs, i: nat)
    requires i <= |lines| && HeaderFields(lines[..i], codecs).None?
    ensures HeaderFields(lines, codecs).None?
  {
    if i == |lines| {
      assert lines[..i] == lines;
    } else {
      assert lines[..|lines| - 1][..i] == lines[..i];
      FieldsStop(lines[..|lines| - 1], codecs, i);
    }
  }

  /** The inner loop of `parse_multipart_form`. */
  method ParseHeaders(part: Bytes, codecs: Codecs) returns (r: Option<(Headers, nat)>)
    ensures var lines := HeaderLines(part, 2);
      var st := HeaderFields(lines.0, codecs);
      r == if st.None? then None else Some((st.value, lines.1))
  {
    var st, i, e := INITIAL, 2, 0;
    ghost var (all, start) := HeaderLines(part, 2);
    ghost var n := 0;
    while e != -1
      invariant n <= |all| && HeaderFields(all[..n], codecs) == Some(st)
      invariant if e == -1 then n == |all| && i == start == 1 else i >= 2 && HeaderLines(part, i) == (all[n..], start)
      decreases e != -1, |part| - i
    {
      var line;
      e, line := NextHeaderLine(part, i);
      i := e + 2;
      if line == [] {
        break;
      }
      NextField(all, n, line, if e == -1 then [] else HeaderLines(part, i).0, codecs);
      var st' := HeaderLine(st, line, codecs);
      if st'.None? {
        return None;
      }
      st, n := st'.value, n + 1;
    }
    assert all[..n] == all;
    r := Some((st, i));
  }

  lemma NextField(all: seq<Bytes>, n: nat, line: Bytes, more: seq<Bytes>, codecs: Codecs)
    requires n <= |all| && all[n..] == [line] + more && HeaderFields(all[..n], codecs).Some?
    ensures n < |all| && all[n + 1..] == more
    ensures var st := HeaderLine(HeaderFields(all[..n], codecs).value, line, codecs);
      HeaderFields(all[..n + 1], codecs) == st && (st.None? ==> HeaderFields(all, codecs).None?)
  {
    FirstOfRest(all, n, line, more);
    FieldsSnoc(all, n, codecs);
  }

  lemma FirstOfRest<T>(all: seq<T>, n: nat, x: T, more: seq<T>)
    requires n <= |all| && all[n..] == [x] + more
    ensures n < |all| && all[n] == x && all[n + 1..] == more
  {
    assert all[n..][0] == x;
    assert all[n..][1..] == more;
  }

  /** The next line, and the index of the CRLF behind it, or -1. */
  method NextHeaderLine(part: Bytes, i: nat) returns (e: int, line: Bytes)
    ensures e == -1 || i <= e <= |part| - 2
    ensures HeaderLines(part, i) ==
      if line == [] then ([], e + 2)
      else if e == -1 then ([line], 1)
      else ([line] + HeaderLines(part, e + 2).0, HeaderLines(part, e + 2).1)
  {
    e := Find(CRLF, part, i);
    line := if e == -1 then SliceTo(part, i, 1) else part[i..e];
  }

  lemma FieldsSnoc(all: seq<Bytes>, n: nat, codecs: Codecs)
    requires n < |all| && HeaderFields(all[..n], codecs).Some?
    ensures HeaderFields(all[..n + 1], codecs) == HeaderLine(HeaderFields(all[..n], codecs).value, all[n], codecs)
    ensures HeaderLine(HeaderFields(all[..n], codecs).value, all[n], codecs).None? ==> HeaderFields(all, codecs).None?
  {
    assert all[..n + 1][..n] == all[..n];
    if HeaderFields(all[..n + 1], codecs).None? {
      FieldsStop(all, codecs, n + 1);
    }
  }

  /** The body of the outer loop: what one part contributes. */
  method ParsePart(part: Bytes, codecs: Codecs) returns (r: Option<Entry>)
    ensures r == PartEntry(part, codecs)
  {
    var headers := ParseHeaders(part, codecs);
    if headers.None? {
      return None;
    }
    var (st, start) := headers.value;
    if st.fieldName.None? || st.fieldName.value == "" {
      return Some(NoEntry);
    }
    var data := SliceTo(part, start, 4);
    if st.fileName.None? {
      var value := codecs.text(data, st.charset);
      r := if value.None? then None else Some(FieldEntry(st.fieldName.value, value.value));
    } else {
      r := Some(FileEntry(st.fieldName.value, File(st.kind, data, st.fileName.value)));
    }
  }

  lemma EntriesSnoc(es: seq<Entry>, e: Entry)
    ensures FieldsOf(es + [e]) == if e.FieldEntry? then FieldsOf(es) + [Pair(e.name, e.value)] else FieldsOf(es)
    ensures FilesOf(es + [e]) == if e.FileEntry? then FilesOf(es) + [Pair(e.name, e.file)] else FilesOf(es)
  {
    assert (es + [e])[..|es|] == es;
  }

  lemma PartsSnoc(parts: seq<Bytes>, i: nat, codecs: Codecs)
    requires i < |parts|
    ensures Entries(parts[..i + 1], codecs) ==
      match Entries(parts[..i], codecs)
      case None => None
      case Some(es) => match PartEntry(parts[i], codecs)
        case None => None
        case Some(e) => Some(es + [e])
  {
    assert parts[..i + 1][..i] == parts[..i];
  }

  /** `parse_multipart_form`; `None` when it raises. */
  method ParseMultipartForm(body: Bytes, boundary: Bytes, codecs: Codecs)
      returns (r: Option<(map<string, seq<string>>, map<string, seq<File>>)>)
    requires boundary != []
    ensures var es := Entries(Parts(body, boundary), codecs);
      && r.Some? == es.Some?
      && (r.Some? ==> Groups(r.value.0, FieldsOf(es.value)) && Groups(r.value.1, FilesOf(es.value)))
  {
    var fields: map<string, seq<string>>, files: map<string, seq<File>> := map[], map[];
    var parts := Parts(body, boundary);
    ghost var es := [];
    for i := 0 to |parts|
      invariant Entries(parts[..i], codecs) == Some(es)
      invariant Groups(fields, FieldsOf(es)) && Groups(files, FilesOf(es))
    {
      var entry := ParsePart(parts[i], codecs);
      PartsSnoc(parts, i, codecs);
      if entry.None? {
        EntriesStop(parts, codecs, i + 1);
        return None;
      }
      EntriesSnoc(es, entry.value);
      match entry.value {
        case FieldEntry(name, value) =>
          GroupsSnoc(fields, FieldsOf(es), Pair(name, value));
          fields := Append(fields, Pair(name, value));
        case FileEntry(name, file) =>
          GroupsSnoc(files, FilesOf(es), Pair(name, file));
          files := Append(files, Pair(name, file));
        case NoEntry =>
      }
      es := es + [entry.value];
    }
    assert parts[..|parts|] == parts;
    r := Some((fields, files));
  }

  // ---------------------------------------------------------------- rendered forms

  /** A header parameter as a client writes it: white space, a name, a token or quoted value, white space. */
  datatype Param = Param(pad: string, key: string, val: string, quoted: bool, gap: string)

  predicate IsParam(p: Param) {
    && IsToken(p.key) && (if p.quoted then '"' !in p.val else IsToken(p.val))
    && AllBlank(p.pad) && AllBlank(p.gap)
    && '\r' !in p.pad && '\r' !in p.val && '\r' !in p.gap
  }

  predicate AreParams(ps: seq<Param>) {
    forall i :: 0 <= i < |ps| ==> IsParam(ps[i])
  }

  function ValueText(p: Param): string {
    if p.quoted then "\"" + p.val + "\"" else p.val
  }

  /** The parameter without the white space behind it. */
  function ParamText(p: Param): string {
    ";" + p.pad + p.key + "=" + ValueText(p)
  }

  function ParamsText(ps: seq<Param>): string {
    if |ps| == 0 then "" else ParamText(ps[0]) + (ps[0].gap + ParamsText(ps[1..]))
  }

  /** What the parameters say about `key`: the last one of that name in any case. */
  function Said(ps: seq<Param>, key: string): Option<string> {
    if |ps| == 0 then None
    else if Texts.Lower(ps[|ps| - 1].key) == key then Some(Unescape(ps[|ps| - 1].val))
    else Said(ps[..|ps| - 1], key)
  }

  /** A header line of a part (section 4.2 of RFC 7578), its name in the client's spelling. */
  datatype Header =
    | Disposition(field: string, base: string, params: seq<Param>)
    | ContentType(field: string, base: string, params: seq<Param>)
    | Other(field: string, value: string)

  predicate IsHeader(h: Header) {
    match h
    case Disposition(field, base, params) =>
      Texts.Lower(field) == "content-disposition" && ';' !in base && '\r' !in base && AreParams(params)
    case ContentType(field, base, params) =>
      Texts.Lower(field) == "content-type" && ';' !in base && '\r' !in base && AreParams(params)
    case Other(field, value) =>
      ':' !in field && '\r' !in field && '\r' !in value
      && Texts.Lower(field) != "content-disposition" && Texts.Lower(field) != "content-type"
  }

  function HeaderText(h: Header): string {
    h.field + ": " + if h.Other? then h.value else h.base + ParamsText(h.params)
  }

  /** The file name that parameters give: the extended form counts when there is no plain one. */
  function SaidFile(ps: seq<Param>, codecs: Codecs): Option<string> {
    var plain, extended := Said(ps, "filename"), Said(ps, "filename*");
    if plain.Some? then Some(codecs.nfc(plain.value))
    else if extended.Some? && extended.value != "" then Some(codecs.nfc(codecs.rfc2231(extended.value)))
    else None
  }

  /** What the headers of a part say, a later one replacing an earlier one of its kind. */
  function Described(hs: seq<Header>, codecs: Codecs): Headers {
    if |hs| == 0 then INITIAL
    else
      var st := Described(hs[..|hs| - 1], codecs);
      match hs[|hs| - 1]
      case Disposition(_, _, params) =>
        st.(fieldName := Said(params, "name"), fileName := SaidFile(params, codecs))
      case ContentType(_, base, params) =>
        st.(kind := Texts.Lower(Texts.Strip(base)),
            charset := if Said(params, "charset").Some? then Said(params, "charset").value else "utf-8")
      case Other(_, _) => st
  }

  datatype Part = Part(headers: seq<Header>, data: Bytes)

  predicate IsPart(p: Part) {
    forall i :: 0 <= i < |p.headers| ==> IsHeader(p.headers[i])
  }

  /** The client's UTF-8: decoding undoes it, only the empty text has no octets, and only a carriage return
      is written with the octet 13. */
  ghost predicate Encodes(encode: string -> Bytes, codecs: Codecs) {
    forall s :: codecs.utf8(encode(s)) == Some(s) && (s != "" ==> encode(s) != []) && ('\r' !in s ==> 13 !in encode(s))
  }

  function Lines(hs: seq<Header>, encode: string -> Bytes): seq<Bytes> {
    if |hs| == 0 then [] else Lines(hs[..|hs| - 1], encode) + [encode(HeaderText(hs[|hs| - 1]))]
  }

  /** Lines, each with a CRLF behind it. */
  function LineBytes(lines: seq<Bytes>): Bytes {
    if |lines| == 0 then [] else lines[0] + CRLF + LineBytes(lines[1..])
  }

  /** A part from behind its boundary to the dashes in front of the next one. */
  function PartBytes(p: Part, encode: string -> Bytes): Bytes {
    CRLF + (LineBytes(Lines(p.headers, encode)) + (CRLF + (p.data + (CRLF + [45, 45]))))
  }

  // ---------------------------------------------------------------- reading the lines back

  /** Octets without a carriage return, up to the CRLF behind them, are the next line. */
  lemma LineAt(part: Bytes, i: nat, b: Bytes)
    requires 13 !in b && OccursAt(b + CRLF, part, i)
    ensures Find(CRLF, part, i) == i + |b| && part[i..i + |b|] == b
  {
    var e, t := i + |b|, b + CRLF;
    forall k: nat | k < |t|
      ensures part[i + k] == t[k]
    {
      assert part[i..i + |t|][k] == part[i + k];
    }
    assert part[i + |b|] == 13 && part[i + (|b| + 1)] == 10;
    assert part[e..e + 2] == CRLF;
    forall j: nat | i <= j < e
      ensures !OccursAt(CRLF, part, j)
    {
      assert part[i + (j - i)] == b[j - i];
      assert b[j - i] in b;
      assert j + 2 <= |part| ==> part[j..j + 2][0] == part[j];
    }
    FindIs(CRLF, part, i, e);
    assert part[i..e] == part[i..i + |t|][..|b|] == t[..|b|] == b;
  }

  lemma NextLine(part: Bytes, i: nat, line: Bytes)
    requires 13 !in line && OccursAt(line + CRLF, part, i)
    ensures line != [] ==>
      HeaderLines(part, i) == ([line] + HeaderLines(part, i + |line| + 2).0, HeaderLines(part, i + |line| + 2).1)
    ensures line == [] ==> HeaderLines(part, i) == ([], i + 2)
  {
    LineAt(part, i, line);
  }

  /** Lines, the empty line behind them, and what they leave. */
  lemma {:induction false} LinesAreRead(part: Bytes, i: nat, lines: seq<Bytes>)
    requires forall k :: 0 <= k < |lines| ==> lines[k] != [] && 13 !in lines[k]
    requires OccursAt(LineBytes(lines) + CRLF, part, i)
    ensures HeaderLines(part, i) == (lines, i + |LineBytes(lines)| + 2)
    decreases |lines|
  {
    if |lines| == 0 {
      assert [] + CRLF == CRLF;
      NextLine(part, i, []);
    } else {
      var line, more := lines[0], LineBytes(lines[1..]);
      var j := i + |line| + 2;
      FirstLine(part, i, line, more);
      LinesAreRead(part, j, lines[1..]);
      OneMoreLine(part, i, line, j, lines[1..], j + |more| + 2);
      HeadAndTail(lines);
      assert |LineBytes(lines)| == |line| + 2 + |more|;
    }
  }

  lemma FirstLine(part: Bytes, i: nat, line: Bytes, more: Bytes)
    requires OccursAt(line + CRLF + more + CRLF, part, i)
    ensures OccursAt(line + CRLF, part, i) && OccursAt(more + CRLF, part, i + |line| + 2)
  {
    Associate(line + CRLF, more, CRLF);
    OccursInside(part, i, line + CRLF, more + CRLF);
  }

  lemma HeadAndTail<T>(s: seq<T>)
    requires |s| > 0
    ensures [s[0]] + s[1..] == s
  {
  }

  lemma OneMoreLine(part: Bytes, i: nat, line: Bytes, j: nat, more: seq<Bytes>, start: nat)
    requires 13 !in line && line != [] && OccursAt(line + CRLF, part, i)
    requires j == i + |line| + 2 && HeaderLines(part, j) == (more, start)
    ensures HeaderLines(part, i) == ([line] + more, start)
  {
    NextLine(part, i, line);
  }

  lemma OccursInside(part: Bytes, i: nat, a: Bytes, b: Bytes)
    requires OccursAt(a + b, part, i)
    ensures OccursAt(a, part, i) && OccursAt(b, part, i + |a|)
  {
    var all := part[i..i + |a + b|];
    assert all[..|a|] == a && all[|a|..] == b;
    assert part[i..i + |a|] == all[..|a|];
    assert part[i + |a|..i + |a| + |b|] == all[|a|..];
  }

  // ---------------------------------------------------------------- reading the parameters back

  lemma NameMatch(t: string, k: nat, n: nat, val: string)
    requires 0 < k < |t| && AllToken(t[..k]) && t[k] == '=' && ParamValue(t[k + 1..]) == Some((n, val))
    ensures NameAndValue(t) == Some((k + 1 + n, Pair(Texts.Lower(t[..k]), val)))
  {
    TokenRunAt(t, k);
  }

  lemma ParamFound(s: string, n: nat, p: Pair<string>, rest: string)
    requires ParamAt(s) == Some((n, p)) && s[n..] == rest
    ensures FindParams(s) == [p] + FindParams(rest)
  {
  }

  /** The white space in front of a name. */
  lemma PadIsRead(s: string, b: nat, n: nat, p: Pair<string>)
    requires 0 < b < |s| && s[0] == ';' && AllBlank(s[1..][..b - 1]) && !IsBlank(s[b])
    requires NameAndValue(s[b..]) == Some((n, p))
    ensures ParamAt(s) == Some((b + n, p))
  {
    assert s[1..][b - 1] == s[b];
    BlankRunAt(s[1..], b - 1);
  }

  lemma ParamHere(s: string, b: nat, key: string, n: nat, val: string, rest: string)
    requires 0 < b < |s| && s[0] == ';' && AllBlank(s[1..][..b - 1])
    requires IsToken(key) && |key| < |s[b..]| && s[b..][..|key|] == key && s[b..][|key|] == '='
    requires ParamValue(s[b..][|key| + 1..]) == Some((n, val))
    requires b + |key| + 1 + n <= |s| && s[b + |key| + 1 + n..] == rest
    ensures FindParams(s) == [Pair(Texts.Lower(key), val)] + FindParams(rest)
  {
    assert s[b] == s[b..][..|key|][0] == key[0];
    assert IsTokenChar(key[0]);
    NameMatch(s[b..], |key|, n, val);
    PadIsRead(s, b, |key| + 1 + n, Pair(Texts.Lower(key), val));
    ParamFound(s, b + |key| + 1 + n, Pair(Texts.Lower(key), val), rest);
  }

  /** White space between parameters is skipped. */
  lemma {:induction false} GapIsSkipped(gap: string, rest: string)
    requires AllBlank(gap)
    ensures FindParams(gap + rest) == FindParams(rest)
  {
    if gap == "" {
      assert gap + rest == rest;
    } else {
      assert IsBlank(gap[0]) && (gap + rest)[0] != ';';
      assert (gap + rest)[1..] == gap[1..] + rest;
      GapIsSkipped(gap[1..], rest);
    }
  }

  lemma QuotedValue(val: string, rest: string)
    requires '"' !in val
    ensures ParamValue("\"" + val + "\"" + rest) == Some((|val| + 2, val))
  {
    var s, close := "\"" + val + "\"" + rest, |val| + 1;
    forall i: nat | 1 <= i < close
      ensures !OccursAt("\"", s, i)
    {
      assert s[i] == val[i - 1];
      assert s[i] in val;
      assert s[i..i + 1] == [s[i]];
    }
    assert s[close..close + 1] == "\"";
    FindIs("\"", s, 1, close);
    assert s[1..close] == val;
  }

  /** The value of a parameter, with `tail` behind it, is matched as a whole. */
  lemma ValueIsRead(p: Param, tail: string)
    requires IsParam(p) && (tail == "" || !IsTokenChar(tail[0]))
    ensures ParamValue(ValueText(p) + tail) == Some((|ValueText(p)|, p.val))
  {
    if p.quoted {
      QuotedValue(p.val, tail);
    } else {
      var s := p.val + tail;
      assert s[..|p.val|] == p.val;
      assert tail != "" ==> s[|p.val|] == tail[0];
      TokenRunAt(s, |p.val|);
    }
  }

  /** A parameter is matched as a whole, whatever follows. */
  lemma ParamIsRead(p: Param, rest: string)
    requires IsParam(p) && (rest == "" || rest[0] == ';')
    ensures FindParams(ParamText(p) + (p.gap + rest)) == [Pair(Texts.Lower(p.key), p.val)] + FindParams(rest)
  {
    var tail := p.gap + rest;
    assert tail != "" ==> tail[0] == (if p.gap == "" then ';' else p.gap[0]);
    assert p.gap != "" ==> IsBlank(p.gap[0]);
    ParamShape(p, tail);
    ValueIsRead(p, tail);
    ParamHere(ParamText(p) + tail, 1 + |p.pad|, p.key, |ValueText(p)|, p.val, tail);
    GapIsSkipped(p.gap, rest);
  }

  lemma ParamShape(p: Param, tail: string)
    ensures var s := ParamText(p) + tail; var b := 1 + |p.pad|; var k := |p.key|;
      && |s| == b + k + 1 + |ValueText(p)| + |tail| && s[0] == ';' && s[1..][..b - 1] == p.pad
      && s[b..][..k] == p.key && s[b..][k] == '='
      && s[b..][k + 1..] == ValueText(p) + tail
      && s[b + k + 1 + |ValueText(p)|..] == tail
  {
    var s := ParamText(p) + tail;
    assert s[1 + |p.pad|..] == p.key + "=" + ValueText(p) + tail;
  }

  function Pairs(ps: seq<Param>): seq<Pair<string>> {
    if |ps| == 0 then [] else Pairs(ps[..|ps| - 1]) + [Pair(Texts.Lower(ps[|ps| - 1].key), ps[|ps| - 1].val)]
  }

  lemma {:induction false} PairsCons(p: Param, ps: seq<Param>)
    ensures Pairs([p] + ps) == [Pair(Texts.Lower(p.key), p.val)] + Pairs(ps)
  {
    var all := [p] + ps;
    if |ps| == 0 {
      assert all == [p] && all[..0] == [];
    } else {
      assert all[..|all| - 1] == [p] + ps[..|ps| - 1] && all[|all| - 1] == ps[|ps| - 1];
      PairsCons(p, ps[..|ps| - 1]);
    }
  }

  lemma {:induction false} ParamsAreRead(ps: seq<Param>)
    requires AreParams(ps)
    ensures FindParams(ParamsText(ps)) == Pairs(ps)
  {
    if |ps| > 0 {
      ParamsAreRead(ps[1..]);
      ParamIsRead(ps[0], ParamsText(ps[1..]));
      PairsCons(ps[0], ps[1..]);
      assert [ps[0]] + ps[1..] == ps;
    }
  }

  /** The options are what the parameters say. */
  lemma {:induction false} OptionsSay(ps: seq<Param>, key: string)
    ensures Get(Options(Pairs(ps)), key) == Said(ps, key)
  {
    if |ps| > 0 {
      var init := ps[..|ps| - 1];
      OptionsSay(init, key);
      assert Pairs(ps)[..|Pairs(ps)| - 1] == Pairs(init);
    }
  }

  lemma SplitValue(value: string, text: string)
    requires ';' !in value && text != "" && text[0] == ';'
    ensures Find(";", value + text, 0) == |value| && (value + text)[|value|..] == text
  {
    CutsAfterSymbol(value, ';');
    FindInPrefix(";", value + ";", text[1..], 0);
    assert value + text == value + ";" + text[1..];
  }

  lemma ValueAlone(value: string)
    requires ';' !in value
    ensures ParseContentHeader(value) == (Texts.Lower(Texts.Strip(value)), map[])
  {
    CutsAfterSymbol(value, ';');
  }

  /** A value with parameters is read as both. */
  lemma ContentHeaderIsRead(base: string, ps: seq<Param>, key: string)
    requires ';' !in base && AreParams(ps)
    ensures var (value, options) := ParseContentHeader(base + ParamsText(ps));
      value == Texts.Lower(Texts.Strip(base)) && Get(options, key) == Said(ps, key)
  {
    var text := ParamsText(ps);
    if |ps| == 0 {
      assert base + text == base;
      ValueAlone(base);
    } else {
      SplitValue(base, text);
      assert (base + text)[..|base|] == base;
      ParamsAreRead(ps);
      OptionsSay(ps, key);
    }
  }

  // ---------------------------------------------------------------- reading one part back

  lemma FieldSplit(field: string, value: string)
    requires ':' !in field
    ensures var line := field + ": " + value;
      Find(":", line, 0) == |field| && line[..|field|] == field && |field| + 2 <= |line| && line[|field| + 2..] == value
  {
    CutsAfterSymbol(field, ':');
    FindInPrefix(":", field + ":", " " + value, 0);
    assert field + ": " + value == field + ":" + (" " + value);
  }

  /** A rendered line is read field by field. */
  lemma LineIsRead(st: Headers, field: string, value: string, codecs: Codecs)
    requires ':' !in field
    ensures TextLine(st, field + ": " + value, codecs)
         == Some(ApplyField(st, Texts.Lower(field), ParseContentHeader(value).0, ParseContentHeader(value).1, codecs))
  {
    FieldSplit(field, value);
  }

  /** Small letters and hyphens. */
  predicate IsFieldName(name: string) {
    forall i :: 0 <= i < |name| ==> 'a' <= name[i] <= 'z' || name[i] == '-'
  }

  /** A spelling has the letters of the name in either case, and nothing else. */
  lemma Spelling(field: string, name: string)
    requires Texts.Lower(field) == name && IsFieldName(name)
    ensures ':' !in field && '\r' !in field
  {
    forall i | 0 <= i < |field|
      ensures field[i] != ':' && field[i] != '\r'
    {
      assert name[i] == LowerChar(field[i]);
    }
  }

  lemma ParamHasNoReturn(p: Param)
    requires IsParam(p)
    ensures '\r' !in ParamText(p)
  {
    assert forall i :: 0 <= i < |p.key| ==> IsTokenChar(p.key[i]);
  }

  lemma {:induction false} ParamsHaveNoReturn(ps: seq<Param>)
    requires AreParams(ps)
    ensures '\r' !in ParamsText(ps)
  {
    if |ps| > 0 {
      ParamsHaveNoReturn(ps[1..]);
      ParamHasNoReturn(ps[0]);
    }
  }

  lemma HeaderIsLine(h: Header)
    requires IsHeader(h)
    ensures ':' !in h.field && '\r' !in HeaderText(h) && HeaderText(h) != ""
  {
    FieldIsPlain(h);
    if !h.Other? {
      ParamsHaveNoReturn(h.params);
    }
  }

  lemma FieldIsPlain(h: Header)
    requires IsHeader(h)
    ensures ':' !in h.field && '\r' !in h.field
  {
    if !h.Other? {
      Spelling(h.field, Texts.Lower(h.field));
    }
  }

  /** One rendered header is read as what it says. */
  lemma HeaderIsRead(hs: seq<Header>, h: Header, codecs: Codecs)
    requires IsHeader(h)
    ensures TextLine(Described(hs, codecs), HeaderText(h), codecs) == Some(Described(hs + [h], codecs))
  {
    var st := Described(hs, codecs);
    assert (hs + [h])[..|hs|] == hs;
    HeaderIsLine(h);
    LineIsRead(st, h.field, if h.Other? then h.value else h.base + ParamsText(h.params), codecs);
    match h
    case Disposition(field, base, params) => DispositionIsRead(st, base, params, codecs);
    case ContentType(field, base, params) => TypeIsRead(st, base, params, codecs);
    case Other(_, _) =>
  }

  lemma DispositionIsRead(st: Headers, base: string, params: seq<Param>, codecs: Codecs)
    requires ';' !in base && AreParams(params)
    ensures var (value, options) := ParseContentHeader(base + ParamsText(params));
      ApplyField(st, "content-disposition", value, options, codecs)
      == st.(fieldName := Said(params, "name"), fileName := SaidFile(params, codecs))
  {
    ContentHeaderIsRead(base, params, "name");
    ContentHeaderIsRead(base, params, "filename");
    ContentHeaderIsRead(base, params, "filename*");
  }

  lemma TypeIsRead(st: Headers, base: string, params: seq<Param>, codecs: Codecs)
    requires ';' !in base && AreParams(params)
    ensures var (value, options) := ParseContentHeader(base + ParamsText(params));
      ApplyField(st, "content-type", value, options, codecs)
      == st.(kind := Texts.Lower(Texts.Strip(base)),
             charset := if Said(params, "charset").Some? then Said(params, "charset").value else "utf-8")
  {
    ContentHeaderIsRead(base, params, "charset");
    var (value, options) := ParseContentHeader(base + ParamsText(params));
    ApplyType(st, value, options, codecs);
  }

  lemma ApplyType(st: Headers, value: string, options: map<string, string>, codecs: Codecs)
    ensures var charset := Get(options, "charset");
      ApplyField(st, "content-type", value, options, codecs)
      == st.(kind := value, charset := if charset.Some? then charset.value else "utf-8")
  {
    assert "content-type"[8] != "content-disposition"[8];
  }

  lemma {:induction false} HeadersAreRead(hs: seq<Header>, encode: string -> Bytes, codecs: Codecs)
    requires Encodes(encode, codecs) && forall i :: 0 <= i < |hs| ==> IsHeader(hs[i])
    ensures HeaderFields(Lines(hs, encode), codecs) == Some(Described(hs, codecs))
  {
    if |hs| > 0 {
      var init, h := hs[..|hs| - 1], hs[|hs| - 1];
      HeadersAreRead(init, encode, codecs);
      HeaderIsRead(init, h, codecs);
      assert init + [h] == hs;
      HeaderIsLine(h);
      LineIsLine(HeaderText(h), encode, codecs);
      AddLine(Lines(init, encode), encode(HeaderText(h)), HeaderText(h), codecs);
    }
  }

  lemma {:induction false} LinesAreLines(hs: seq<Header>, encode: string -> Bytes, codecs: Codecs)
    requires Encodes(encode, codecs) && forall i :: 0 <= i < |hs| ==> IsHeader(hs[i])
    ensures forall k :: 0 <= k < |Lines(hs, encode)| ==> Lines(hs, encode)[k] != [] && 13 !in Lines(hs, encode)[k]
  {
    if |hs| > 0 {
      var h := hs[|hs| - 1];
      LinesAreLines(hs[..|hs| - 1], encode, codecs);
      HeaderIsLine(h);
      LineIsLine(HeaderText(h), encode, codecs);
    }
  }

  lemma LineIsLine(text: string, encode: string -> Bytes, codecs: Codecs)
    requires Encodes(encode, codecs) && text != "" && '\r' !in text
    ensures encode(text) != [] && 13 !in encode(text) && codecs.utf8(encode(text)) == Some(text)
  {
  }

  lemma AddLine(lines: seq<Bytes>, raw: Bytes, text: string, codecs: Codecs)
    requires HeaderFields(lines, codecs).Some? && codecs.utf8(raw) == Some(text)
    ensures HeaderFields(lines + [raw], codecs) == TextLine(HeaderFields(lines, codecs).value, text, codecs)
  {
    assert (lines + [raw])[..|lines|] == lines;
  }

  /** What the parser should make of a part: nothing without a name, else a file or a decoded field. `None`
      is the error of a value that its charset cannot decode. */
  function PartMeaning(p: Part, codecs: Codecs): Option<Entry> {
    var said := Described(p.headers, codecs);
    if said.fieldName.None? || said.fieldName == Some("") then Some(NoEntry)
    else
      var name := said.fieldName.value;
      if said.fileName.Some? then Some(FileEntry(name, File(said.kind, p.data, said.fileName.value)))
      else
        var value := codecs.text(p.data, said.charset);
        if value.None? then None else Some(FieldEntry(name, value.value))
  }

  /** Every part is read back as what it means, byte for byte. */
  lemma PartRoundTrip(p: Part, encode: string -> Bytes, codecs: Codecs)
    requires IsPart(p) && Encodes(encode, codecs)
    ensures PartEntry(PartBytes(p, encode), codecs) == PartMeaning(p, codecs)
  {
    var lines := Lines(p.headers, encode);
    HeadersAreRead(p.headers, encode, codecs);
    LinesAreLines(p.headers, encode, codecs);
    PartIs(PartBytes(p, encode), lines, Described(p.headers, codecs), p.data, codecs);
    MeaningIs(p, codecs);
  }

  lemma MeaningIs(p: Part, codecs: Codecs)
    ensures PartMeaning(p, codecs) == Contribution(Described(p.headers, codecs), p.data, codecs)
  {
  }

  lemma PartIs(part: Bytes, lines: seq<Bytes>, st: Headers, data: Bytes, codecs: Codecs)
    requires part == CRLF + (LineBytes(lines) + (CRLF + (data + (CRLF + [45, 45]))))
    requires forall k :: 0 <= k < |lines| ==> lines[k] != [] && 13 !in lines[k]
    requires HeaderFields(lines, codecs) == Some(st)
    ensures PartEntry(part, codecs) == Contribution(st, data, codecs)
  {
    Shape(LineBytes(lines), data);
    LinesAreRead(part, 2, lines);
    EntryIs(part, lines, |LineBytes(lines)| + 4, st, data, codecs);
  }

  lemma EntryIs(part: Bytes, lines: seq<Bytes>, start: nat, st: Headers, data: Bytes, codecs: Codecs)
    requires HeaderLines(part, 2) == (lines, start) && HeaderFields(lines, codecs) == Some(st)
    requires SliceTo(part, start, 4) == data
    ensures PartEntry(part, codecs) == Contribution(st, data, codecs)
  {
  }

  /** Where the lines and the data of a part are. */
  lemma Shape(lines: Bytes, data: Bytes)
    ensures var part := CRLF + (lines + (CRLF + (data + (CRLF + [45, 45]))));
      OccursAt(lines + CRLF, part, 2) && SliceTo(part, |lines| + 4, 4) == data
  {
  }

  // ---------------------------------------------------------------- names with quotes and line ends

  /** A name in a quoted parameter: quotes and line feeds are written as escapes. */
  function EscapeName(s: string): string {
    if s == "" then ""
    else (if s[0] == '"' then "%22" else if s[0] == '\n' then "%0D%0A" else [s[0]]) + EscapeName(s[1..])
  }

  /** The same with the quotes left alone. */
  function EscapeLines(s: string): string {
    if s == "" then "" else (if s[0] == '\n' then "%0D%0A" else [s[0]]) + EscapeLines(s[1..])
  }

  lemma ReplaceHit(pat: string, rest: string, sub: string)
    requires pat != ""
    ensures Replace(pat + rest, pat, sub) == sub + Replace(rest, pat, sub)
  {
    var s := pat + rest;
    assert s[..|pat|] == pat && s[|pat|..] == rest;
    assert OccursAt(pat, s, 0);
    assert s[..0] == "";
    var parts := Split(rest, pat);
    assert Split(s, pat) == [""] + parts;
    assert ([""] + parts)[1..] == parts;
    NothingInFront(sub + Join(parts, sub));
  }

  lemma NothingInFront(s: string)
    ensures "" + s == s
  {
  }

  /** A character at which the pattern does not occur stays. */
  lemma ReplaceMiss(c: char, rest: string, pat: string, sub: string)
    requires pat != "" && !OccursAt(pat, [c] + rest, 0)
    ensures Replace([c] + rest, pat, sub) == [c] + Replace(rest, pat, sub)
  {
    var parts := Split(rest, pat);
    SplitMiss(c, rest, pat);
    assert [parts[0]] + parts[1..] == parts;
    JoinFirst([c], parts[0], parts[1..], sub);
  }

  lemma SplitMiss(c: char, rest: string, pat: string)
    requires pat != "" && !OccursAt(pat, [c] + rest, 0)
    ensures Split([c] + rest, pat) == [[c] + Split(rest, pat)[0]] + Split(rest, pat)[1..]
  {
    var s, p := [c] + rest, Find(pat, rest, 0);
    FindAfter(pat, [c], rest, 0);
    assert Find(pat, s, 0) == Find(pat, s, 1);
    if p < 0 {
      assert Split(rest, pat) == [rest];
    } else {
      SplitAt(rest, pat, p, rest[..p], rest[p + |pat|..]);
      SplitAt(s, pat, p + 1, [c] + rest[..p], rest[p + |pat|..]);
    }
  }

  lemma SplitAt(s: string, pat: string, p: nat, first: string, more: string)
    requires pat != "" && Find(pat, s, 0) == p && s[..p] == first && s[p + |pat|..] == more
    ensures Split(s, pat) == [first] + Split(more, pat)
    ensures Split(s, pat)[0] == first && Split(s, pat)[1..] == Split(more, pat)
  {
    assert ([first] + Split(more, pat))[1..] == Split(more, pat);
  }

  lemma JoinFirst(a: string, b: string, more: seq<string>, sub: string)
    ensures Join([a + b] + more, sub) == a + Join([b] + more, sub)
  {
    if |more| > 0 {
      assert ([a + b] + more)[1..] == more && ([b] + more)[1..] == more;
      Associate(a, b, sub + Join(more, sub));
      Associate(a + b, sub, Join(more, sub));
      Associate(b, sub, Join(more, sub));
    }
  }

  /** Text in which the pattern does not start stays. */
  lemma {:induction false} ReplaceMisses(w: string, rest: string, pat: string, sub: string)
    requires pat != "" && forall i :: 0 <= i < |w| ==> !OccursAt(pat, w[i..] + rest, 0)
    ensures Replace(w + rest, pat, sub) == w + Replace(rest, pat, sub)
  {
    if w == "" {
      assert w + rest == rest;
    } else {
      assert w[0..] == w && w + rest == [w[0]] + (w[1..] + rest);
      ReplaceMiss(w[0], w[1..] + rest, pat, sub);
      forall i | 0 <= i < |w| - 1
        ensures !OccursAt(pat, w[1..][i..] + rest, 0)
      {
        assert w[1..][i..] == w[i + 1..];
      }
      ReplaceMisses(w[1..], rest, pat, sub);
      Associate([w[0]], w[1..], Replace(rest, pat, sub));
    }
  }

  lemma LineEscapeHasNoQuote(rest: string)
    ensures Replace("%0D%0A" + rest, "%22", "\"") == "%0D%0A" + Replace(rest, "%22", "\"")
  {
    var w := "%0D%0A";
    forall i | 0 <= i < |w|
      ensures !OccursAt("%22", w[i..] + rest, 0)
    {
      var t := w[i..] + rest;
      assert t[0] == w[i] && (i < 5 ==> t[1] == w[i + 1]);
      assert |t| >= 3 ==> t[0..3][0] == t[0] && t[0..3][1] == t[1];
    }
    ReplaceMisses(w, rest, "%22", "\"");
  }

  lemma NotAt(pat: string, s: string)
    requires pat != "" && (s == "" || s[0] != pat[0])
    ensures !OccursAt(pat, s, 0)
  {
    assert |s| >= |pat| ==> s[0..|pat|][0] == s[0];
  }

  lemma {:induction false} QuotesComeBack(s: string)
    requires '%' !in s
    ensures Replace(EscapeName(s), "%22", "\"") == EscapeLines(s)
  {
    if s == "" {
      NotAt("%22", "");
    } else {
      QuotesComeBack(s[1..]);
      var rest := EscapeName(s[1..]);
      if s[0] == '"' {
        ReplaceHit("%22", rest, "\"");
      } else if s[0] == '\n' {
        LineEscapeHasNoQuote(rest);
      } else {
        NotAt("%22", [s[0]] + rest);
        ReplaceMiss(s[0], rest, "%22", "\"");
      }
    }
  }

  lemma {:induction false} LinesComeBack(s: string)
    requires '%' !in s
    ensures Replace(EscapeLines(s), "%0D%0A", "\n") == s
  {
    if s != "" {
      LinesComeBack(s[1..]);
      var rest := EscapeLines(s[1..]);
      assert [s[0]] + s[1..] == s;
      if s[0] == '\n' {
        ReplaceHit("%0D%0A", rest, "\n");
      } else {
        NotAt("%0D%0A", [s[0]] + rest);
        ReplaceMiss(s[0], rest, "%0D%0A", "\n");
      }
    }
  }

  lemma {:induction false} EscapeIsQuotable(s: string)
    requires '\r' !in s
    ensures '"' !in EscapeName(s) && '\r' !in EscapeName(s)
  {
    if s != "" {
      EscapeIsQuotable(s[1..]);
    }
  }

  /** A name that a client writes with escapes is what the parser reads, for every name without percent
      signs and carriage returns; and it fits between quotes. */
  lemma EscapedNameIsRead(s: string)
    requires '%' !in s && '\r' !in s
    ensures Unescape(EscapeName(s)) == s
    ensures '"' !in EscapeName(s) && '\r' !in EscapeName(s)
  {
    QuotesComeBack(s);
    LinesComeBack(s);
    EscapeIsQuotable(s);
  }

  /** The quoted parameter with which a client gives a name. */
  function Given(key: string, name: string): Param {
    Param(" ", key, EscapeName(name), true, "")
  }

  /** A browser's disposition, the two names in either order: the parser reads exactly them. */
  lemma ClientNamesAreRead(name: string, fileName: string, codecs: Codecs)
    requires '%' !in name && '\r' !in name && '%' !in fileName && '\r' !in fileName
    ensures var n, f := Given("name", name), Given("filename", fileName);
      && IsParam(n) && IsParam(f)
      && Said([n], "name") == Some(name) && SaidFile([n], codecs) == None
      && Said([n] + [f], "name") == Some(name) && SaidFile([n] + [f], codecs) == Some(codecs.nfc(fileName))
      && Said([f] + [n], "name") == Some(name) && SaidFile([f] + [n], codecs) == Some(codecs.nfc(fileName))
  {
    EscapedNameIsRead(name);
    EscapedNameIsRead(fileName);
    var n, f := Given("name", name), Given("filename", fileName);
    KeysDiffer();
    OneSays(n, "name");
    OneSays(n, "filename");
    OneSays(n, "filename*");
    TwoSay(n, f, "name");
    TwoSay(n, f, "filename");
    TwoSay(f, n, "name");
    TwoSay(f, n, "filename");
  }

  lemma KeysDiffer()
    ensures Texts.Lower("name") == "name" && Texts.Lower("filename") == "filename"
    ensures IsToken("name") && IsToken("filename")
    ensures "name" != "filename" && "name" != "filename*" && "filename" != "filename*"
  {
    assert "name"[0] != "filename"[0] && "name"[0] != "filename*"[0] && |"filename"| != |"filename*"|;
  }

  lemma OneSays(p: Param, key: string)
    ensures Said([p], key) == if Texts.Lower(p.key) == key then Some(Unescape(p.val)) else None
  {
    assert [p][..0] == [];
  }

  lemma TwoSay(p: Param, q: Param, key: string)
    ensures Said([p] + [q], key) ==
      if Texts.Lower(q.key) == key then Some(Unescape(q.val))
      else if Texts.Lower(p.key) == key then Some(Unescape(p.val)) else None
  {
    OneSays(p, key);
    assert ([p] + [q])[..1] == [p];
  }

  // ---------------------------------------------------------------- reading a whole form back

  /** The text between boundaries: what is in front of the first, the parts, and what is behind the last. */
  function Segments(preamble: Bytes, parts: seq<Part>, epilogue: Bytes, encode: string -> Bytes): seq<Bytes> {
    [preamble + [45, 45]] + PartSegments(parts, encode) + [[45, 45] + epilogue]
  }

  function PartSegments(parts: seq<Part>, encode: string -> Bytes): seq<Bytes> {
    seq(|parts|, i requires 0 <= i < |parts| => PartBytes(parts[i], encode))
  }

  function FormBytes(preamble: Bytes, parts: seq<Part>, epilogue: Bytes, boundary: Bytes, encode: string -> Bytes)
      : Bytes {
    Join(Segments(preamble, parts, epilogue, encode), boundary)
  }

  /** The boundary occurs in the form only as a delimiter. */
  ghost predicate OnlyDelimits(boundary: Bytes, preamble: Bytes, parts: seq<Part>, epilogue: Bytes,
                               encode: string -> Bytes) {
    && boundary != []
    && CutsAfter(preamble + [45, 45], boundary)
    && (forall i :: 0 <= i < |parts| ==> CutsAfter(PartBytes(parts[i], encode), boundary))
    && Find(boundary, [45, 45] + epilogue, 0) == -1
  }

  /** What the parts mean, or `None` if one of them cannot be decoded. */
  function Meanings(parts: seq<Part>, codecs: Codecs): Option<seq<Entry>> {
    if |parts| == 0 then Some([])
    else
      var before, last := Meanings(parts[..|parts| - 1], codecs), PartMeaning(parts[|parts| - 1], codecs);
      if before.None? || last.None? then None else Some(before.value + [last.value])
  }

  lemma {:induction false} EntriesRead(parts: seq<Part>, encode: string -> Bytes, codecs: Codecs)
    requires Encodes(encode, codecs) && forall i :: 0 <= i < |parts| ==> IsPart(parts[i])
    ensures Entries(PartSegments(parts, encode), codecs) == Meanings(parts, codecs)
  {
    if |parts| > 0 {
      var n := |parts| - 1;
      var segs := PartSegments(parts, encode);
      EntriesRead(parts[..n], encode, codecs);
      assert segs[..n] == PartSegments(parts[..n], encode);
      PartRoundTrip(parts[n], encode, codecs);
      PartsSnoc(segs, n, codecs);
      assert segs[..n + 1] == segs;
    }
  }

  /** The multipart round trip: for every list of parts whose boundary occurs only at delimiters, the
      parser finds exactly these parts, in order, every body byte for byte, and raises exactly when one
      cannot be decoded. */
  lemma FormRoundTrip(preamble: Bytes, parts: seq<Part>, epilogue: Bytes, boundary: Bytes,
                      encode: string -> Bytes, codecs: Codecs)
    requires OnlyDelimits(boundary, preamble, parts, epilogue, encode) && Encodes(encode, codecs)
    requires forall i :: 0 <= i < |parts| ==> IsPart(parts[i])
    ensures Entries(Parts(FormBytes(preamble, parts, epilogue, boundary, encode), boundary), codecs)
         == Meanings(parts, codecs)
  {
    var segs := Segments(preamble, parts, epilogue, encode);
    assert forall i :: 0 <= i < |segs| - 1 ==> CutsAfter(segs[i], boundary);
    SplitJoin(segs, boundary);
    assert segs[1..|segs| - 1] == PartSegments(parts, encode);
    EntriesRead(parts, encode, codecs);
  }
}
