/** Cookie values on their way out and back in: the quoting of Set-Cookie and the parser of the Cookie
    request header. */
module CookieQuoting {
  import opened Sequences
  import opened Texts
  import opened Grouping

  // ---------------------------------------------------------------- the writer

  /** The characters a cookie name, or an unquoted value, may hold. */
  predicate IsLegalChar(c: char) {
    || 'a' <= c <= 'z' || 'A' <= c <= 'Z' || '0' <= c <= '9'
    || c == '!' || '#' <= c <= '\'' || c == '*' || c == '+' || c == '-' || c == '.'
    || '^' <= c <= '`' || c == '|' || c == '~' || c == ':'
  }

  /** `_is_legal_key`: one legal character or more. */
  predicate IsLegalKey(s: string) {
    s != "" && forall i :: 0 <= i < |s| ==> IsLegalChar(s[i])
  }

  predicate MustEscape(c: char) {
    c < ' ' || c == '"' || c == ';' || c == '\\' || c as int == 127
  }

  function OctalDigit(n: nat): (c: char)
    requires n < 8
    ensures '0' <= c <= '7'
  {
    "01234567"[n]
  }

  /** A backslash and three octal digits where needed, else the character itself. */
  function EscapeChar(c: char): string {
    if MustEscape(c) then
      var n := c as int;
      ['\\', OctalDigit(n / 64), OctalDigit(n / 8 % 8), OctalDigit(n % 8)]
    else [c]
  }

  function Escape(s: string): string {
    if s == "" then "" else EscapeChar(s[0]) + Escape(s[1..])
  }

  /** `_quote`. */
  function Quote(s: string): string {
    if IsLegalKey(s) then s else "\"" + Escape(s) + "\""
  }

  // ---------------------------------------------------------------- the single left-to-right decoder

  predicate IsOctal(c: char, max: char) {
    '0' <= c <= max
  }

  /** The pattern for an octal escape matches at `i`. */
  predicate OctalAt(s: string, i: nat) {
    i + 4 <= |s| && s[i] == '\\' && IsOctal(s[i + 1], '3') && IsOctal(s[i + 2], '7') && IsOctal(s[i + 3], '7')
  }

  /** The pattern for a quoted character matches at `i`; its dot does not match a newline. */
  predicate PairAt(s: string, i: nat) {
    i + 2 <= |s| && s[i] == '\\' && s[i + 1] != '\n'
  }

  function OctalValue(s: string, i: nat): char
    requires OctalAt(s, i)
  {
    ((s[i + 1] as int - '0' as int) * 64 + (s[i + 2] as int - '0' as int) * 8
     + (s[i + 3] as int - '0' as int)) as char
  }

  /** What a quoted string means, read once from left to right: an octal escape, else a backslash
      before any character but a newline, else the character itself. */
  function Decode(s: string): string {
    if s == "" then ""
    else if OctalAt(s, 0) then [OctalValue(s, 0)] + Decode(s[4..])
    else if PairAt(s, 0) then [s[1]] + Decode(s[2..])
    else [s[0]] + Decode(s[1..])
  }

  function Unquoted(s: string): string {
    if |s| < 2 || s[0] != '"' || s[|s| - 1] != '"' then s else Decode(s[1..|s| - 1])
  }

  // ---------------------------------------------------------------- `_unquote`

  /** The first octal escape at or after `i`. */
  function SearchOctal(s: string, i: nat): (r: Option<nat>)
    ensures r.Some? ==> i <= r.value && OctalAt(s, r.value)
    ensures forall k: nat :: i <= k && (r.None? || k < r.value) ==> !OctalAt(s, k)
    decreases |s| - i
  {
    if i >= |s| then None else if OctalAt(s, i) then Some(i) else SearchOctal(s, i + 1)
  }

  /** The first quoted character at or after `i`. */
  function SearchPair(s: string, i: nat): (r: Option<nat>)
    ensures r.Some? ==> i <= r.value && PairAt(s, r.value)
    ensures forall k: nat :: i <= k && (r.None? || k < r.value) ==> !PairAt(s, k)
    decreases |s| - i
  {
    if i >= |s| then None else if PairAt(s, i) then Some(i) else SearchPair(s, i + 1)
  }

  /** Every octal escape is also a quoted pair, so the octal search never wins the race. */
  lemma PairComesFirst(s: string, i: nat)
    ensures SearchOctal(s, i).Some? ==>
      SearchPair(s, i).Some? && SearchPair(s, i).value <= SearchOctal(s, i).value
  {
    if SearchOctal(s, i).Some? {
      assert PairAt(s, SearchOctal(s, i).value);
    }
  }

  lemma DecodeLiteral(s: string, i: nat)
    requires i < |s| && !PairAt(s, i)
    ensures Decode(s[i..]) == [s[i]] + Decode(s[i + 1..])
  {
    var t := s[i..];
    assert !PairAt(t, 0) && !OctalAt(t, 0);
    assert t[1..] == s[i + 1..];
  }

  lemma ConsSlice(s: string, i: nat, k: nat, rest: string)
    requires i < k <= |s|
    ensures [s[i]] + (s[i + 1..k] + rest) == s[i..k] + rest
  {
  }

  /** Nothing matches before the pair search's result: these characters stand for themselves. */
  lemma {:induction false} DecodeLiterals(s: string, i: nat, k: nat)
    requires i <= k <= |s|
    requires forall m: nat :: i <= m < k ==> !PairAt(s, m)
    ensures Decode(s[i..]) == s[i..k] + Decode(s[k..])
    decreases k - i
  {
    if i < k {
      assert !PairAt(s, i);
      DecodeLiteral(s, i);
      DecodeLiterals(s, i + 1, k);
      ConsSlice(s, i, k, Decode(s[k..]));
    }
  }

  /** Without a match the rest is literal. */
  lemma NoEscape(s: string, i: nat)
    requires i <= |s| && SearchPair(s, i).None?
    ensures Decode(s[i..]) == s[i..]
  {
    DecodeLiterals(s, i, |s|);
    assert s[i..|s|] == s[i..];
  }

  /** When the pair search wins, its match is not an octal escape. */
  lemma PairStep(s: string, i: nat, k: nat)
    requires i <= |s| && SearchPair(s, i) == Some(k)
    requires SearchOctal(s, i).None? || k < SearchOctal(s, i).value
    ensures Decode(s[i..]) == s[i..k] + [s[k + 1]] + Decode(s[k + 2..])
  {
    DecodeLiterals(s, i, k);
    var t := s[k..];
    assert !OctalAt(s, k);
    assert !OctalAt(t, 0) && PairAt(t, 0) && t[2..] == s[k + 2..];
    assert Decode(t) == [s[k + 1]] + Decode(s[k + 2..]);
  }

  lemma OctalStep(s: string, i: nat, j: nat)
    requires i <= |s| && SearchOctal(s, i) == Some(j) && SearchPair(s, i) == Some(j)
    ensures Decode(s[i..]) == s[i..j] + [OctalValue(s, j)] + Decode(s[j + 4..])
  {
    DecodeLiterals(s, i, j);
    var t := s[j..];
    assert OctalAt(t, 0) && OctalValue(t, 0) == OctalValue(s, j) && t[4..] == s[j + 4..];
    assert Decode(t) == [OctalValue(s, j)] + Decode(s[j + 4..]);
  }

  lemma FlatTwo(res: seq<string>, a: string, b: string, rest: string)
    ensures Flat(res + [a] + [b]) + rest == Flat(res) + (a + b + rest)
  {
    FlatSnoc(res, a);
    FlatSnoc(res + [a], b);
    assert Flat(res) + a + b + rest == Flat(res) + (a + b + rest);
  }

  /** `_unquote`: two searches race for the next escape. It equals the single left-to-right decoder on
      every string. */
  method Unquote(str: string) returns (r: string)
    ensures r == Unquoted(str)
  {
    if |str| < 2 {
      return str;
    }
    if str[0] != '"' || str[|str| - 1] != '"' {
      return str;
    }
    var s := str[1..|str| - 1];
    var i, n := 0, |s|;
    var res: seq<string> := [];
    assert s[0..] == s;
    while 0 <= i < n
      invariant 0 <= i <= n && Flat(res) + Decode(s[i..]) == Decode(s)
      decreases n - i
    {
      var o, q := SearchOctal(s, i), SearchPair(s, i);
      PairComesFirst(s, i);
      if o.None? && q.None? {
        NoEscape(s, i);
        FlatSnoc(res, s[i..]);
        return Flat(res + [s[i..]]);
      }
      if q.Some? && (o.None? || q.value < o.value) {
        var k := q.value;
        PairStep(s, i, k);
        FlatTwo(res, s[i..k], [s[k + 1]], Decode(s[k + 2..]));
        res := res + [s[i..k]] + [[s[k + 1]]];
        i := k + 2;
      } else {
        var j := o.value;
        OctalStep(s, i, j);
        FlatTwo(res, s[i..j], [OctalValue(s, j)], Decode(s[j + 4..]));
        res := res + [s[i..j]] + [[OctalValue(s, j)]];
        i := j + 4;
      }
    }
    assert Decode(s[n..]) == "";
    r := Flat(res);
  }

  // ---------------------------------------------------------------- `parse_cookie`

  /** The characters that make the parser skip a cookie. */
  predicate IsReservedChar(c: char) {
    || c <= ' ' || 0x7f <= c as int <= 0xff
    || c == '(' || c == ')' || c == '<' || c == '>' || c == '@' || c == ',' || c == ';' || c == ':'
    || c == '\\' || c == '"' || c == '/' || c == '[' || c == ']' || c == '?' || c == '=' || c == '{' || c == '}'
  }

  predicate HasReserved(name: string) {
    exists i :: 0 <= i < |name| && IsReservedChar(name[i])
  }

  type Cookie = Pair<string>

  /** The value that is stored for a value read. */
  function Stored(value: string): string {
    if |value| > 2 && value[0] == '"' && value[|value| - 1] == '"' then Unquoted(value) else value
  }

  /** One token between semicolons, or nothing when it is skipped. */
  function ParseToken(token: string): Option<Cookie> {
    var eq := Find("=", token, 0);
    if eq < 0 then
      var text := Strip(token);
      if text == "" then None else Some(Pair("", Stored(text)))
    else
      var name, value := Strip(token[..eq]), Strip(token[eq + 1..]);
      if HasReserved(name) then None else Some(Pair(name, Stored(value)))
  }

  function Accepted(tokens: seq<string>): seq<Cookie> {
    if |tokens| == 0 then []
    else
      Accepted(tokens[..|tokens| - 1]) +
      match ParseToken(tokens[|tokens| - 1])
      case Some(p) => [p]
      case None => []
  }

  /** The pairs of a raw Cookie header, in order. */
  function CookiePairs(raw: string): seq<Cookie> {
    Accepted(Split(raw, ";"))
  }

  /** `parse_cookie`. */
  method ParseCookie(raw: string) returns (cookies: map<string, seq<string>>)
    ensures Groups(cookies, CookiePairs(raw))
  {
    cookies := map[];
    var tokens := Split(raw, ";");
    for i := 0 to |tokens|
      invariant Groups(cookies, Accepted(tokens[..i]))
    {
      assert tokens[..i + 1][..i] == tokens[..i];
      ghost var pairs := Accepted(tokens[..i]);
      assert pairs + [] == pairs;
      var cookie := ReadToken(tokens[i]);
      if cookie.None? {
        continue;
      }
      GroupsSnoc(cookies, pairs, cookie.value);
      cookies := Append(cookies, cookie.value);
    }
    assert tokens[..|tokens|] == tokens;
  }

  /** The body of the loop, up to the pair that is stored; `None` is `continue`. */
  method ReadToken(token: string) returns (r: Option<Cookie>)
    ensures r == ParseToken(token)
  {
    var eq := Find("=", token, 0);
    var name, value := "", Strip(token);
    if eq < 0 {
      if value == "" {
        return None;
      }
    } else {
      name, value := Strip(token[..eq]), Strip(token[eq + 1..]);
    }
    if HasReserved(name) {
      return None;
    }
    if |value| > 2 && value[0] == '"' && value[|value| - 1] == '"' {
      value := Unquote(value);
    }
    r := Some(Pair(name, value));
  }

  // ---------------------------------------------------------------- the round trip

  function Token(p: Cookie): string {
    p.name + "=" + Quote(p.value)
  }

  function Tokens(pairs: seq<Cookie>): seq<string> {
    if |pairs| == 0 then [] else [Token(pairs[0])] + Tokens(pairs[1..])
  }

  /** The Cookie header of a client that returns what Set-Cookie gave it. */
  function CookieHeader(pairs: seq<Cookie>): string {
    Join(Tokens(pairs), "; ")
  }

  /** What becomes of a pair: a name with a colon, legal for the writer, is skipped by the reader, and
      an empty value comes back as the two quotes it was written with. */
  function Survives(p: Cookie): seq<Cookie> {
    if ':' in p.name then [] else [Pair(p.name, if p.value == "" then "\"\"" else p.value)]
  }

  function Survivors(pairs: seq<Cookie>): seq<Cookie> {
    if |pairs| == 0 then [] else Survives(pairs[0]) + Survivors(pairs[1..])
  }

  lemma EscapeCharDecodes(c: char, rest: string)
    ensures Decode(EscapeChar(c) + rest) == [c] + Decode(rest)
  {
    var s := EscapeChar(c) + rest;
    if MustEscape(c) {
      assert s[4..] == rest;
      assert OctalAt(s, 0) && OctalValue(s, 0) == c;
    } else {
      assert s[1..] == rest;
      assert !OctalAt(s, 0) && !PairAt(s, 0);
    }
  }

  lemma {:induction false} DecodeEscape(s: string)
    ensures Decode(Escape(s)) == s
  {
    if s != "" {
      EscapeCharDecodes(s[0], Escape(s[1..]));
      DecodeEscape(s[1..]);
    }
  }

  /** Quoting is undone by unquoting, for every string of any characters, except the empty one. */
  lemma QuoteRoundTrip(s: string)
    ensures Stored(Quote(s)) == if s == "" then "\"\"" else s
  {
    if !IsLegalKey(s) {
      var q := Quote(s);
      assert q[1..|q| - 1] == Escape(s);
      DecodeEscape(s);
    } else {
      assert IsLegalChar(s[0]);
    }
  }

  lemma {:induction false} EscapeHides(s: string)
    ensures ';' !in Escape(s)
  {
    if s != "" {
      EscapeHides(s[1..]);
      assert ';' !in EscapeChar(s[0]);
    }
  }

  lemma QuoteShape(s: string)
    ensures var q := Quote(s);
      q != "" && !IsSpace(q[0]) && !IsSpace(q[|q| - 1]) && ';' !in q
  {
    if IsLegalKey(s) {
      assert forall i :: 0 <= i < |s| ==> IsLegalChar(s[i]);
    } else {
      EscapeHides(s);
    }
  }

  lemma LegalNames(name: string)
    requires IsLegalKey(name)
    ensures '=' !in name && ';' !in name
    ensures !IsSpace(name[0]) && !IsSpace(name[|name| - 1])
    ensures HasReserved(name) <==> ':' in name
  {
    forall i | 0 <= i < |name|
      ensures name[i] != '=' && name[i] != ';' && !IsSpace(name[i]) && (IsReservedChar(name[i]) <==> name[i] == ':')
    {
      assert IsLegalChar(name[i]);
    }
  }

  /** A token, with or without the space after the previous semicolon. */
  lemma TokenRoundTrip(pre: string, p: Cookie)
    requires pre == "" || pre == " "
    requires IsLegalKey(p.name)
    ensures ParseToken(pre + Token(p)) == if ':' in p.name then None else Some(Survives(p)[0])
    ensures ';' !in pre + Token(p)
  {
    LegalNames(p.name);
    QuoteShape(p.value);
    QuoteRoundTrip(p.value);
    StripNothing(p.name);
    assert pre == "" ==> pre + p.name == p.name;
    assert pre + Token(p) == (pre + p.name) + "=" + Quote(p.value);
    ParsePair(pre + p.name, Quote(p.value));
  }

  lemma ParsePair(head: string, q: string)
    requires '=' !in head
    requires q != "" && !IsSpace(q[0]) && !IsSpace(q[|q| - 1])
    ensures ParseToken(head + "=" + q)
         == if HasReserved(Strip(head)) then None else Some(Pair(Strip(head), Stored(q)))
  {
    CutToken(head, q);
    StripNothing(q);
  }

  lemma CutToken(head: string, q: string)
    requires '=' !in head
    ensures var token := head + "=" + q;
      Find("=", token, 0) == |head| && token[..|head|] == head && token[|head| + 1..] == q
  {
    CutsAfterSymbol(head, '=');
    FindInPrefix("=", head + "=", q, 0);
  }

  lemma {:induction false} AcceptedCons(t: string, rest: seq<string>)
    ensures Accepted([t] + rest) == (match ParseToken(t) case Some(p) => [p] case None => []) + Accepted(rest)
  {
    if |rest| == 0 {
      assert [t] + rest == [t];
      assert [t][..0] == [];
    } else {
      var all := [t] + rest;
      assert all[..|all| - 1] == [t] + rest[..|rest| - 1];
      AcceptedCons(t, rest[..|rest| - 1]);
    }
  }

  lemma {:induction false} HeaderRoundTrip(pre: string, pairs: seq<Cookie>)
    decreases |pairs|
    requires pre == "" || pre == " "
    requires forall i :: 0 <= i < |pairs| ==> IsLegalKey(pairs[i].name)
    ensures CookiePairs(pre + CookieHeader(pairs)) == Survivors(pairs)
  {
    if |pairs| == 0 {
      EmptyHeader(pre);
    } else {
      var part := pre + Token(pairs[0]);
      TokenRoundTrip(pre, pairs[0]);
      if |pairs| == 1 {
        assert pairs[1..] == [] && Tokens([]) == [];
        assert CookieHeader(pairs) == Token(pairs[0]);
        LastToken(part);
      } else {
        var more := " " + CookieHeader(pairs[1..]);
        HeaderRoundTrip(" ", pairs[1..]);
        HeaderCons(pre, pairs);
        FirstToken(part, more);
      }
    }
  }

  lemma HeaderCons(pre: string, pairs: seq<Cookie>)
    requires |pairs| > 1
    ensures pre + CookieHeader(pairs) == pre + Token(pairs[0]) + ";" + (" " + CookieHeader(pairs[1..]))
  {
    var t, more := Token(pairs[0]), CookieHeader(pairs[1..]);
    assert Tokens(pairs)[0] == t && Tokens(pairs)[1..] == Tokens(pairs[1..]);
    assert CookieHeader(pairs) == t + "; " + more;
    MoveSpace(pre, t, more);
  }

  lemma MoveSpace(a: string, b: string, c: string)
    ensures a + (b + "; " + c) == a + b + ";" + (" " + c)
  {
    assert "; " == ";" + " ";
  }

  lemma FirstToken(part: string, more: string)
    requires ';' !in part
    ensures CookiePairs(part + ";" + more)
         == (match ParseToken(part) case Some(p) => [p] case None => []) + CookiePairs(more)
  {
    CutsAfterSymbol(part, ';');
    SplitCons(part, ";", more);
    AcceptedCons(part, Split(more, ";"));
  }

  lemma LastToken(part: string)
    requires ';' !in part
    ensures CookiePairs(part) == match ParseToken(part) case Some(p) => [p] case None => []
  {
    CutsAfterSymbol(part, ';');
    assert [part] + [] == [part];
    AcceptedCons(part, []);
  }

  lemma EmptyHeader(pre: string)
    requires pre == "" || pre == " "
    ensures CookiePairs(pre) == []
  {
    CutsAfterSymbol(pre, '=');
    LastToken(pre);
    if pre == " " {
      assert pre[1..] == "";
      assert LStrip(pre) == LStrip("") == "";
    }
  }

  /** The cookie round trip: for all pairs with legal names, the parser reads back the original pairs
      if and only if no name holds a colon and no value is empty. */
  lemma CookieRoundTrip(pairs: seq<Cookie>)
    requires forall i :: 0 <= i < |pairs| ==> IsLegalKey(pairs[i].name)
    ensures CookiePairs(CookieHeader(pairs)) == pairs <==>
      forall i :: 0 <= i < |pairs| ==> ':' !in pairs[i].name && pairs[i].value != ""
  {
    HeaderRoundTrip("", pairs);
    assert "" + CookieHeader(pairs) == CookieHeader(pairs);
    SurvivorsUnchanged(pairs);
  }

  lemma {:induction false} SurvivorsUnchanged(pairs: seq<Cookie>)
    ensures |Survivors(pairs)| <= |pairs|
    ensures Survivors(pairs) == pairs <==>
      forall i :: 0 <= i < |pairs| ==> ':' !in pairs[i].name && pairs[i].value != ""
  {
    if |pairs| > 0 {
      var p, rest := pairs[0], pairs[1..];
      SurvivorsUnchanged(rest);
      assert pairs == [p] + rest;
      if ':' !in p.name && p.value != "" {
        assert Survivors(pairs) == [p] + Survivors(rest);
        assert Survivors(pairs)[1..] == Survivors(rest);
      } else if ':' !in p.name {
        assert Survivors(pairs)[0].value == "\"\"";
      }
    }
  }
}
