/** Character classes and white space of Python strings. */
module Texts {

  /** The white space that `str.strip` removes. */
  predicate IsSpace(c: char) {
    var n := c as int;
    9 <= n <= 13 || 28 <= n <= 32 || n == 0x85 || n == 0xa0 || n == 0x1680 || 0x2000 <= n <= 0x200a
    || n == 0x2028 || n == 0x2029 || n == 0x202f || n == 0x205f || n == 0x3000
  }

  function LStrip(s: string): string {
    if s != "" && IsSpace(s[0]) then LStrip(s[1..]) else s
  }

  function RStrip(s: string): string {
    if s != "" && IsSpace(s[|s| - 1]) then RStrip(s[..|s| - 1]) else s
  }

  function Strip(s: string): string {
    RStrip(LStrip(s))
  }

  lemma StripNothing(s: string)
    requires s != "" && !IsSpace(s[0]) && !IsSpace(s[|s| - 1])
    ensures Strip(s) == s && Strip(" " + s) == s
  {
    assert (" " + s)[1..] == s;
    assert LStrip(" " + s) == LStrip(s) == s;
  }

  /** `[\w!#$%&'*+\-.^_`|~]` on ASCII: the token characters of header parameters. */
  predicate IsTokenChar(c: char) {
    || 'a' <= c <= 'z' || 'A' <= c <= 'Z' || '0' <= c <= '9'
    || c == '!' || '#' <= c <= '\'' || c == '*' || c == '+' || c == '-' || c == '.'
    || '^' <= c <= '`' || c == '|' || c == '~'
  }

  predicate IsToken(s: string) {
    s != "" && AllToken(s)
  }

  predicate AllToken(s: string) {
    forall i :: 0 <= i < |s| ==> IsTokenChar(s[i])
  }

  /** The white space of `\s` on ASCII. */
  predicate IsBlank(c: char) {
    c == ' ' || 9 <= c as int <= 13
  }

  predicate AllBlank(s: string) {
    forall i :: 0 <= i < |s| ==> IsBlank(s[i])
  }

  /** The length of the longest run of token characters at the front: what a greedy `+` takes. */
  function TokenRun(s: string): (n: nat)
    ensures n <= |s|
  {
    if s == "" || !IsTokenChar(s[0]) then 0 else 1 + TokenRun(s[1..])
  }

  function BlankRun(s: string): (n: nat)
    ensures n <= |s|
  {
    if s == "" || !IsBlank(s[0]) then 0 else 1 + BlankRun(s[1..])
  }

  /** The run ends at the first character of another kind. */
  lemma {:induction false} TokenRunAt(t: string, k: nat)
    requires k <= |t| && AllToken(t[..k]) && (k < |t| ==> !IsTokenChar(t[k]))
    ensures TokenRun(t) == k
  {
    if k > 0 {
      assert t[..k][0] == t[0] && t[1..][..k - 1] == t[..k][1..];
      TokenRunAt(t[1..], k - 1);
    }
  }

  lemma {:induction false} BlankRunAt(t: string, k: nat)
    requires k <= |t| && AllBlank(t[..k]) && (k < |t| ==> !IsBlank(t[k]))
    ensures BlankRun(t) == k
  {
    if k > 0 {
      assert t[..k][0] == t[0] && t[1..][..k - 1] == t[..k][1..];
      BlankRunAt(t[1..], k - 1);
    }
  }

  function LowerChar(c: char): char {
    if 'A' <= c <= 'Z' then (c as int + 32) as char else c
  }

  function Lower(s: string): (r: string)
    ensures |r| == |s|
  {
    seq(|s|, i requires 0 <= i < |s| => LowerChar(s[i]))
  }

  /** `s[::-1]`. */
  function Reverse<T>(s: seq<T>): (r: seq<T>)
    ensures |r| == |s|
  {
    if |s| == 0 then [] else Reverse(s[1..]) + [s[0]]
  }

  lemma {:induction false} ReverseAt<T>(s: seq<T>, i: nat)
    requires i < |s|
    ensures Reverse(s)[i] == s[|s| - 1 - i]
  {
    if i < |s| - 1 {
      ReverseAt(s[1..], i);
    }
  }

  lemma {:induction false} ReverseAppend<T>(a: seq<T>, b: seq<T>)
    ensures Reverse(a + b) == Reverse(b) + Reverse(a)
  {
    if |a| == 0 {
      assert a + b == b;
    } else {
      assert (a + b)[1..] == a[1..] + b;
      ReverseAppend(a[1..], b);
    }
  }

  lemma {:induction false} ReverseTwice<T>(s: seq<T>)
    ensures Reverse(Reverse(s)) == s
  {
    if |s| > 0 {
      ReverseTwice(s[1..]);
      ReverseAppend(Reverse(s[1..]), [s[0]]);
    }
  }

  lemma {:induction false} ReverseLower(s: string)
    ensures Reverse(Lower(s)) == Lower(Reverse(s))
  {
    if |s| > 0 {
      ReverseLower(s[1..]);
      assert Lower(s)[1..] == Lower(s[1..]);
    }
  }

  lemma ReverseAll(s: string)
    ensures AllToken(s) ==> AllToken(Reverse(s))
    ensures AllBlank(s) ==> AllBlank(Reverse(s))
  {
    forall i | 0 <= i < |s|
      ensures Reverse(s)[i] == s[|s| - 1 - i]
    {
      ReverseAt(s, i);
    }
  }
}
