/** Searching, splitting and joining sequences, as Python's `find`, `split` and `join` do. */
module Sequences {

  datatype Option<+T> = None | Some(value: T)

  /** `pat` occurs in `s` at index `i`. */
  predicate OccursAt<T(==)>(pat: seq<T>, s: seq<T>, i: nat) {
    i + |pat| <= |s| && s[i..i + |pat|] == pat
  }

  /** The first index at or after `from` where `pat` occurs, or -1. */
  function Find<T(==)>(pat: seq<T>, s: seq<T>, from: nat): (r: int)
    ensures r == -1 || (from <= r && OccursAt(pat, s, r))
    ensures forall i: nat :: from <= i && (r == -1 || i < r) ==> !OccursAt(pat, s, i)
    decreases |s| - from
  {
    if from + |pat| > |s| then -1
    else if OccursAt(pat, s, from) then from
    else Find(pat, s, from + 1)
  }

  /** `Find` is the only function with `Find`'s contract. */
  lemma FindIs<T>(pat: seq<T>, s: seq<T>, from: nat, p: nat)
    requires from <= p && OccursAt(pat, s, p)
    requires forall i: nat :: from <= i < p ==> !OccursAt(pat, s, i)
    ensures Find(pat, s, from) == p
  {
  }

  /** Appending never moves the first occurrence. */
  lemma FindInPrefix<T>(pat: seq<T>, s: seq<T>, t: seq<T>, from: nat)
    requires Find(pat, s, from) >= 0
    ensures Find(pat, s + t, from) == Find(pat, s, from)
  {
    var p := Find(pat, s, from);
    assert (s + t)[p..p + |pat|] == s[p..p + |pat|];
    forall i: nat | from <= i < p
      ensures !OccursAt(pat, s + t, i)
    {
      assert (s + t)[i..i + |pat|] == s[i..i + |pat|];
      assert !OccursAt(pat, s, i);
    }
    FindIs(pat, s + t, from, p);
  }

  /** After a failed search, appending can only create occurrences that reach into the new part. */
  lemma NotInPrefix<T>(pat: seq<T>, s: seq<T>, t: seq<T>, from: nat, i: nat)
    requires Find(pat, s, from) == -1
    requires from <= i && i + |pat| <= |s|
    ensures !OccursAt(pat, s + t, i)
  {
    assert (s + t)[i..i + |pat|] == s[i..i + |pat|];
    assert !OccursAt(pat, s, i);
  }

  /** Occurrences move with a prepended prefix. */
  lemma FindAfter<T>(pat: seq<T>, a: seq<T>, s: seq<T>, from: nat)
    ensures var p := Find(pat, s, from);
      Find(pat, a + s, |a| + from) == if p < 0 then -1 else |a| + p
    decreases |s| - from
  {
    if from + |pat| <= |s| {
      assert (a + s)[|a| + from..|a| + from + |pat|] == s[from..from + |pat|];
      if !OccursAt(pat, s, from) {
        FindAfter(pat, a, s, from + 1);
      }
    }
  }

  /** `s.split(sep)`. */
  function Split<T(==)>(s: seq<T>, sep: seq<T>): (parts: seq<seq<T>>)
    requires sep != []
    ensures |parts| >= 1
    decreases |s|
  {
    var p := Find(sep, s, 0);
    if p < 0 then [s] else [s[..p]] + Split(s[p + |sep|..], sep)
  }

  /** `sep` first occurs in `part + sep` at its end, so a split cuts exactly there. */
  ghost predicate CutsAfter<T>(part: seq<T>, sep: seq<T>) {
    Find(sep, part + sep, 0) == |part|
  }

  lemma SplitCons<T>(part: seq<T>, sep: seq<T>, rest: seq<T>)
    requires sep != [] && CutsAfter(part, sep)
    ensures Split(part + sep + rest, sep) == [part] + Split(rest, sep)
  {
    FindInPrefix(sep, part + sep, rest, 0);
    var s := part + sep + rest;
    assert s[..|part|] == part;
    assert s[|part| + |sep|..] == rest;
  }

  /** `sep.join(parts)`. */
  function Join<T>(parts: seq<seq<T>>, sep: seq<T>): seq<T> {
    if |parts| == 0 then []
    else if |parts| == 1 then parts[0]
    else parts[0] + sep + Join(parts[1..], sep)
  }

  /** Splitting undoes joining. */
  lemma {:induction false} SplitJoin<T>(parts: seq<seq<T>>, sep: seq<T>)
    requires sep != [] && |parts| > 0
    requires forall i :: 0 <= i < |parts| - 1 ==> CutsAfter(parts[i], sep)
    requires Find(sep, parts[|parts| - 1], 0) == -1
    ensures Split(Join(parts, sep), sep) == parts
  {
    if |parts| > 1 {
      SplitCons(parts[0], sep, Join(parts[1..], sep));
      SplitJoin(parts[1..], sep);
      assert [parts[0]] + parts[1..] == parts;
    }
  }

  /** A part without the separator's single symbol is cut exactly at its end. */
  lemma CutsAfterSymbol<T>(part: seq<T>, x: T)
    requires x !in part
    ensures CutsAfter(part, [x])
    ensures Find([x], part, 0) == -1
  {
    var s := part + [x];
    assert s[|part|..|part| + 1] == [x];
    forall i: nat | i < |part|
      ensures !OccursAt([x], s, i) && !OccursAt([x], part, i)
    {
      assert s[i..i + 1] == [part[i]] == part[i..i + 1];
      assert part[i] in part;
      assert [part[i]][0] != [x][0];
    }
    FindIs([x], s, 0, |part|);
    if Find([x], part, 0) >= 0 {
      assert !OccursAt([x], part, Find([x], part, 0));
    }
  }

  /** Concatenation of a list of pieces. */
  function Flat<T>(pieces: seq<seq<T>>): seq<T> {
    if |pieces| == 0 then [] else pieces[0] + Flat(pieces[1..])
  }

  lemma FlatAppend<T>(a: seq<seq<T>>, b: seq<seq<T>>)
    ensures Flat(a + b) == Flat(a) + Flat(b)
  {
    if |a| == 0 {
      assert a + b == b;
    } else {
      assert (a + b)[1..] == a[1..] + b;
      FlatAppend(a[1..], b);
    }
  }

  lemma FlatSnoc<T>(a: seq<seq<T>>, x: seq<T>)
    ensures Flat(a + [x]) == Flat(a) + x
  {
    FlatAppend(a, [x]);
    assert Flat([x]) == x + Flat([]) == x;
  }

  /** Concatenation is associative. */
  lemma Associate<T>(a: seq<T>, b: seq<T>, c: seq<T>)
    ensures a + (b + c) == a + b + c
  {
  }
}
