/** `Range` headers, and the part of a file that is served for one. */
module FileRanges {
  import opened Sequences
  import opened Octets
  import opened Texts

  // ---------------------------------------------------------------- reading the header

  /** The two bounds of a range as they were asked for; an empty bound is `None`. */
  datatype Asked = Asked(first: Option<int>, last: Option<int>)

  datatype RangeError =
    | HeaderNotFound
    | InvalidRangeType(unitName: string)
    | InvalidBound(text: string)
    | InvalidParameters

  datatype Reading = Read(asked: Asked) | Unreadable(error: RangeError)

  /** `s.partition(c)`, without the separator. */
  function Partition(s: string, c: char): (string, string) {
    var p := Find([c], s, 0);
    if p < 0 then (s, "") else (s[..p], s[p + 1..])
  }

  function StripBoth(p: (string, string)): (string, string) {
    (Texts.Strip(p.0), Texts.Strip(p.1))
  }

  /** What the header asks for. `toInt` is Python's `int`, with `None` for a `ValueError`. */
  function ReadRange(header: Option<string>, toInt: string -> Option<int>): Reading {
    if header.None? then Unreadable(HeaderNotFound)
    else
      var (unitName, value) := StripBoth(Partition(header.value, '='));
      if unitName != "bytes" then Unreadable(InvalidRangeType(unitName)) else ReadBounds(value, toInt)
  }

  function ReadBounds(value: string, toInt: string -> Option<int>): Reading {
    var (a, b) := StripBoth(Partition(value, '-'));
    if a != "" && toInt(a).None? then Unreadable(InvalidBound(a))
    else if b != "" && toInt(b).None? then Unreadable(InvalidBound(b))
    else Read(Asked(if a == "" then None else toInt(a), if b == "" then None else toInt(b)))
  }

  /** The position `p` of a file of `total` bytes belongs to the range: section 14.1.2 of RFC 9110. */
  predicate Selects(asked: Asked, total: nat, p: nat) {
    && p < total
    && (asked.first.Some? ==> asked.first.value <= p)
    && (asked.last.Some? ==> if asked.first.Some? then p <= asked.last.value else total - asked.last.value <= p)
  }

  /** The range is not refused. */
  predicate Accepted(asked: Asked, total: nat) {
    if asked.first.Some? then
      asked.first.value <= if asked.last.Some? then asked.last.value else total - 1
    else
      asked.last.Some? && asked.last.value > 0
  }

  /** `start` and `end` delimit the range that was asked for. */
  ghost predicate Delimits(start: int, end: int, asked: Asked, total: nat) {
    && start <= end
    && (forall p: nat :: p < total ==> (start <= p <= end <==> Selects(asked, total, p)))
    && (asked.first.Some? ==> start == asked.first.value)
    && (asked.first.Some? && asked.last.Some? ==> end == asked.last.value)
    && (asked.first.None? || asked.last.None? ==> end == total - 1)
    && (asked.first.None? ==> asked.last.Some? && end - start + 1 == asked.last.value)
  }

  class ContentRange {
    const total: nat
    var start: Option<int>
    var end: Option<int>
    var size: Option<int>

    constructor (total: nat)
      ensures this.total == total && start.None? && end.None? && size.None?
    {
      this.total := total;
      start, end, size := None, None, None;
    }

    /** `__bool__`. */
    predicate Truthy()
      reads this
    {
      size.Some? && size.value > 0
    }

    /** `ContentRangeHandler.__init__`. */
    method Init(header: Option<string>, toInt: string -> Option<int>) returns (error: Option<RangeError>)
      requires start.None? && end.None? && size.None?
      modifies this
      ensures var r := ReadRange(header, toInt);
        error == if r.Unreadable? then Some(r.error)
                 else if Accepted(r.asked, total) then None
                 else Some(InvalidParameters)
      ensures error.None? ==>
        && start.Some? && end.Some? && size == Some(end.value - start.value + 1)
        && Delimits(start.value, end.value, ReadRange(header, toInt).asked, total)
      ensures Truthy() <==> error.None?
    {
      if header.None? {
        return Some(HeaderNotFound);
      }
      var (unitName, value) := StripBoth(Partition(header.value, '='));
      if unitName != "bytes" {
        return Some(InvalidRangeType(unitName));
      }
      error := InitBounds(value, toInt);
    }

    /** The rest of the constructor, once the unit is right. */
    method InitBounds(value: string, toInt: string -> Option<int>) returns (error: Option<RangeError>)
      requires start.None? && end.None? && size.None?
      modifies this
      ensures var r := ReadBounds(value, toInt);
        error == if r.Unreadable? then Some(r.error)
                 else if Accepted(r.asked, total) then None
                 else Some(InvalidParameters)
      ensures error.None? ==>
        && start.Some? && end.Some? && size == Some(end.value - start.value + 1)
        && Delimits(start.value, end.value, ReadBounds(value, toInt).asked, total)
      ensures Truthy() <==> error.None?
    {
      var (startB, endB) := StripBoth(Partition(value, '-'));
      if startB != "" {
        start := toInt(startB);
        if start.None? {
          return Some(InvalidBound(startB));
        }
      }
      if endB != "" {
        end := toInt(endB);
        if end.None? {
          return Some(InvalidBound(endB));
        }
      }
      if end.None? {
        if start.None? {
          return Some(InvalidParameters);
        }
        end := Some(total - 1);
      } else if start.None? {
        start := Some(total - end.value);
        end := Some(total - 1);
      }
      if start.value > end.value {
        return Some(InvalidParameters);
      }
      size := Some(end.value - start.value + 1);
      return None;
    }
  }

  lemma PartitionAt(a: string, c: char, b: string)
    requires c !in a
    ensures Partition(a + [c] + b, c) == (a, b)
  {
    CutsAfterSymbol(a, c);
    FindInPrefix([c], a + [c], b, 0);
    var s := a + [c] + b;
    assert s[..|a|] == a && s[|a| + 1..] == b;
  }

  /** No white space at either end. */
  predicate Trimmed(s: string) {
    s == "" || (!Texts.IsSpace(s[0]) && !Texts.IsSpace(s[|s| - 1]))
  }

  lemma TrimmedStays(s: string)
    requires Trimmed(s)
    ensures Texts.Strip(s) == s
  {
    if s != "" {
      StripNothing(s);
    }
  }

  /** A header written as unit, `=`, first bound, `-`, last bound is read back as those three. */
  lemma RangeHeaderRead(unitName: string, a: string, b: string, toInt: string -> Option<int>)
    requires '=' !in unitName && Trimmed(unitName) && '-' !in a && Trimmed(a) && Trimmed(b)
    ensures ReadRange(Some(unitName + "=" + (a + "-" + b)), toInt) ==
      if unitName != "bytes" then Unreadable(InvalidRangeType(unitName))
      else if a != "" && toInt(a).None? then Unreadable(InvalidBound(a))
      else if b != "" && toInt(b).None? then Unreadable(InvalidBound(b))
      else Read(Asked(if a == "" then None else toInt(a), if b == "" then None else toInt(b)))
  {
    var value := a + "-" + b;
    PartitionAt(unitName, '=', value);
    PartitionAt(a, '-', b);
    assert value[0] == if a == "" then '-' else a[0];
    assert value[|value| - 1] == if b == "" then '-' else b[|b| - 1];
    TrimmedStays(unitName);
    TrimmedStays(value);
    TrimmedStays(a);
    TrimmedStays(b);
  }

  // ---------------------------------------------------------------- serving the file

  function Min(a: int, b: int): int {
    if a < b then a else b
  }

  /** A file open for reading. */
  class File {
    const content: Bytes
    var position: nat

    constructor (content: Bytes)
      ensures this.content == content && position == 0
    {
      this.content, position := content, 0;
    }

    /** A negative position is an error. */
    method Seek(to: int) returns (ok: bool)
      modifies this
      ensures ok == (to >= 0)
      ensures position == if ok then to else old(position)
    {
      ok := to >= 0;
      if ok {
        position := to;
      }
    }

    /** At most `n` bytes from the position on, all of them when `n` is negative. */
    method Read(n: int) returns (data: Bytes)
      modifies this
      ensures data == ReadAt(content, old(position), n)
      ensures position == old(position) + |data|
    {
      data := ReadAt(content, position, n);
      position := position + |data|;
    }
  }

  function ReadAt(content: Bytes, position: nat, n: int): Bytes {
    if position >= |content| then []
    else if n < 0 || position + n >= |content| then content[position..]
    else content[position..position + n]
  }

  /** The part of a file that a range delimits: where it starts and how long it is. */
  datatype Span = Span(start: int, size: int)

  /** The least multiple of `c` that is at least `n`. */
  function RoundUp(n: nat, c: nat): nat
    requires c > 0
  {
    if n % c == 0 then n else n - n % c + c
  }

  /** Whole steps either fall short of `n`, and then one more stays within the rounded value, or they
      have reached it. */
  lemma RoundUpIsLeast(n: nat, c: nat, done: nat)
    requires c > 0 && done % c == 0
    ensures done < n ==> done + c <= RoundUp(n, c)
    ensures done >= n ==> RoundUp(n, c) <= done
  {
    var q, r, j := n / c, n % c, done / c;
    assert n == q * c + r && done == j * c;
    if j < q {
      MulGrows(j + 1, q, c);
    } else if j > q {
      MulGrows(q + 1, j, c);
    }
  }

  lemma AnotherStep(c: nat, done: nat)
    requires c > 0 && done % c == 0
    ensures (done + c) % c == 0
  {
    var x, j := done + c, done / c + 1;
    var q := x / c;
    assert x == j * c && x == q * c + x % c;
    if q < j {
      MulGrows(q + 1, j, c);
    } else if q > j {
      MulGrows(j + 1, q, c);
    }
  }

  lemma OneStep(n: nat, c: nat, available: nat, done: nat)
    requires c > 0 && done % c == 0 && done < n
    ensures var next := Min(available, done + c);
      next <= RoundUp(n, c) && (next == available || next % c == 0)
  {
    RoundUpIsLeast(n, c, done);
    AnotherStep(c, done);
  }

  lemma MulGrows(a: nat, b: nat, c: nat)
    requires a <= b
    ensures a * c <= b * c
  {
  }

  /** How many bytes streaming a span of `size` takes out of the `available` ones. */
  function Streamed(available: nat, size: nat, chunk: int): (k: nat)
    requires size > 0
    ensures k <= available
  {
    if chunk < 0 then available
    else if chunk == 0 then 0
    else Min(available, RoundUp(size, Min(size, chunk)))
  }

  function Available(content: Bytes, start: nat): nat {
    if start < |content| then |content| - start else 0
  }

  /** The pieces written are the first `sent` bytes from `start` on, none empty or too long. */
  ghost predicate Wrote(content: Bytes, start: nat, chunk: int, written: seq<Bytes>, sent: nat) {
    && Flat(written) == ReadAt(content, start, sent) && |Flat(written)| == sent
    && forall i :: 0 <= i < |written| ==> written[i] != [] && (chunk > 0 ==> |written[i]| <= chunk)
  }

  lemma OnePiece(content: Bytes, start: nat, chunk: int, written: seq<Bytes>, sent: nat, n: int)
    requires Wrote(content, start, chunk, written, sent) && n <= chunk && (chunk > 0 ==> n > 0)
    requires ReadAt(content, start + sent, n) != []
    ensures var data := ReadAt(content, start + sent, n);
      Wrote(content, start, chunk, written + [data], sent + |data|)
  {
    FlatSnoc(written, ReadAt(content, start + sent, n));
    ReadOn(content, start, sent, n);
  }

  /** The length of one read of `c` bytes, when `sent` of the available ones are taken. */
  function Piece(available: nat, sent: nat, c: int): nat
    requires sent <= available
  {
    if c < 0 || sent + c > available then available - sent else c
  }

  /** How many bytes `j` reads take. */
  function Taken(available: nat, c: int, j: nat): (n: nat)
    ensures n <= available
  {
    if j == 0 then 0 else Taken(available, c, j - 1) + Piece(available, Taken(available, c, j - 1), c)
  }

  lemma ReadLength(content: Bytes, start: nat, sent: nat, c: int)
    requires sent <= Available(content, start)
    ensures |ReadAt(content, start + sent, c)| == Piece(Available(content, start), sent, c)
  {
  }

  /** As long as the size was not reached before the last read, the reads stay within the rounded size, and
      are whole steps until the file ends. */
  lemma {:induction false} WholeSteps(size: nat, c: nat, available: nat, j: nat)
    requires c > 0 && (j > 0 ==> Taken(available, c, j - 1) < size)
    ensures var n := Taken(available, c, j);
      n <= RoundUp(size, c) && (n == available || n % c == 0)
  {
    if j > 0 {
      var n := Taken(available, c, j - 1);
      WholeSteps(size, c, available, j - 1);
      if n % c == 0 {
        OneStep(size, c, available, n);
      }
    }
  }

  lemma {:induction false} NoSteps(c: int, available: nat, j: nat)
    requires c <= 0
    ensures var n := Taken(available, c, j);
      if c < 0 && j > 0 then n == available else n == 0
  {
    if j > 0 {
      NoSteps(c, available, j - 1);
    }
  }

  lemma LastStep(size: nat, chunk: int, available: nat, j: nat)
    requires size > 0
    requires var c := Min(size, chunk);
      && (j > 0 ==> Taken(available, c, j - 1) < size)
      && (Taken(available, c, j) >= size || Piece(available, Taken(available, c, j), c) == 0)
    ensures Taken(available, Min(size, chunk), j) == Streamed(available, size, chunk)
  {
    var c := Min(size, chunk);
    var n := Taken(available, c, j);
    if c > 0 {
      WholeSteps(size, c, available, j);
      if n % c == 0 {
        RoundUpIsLeast(size, c, n);
      }
    } else {
      NoSteps(c, available, j);
    }
  }

  /** The loop of `_streaming_fn` over a range, from the position sought. */
  method StreamSpan(f: File, size: nat, chunk: int) returns (written: seq<Bytes>)
    requires size > 0
    modifies f
    ensures Flat(written) ==
      ReadAt(f.content, old(f.position), Streamed(Available(f.content, old(f.position)), size, chunk))
    ensures forall i :: 0 <= i < |written| ==> written[i] != [] && (chunk > 0 ==> |written[i]| <= chunk)
  {
    written := [];
    ghost var start, available := f.position, Available(f.content, f.position);
    ghost var c, j, sent: nat := Min(size, chunk), 0, 0;
    var toSend := size;
    while toSend > 0
      invariant f.position == start + sent && toSend == size - sent && sent == Taken(available, c, j)
      invariant j > 0 ==> Taken(available, c, j - 1) < size
      invariant Wrote(f.content, start, chunk, written, sent)
      decreases available - sent
    {
      ReadLength(f.content, start, sent, c);
      var data := f.Read(Min(size, chunk));
      if |data| < 1 {
        break;
      }
      OnePiece(f.content, start, chunk, written, sent, c);
      toSend := toSend - |data|;
      written, sent, j := written + [data], sent + |data|, j + 1;
    }
    LastStep(size, chunk, available, j);
  }

  /** `_streaming_fn` of `file_stream`: what it writes, piece by piece. */
  method StreamFile(content: Bytes, range: Option<Span>, chunk: int) returns (ok: bool, written: seq<Bytes>)
    ensures ok <==> !(range.Some? && range.value.size > 0 && range.value.start < 0)
    ensures !ok ==> written == []
    ensures ok && range.Some? && range.value.size > 0 ==>
      var start := range.value.start;
      Flat(written) == ReadAt(content, start, Streamed(Available(content, start), range.value.size, chunk))
    ensures !(range.Some? && range.value.size > 0) ==> Flat(written) == if chunk == 0 then [] else content
    ensures forall i :: 0 <= i < |written| ==> written[i] != [] && (chunk > 0 ==> |written[i]| <= chunk)
  {
    var f := new File(content);
    ok, written := true, [];
    if range.Some? && range.value.size > 0 {
      ok := f.Seek(range.value.start);
      if !ok {
        return;
      }
      written := StreamSpan(f, range.value.size, chunk);
    } else {
      while true
        invariant f.position == |Flat(written)| <= |content| && Flat(written) == content[..f.position]
        invariant chunk == 0 ==> written == []
        invariant forall i :: 0 <= i < |written| ==> written[i] != [] && (chunk > 0 ==> |written[i]| <= chunk)
        decreases |content| - f.position
      {
        var data := f.Read(chunk);
        if |data| < 1 {
          break;
        }
        FlatSnoc(written, data);
        written := written + [data];
      }
    }
  }

  /** Two reads in a row are one longer read. */
  lemma ReadOn(content: Bytes, start: nat, n: nat, m: int)
    requires start + n <= |content| || n == 0
    ensures var more := ReadAt(content, start + n, m);
      ReadAt(content, start, n) + more == ReadAt(content, start, n + |more|)
  {
  }

  /** The branches of `file`: one read for a range, one read for everything. */
  method FileBody(content: Bytes, range: Option<Span>) returns (ok: bool, body: Bytes)
    ensures ok <==> !(range.Some? && range.value.size > 0 && range.value.start < 0)
    ensures ok && range.Some? && range.value.size > 0 ==> body == ReadAt(content, range.value.start, range.value.size)
    ensures ok && !(range.Some? && range.value.size > 0) ==> body == content
  {
    var f := new File(content);
    ok, body := true, [];
    if range.Some? && range.value.size > 0 {
      ok := f.Seek(range.value.start);
      if ok {
        body := f.Read(range.value.size);
      }
    } else {
      body := f.Read(-1);
    }
  }

  /** A stream carries as much as a single read of the range would exactly when the file ends with the
      range or the step divides the size; otherwise it runs past the range, by less than one step. */
  lemma StreamedIsExact(available: nat, size: nat, chunk: int)
    requires size > 0 && chunk > 0
    ensures var step := Min(size, chunk); var k := Streamed(available, size, chunk);
      && Min(available, size) <= k < Min(available, size) + step
      && (k == Min(available, size) <==> available <= size || size % step == 0)
  {
  }

  /** The bytes of the file at the positions a range selects. */
  ghost function Selected(content: Bytes, asked: Asked, p: nat): Bytes
    decreases |content| - p
  {
    if p >= |content| then []
    else (if Selects(asked, |content|, p) then [content[p]] else []) + Selected(content, asked, p + 1)
  }

  lemma ReadFirst(content: Bytes, p: nat, n: nat)
    requires p < |content| && n > 0
    ensures ReadAt(content, p, n) == [content[p]] + ReadAt(content, p + 1, n - 1)
  {
  }

  lemma SelectedStep(content: Bytes, asked: Asked, start: nat, end: int, p: nat)
    requires Delimits(start, end, asked, |content|) && p < |content|
    ensures Selected(content, asked, p) ==
      if start <= p <= end then [content[p]] + Selected(content, asked, p + 1) else Selected(content, asked, p + 1)
  {
    assert Selects(asked, |content|, p) <==> start <= p <= end;
    assert [] + Selected(content, asked, p + 1) == Selected(content, asked, p + 1);
  }

  lemma {:induction false} SelectedBehind(content: Bytes, asked: Asked, start: nat, end: int, p: nat)
    requires Delimits(start, end, asked, |content|) && end < p
    ensures Selected(content, asked, p) == []
    decreases |content| - p
  {
    if p < |content| {
      SelectedStep(content, asked, start, end, p);
      SelectedBehind(content, asked, start, end, p + 1);
    }
  }

  lemma {:induction false} SelectedInside(content: Bytes, asked: Asked, start: nat, end: int, p: nat)
    requires Delimits(start, end, asked, |content|) && start <= p <= end + 1
    ensures Selected(content, asked, p) == ReadAt(content, p, end + 1 - p)
    decreases |content| - p
  {
    if p > end {
      SelectedBehind(content, asked, start, end, p);
    } else if p < |content| {
      SelectedStep(content, asked, start, end, p);
      SelectedInside(content, asked, start, end, p + 1);
      ReadFirst(content, p, end + 1 - p);
    }
  }

  lemma {:induction false} SelectedFrom(content: Bytes, asked: Asked, start: nat, end: int, p: nat)
    requires Delimits(start, end, asked, |content|) && p <= start
    ensures Selected(content, asked, p) == ReadAt(content, start, end + 1 - start)
    decreases start - p
  {
    if p == start {
      SelectedInside(content, asked, start, end, p);
    } else {
      SelectedFrom(content, asked, start, end, p + 1);
      if p < |content| {
        SelectedStep(content, asked, start, end, p);
      }
    }
  }

  /** What a range that was asked for gets. `file` sends exactly the selected bytes, also when the range
      runs past the end of the file. `file_stream` sends exactly them when the range is open-ended or a
      suffix, or the file ends with it, or the step divides its size, and in no other case. */
  lemma RangeIsServed(content: Bytes, asked: Asked, start: int, end: int, chunk: int)
    requires Delimits(start, end, asked, |content|) && start >= 0 && chunk > 0
    ensures var size := end - start + 1; var selected := Selected(content, asked, 0);
      && ReadAt(content, start, size) == selected
      && (ReadAt(content, start, Streamed(Available(content, start), size, chunk)) == selected <==>
            end >= |content| - 1 || size % Min(size, chunk) == 0)
      && (asked.first.None? || asked.last.None? ==> end == |content| - 1 && |selected| == size)
  {
    SelectedFrom(content, asked, start, end, 0);
    var size := end - start + 1;
    StreamedIsExact(Available(content, start), size, chunk);
    var k := Streamed(Available(content, start), size, chunk);
    assert |ReadAt(content, start, k)| == k;
    assert k == Min(Available(content, start), size) ==> ReadAt(content, start, k) == ReadAt(content, start, size);
  }

  /** A suffix longer than the file delimits a range that starts before the file, where neither `file`
      nor `file_stream` can seek. */
  lemma LongSuffixStartsBeforeTheFile(asked: Asked, total: nat, start: int, end: int)
    requires Accepted(asked, total) && Delimits(start, end, asked, total)
    requires asked.first.Some? ==> asked.first.value >= 0
    ensures start < 0 <==> asked.first.None? && asked.last.value > total
  {
  }
}
