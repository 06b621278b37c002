/** Message framing, seen from the whole byte stream at once: the one-shot reference that the
    incremental reader and writer of `Http1` are proved against. */
module Framing {
  import opened Sequences
  import opened Octets

  // ---------------------------------------------------------------- the writer's chunked coding

  /** The last chunk: `0 CRLF CRLF`. */
  const LAST_CHUNK: Bytes := [48, 13, 10, 13, 10]

  /** One chunk; an empty block writes nothing, because a zero size would end the body. */
  function Chunk(block: Bytes): Bytes {
    if block == [] then [] else Hex(|block|) + CRLF + block + CRLF
  }

  function Chunks(blocks: seq<Bytes>): Bytes {
    if |blocks| == 0 then [] else Chunk(blocks[0]) + Chunks(blocks[1..])
  }

  lemma {:induction false} ChunksSnoc(blocks: seq<Bytes>, block: Bytes)
    ensures Chunks(blocks + [block]) == Chunks(blocks) + Chunk(block)
  {
    var c, all := Chunk(block), blocks + [block];
    assert all[1..] == if |blocks| == 0 then [] else blocks[1..] + [block];
    if |blocks| == 0 {
      assert c + [] == [] + c;
    } else {
      ChunksSnoc(blocks[1..], block);
      Associate(Chunk(blocks[0]), Chunks(blocks[1..]), c);
    }
  }

  // ---------------------------------------------------------------- the one-shot reader

  /** `request_body`: absent (`None`), a counted body (`True`) or `"chunked"`. */
  datatype BodyKind = Absent | Counted | Chunked

  /** What is left of a message body at the front of a stream. `line` is the largest index at which
      the CRLF ending a size line was found; the incremental reader can refuse a line over 63. */
  datatype Rest =
    | Whole(payload: Bytes, rest: Bytes, line: nat)
    | Malformed
    | Starved

  /** The size on a chunk's size line, extensions dropped. */
  function ChunkSize(line: Bytes): Option<nat> {
    SafeInt(Split(line, [SEMICOLON])[0], 16)
  }

  function Max(a: nat, b: nat): nat {
    if a < b then b else a
  }

  function Prepend(data: Bytes, r: Rest): Rest {
    if r.Whole? then r.(payload := data + r.payload) else r
  }

  function SawLine(p: nat, r: Rest): Rest {
    if r.Whole? then r.(line := Max(p, r.line)) else r
  }

  /** The chunk header at the front of a stream. A header is `CRLF size CRLF`: the CRLF that ends the
      head, or the previous chunk, is still there. `end` is where the size line's own CRLF starts. */
  datatype Header = NoHeader | BadHeader | Header(size: nat, end: nat)

  function ChunkHeader(s: Bytes): (h: Header)
    ensures h.Header? ==> 3 <= h.end && h.end + 2 <= |s|
  {
    var p := Find(CRLF, s, 3);
    if p < 0 then NoHeader
    else match ChunkSize(s[2..p])
      case None => BadHeader
      case Some(size) => Header(size, p)
  }

  /** The unread body of kind `kind` at the front of `s`, when `left` octets of it (of its current
      chunk) are still to come. */
  function Unread(kind: BodyKind, left: nat, s: Bytes): Rest
    decreases |s|
  {
    if left > |s| then Starved
    else if !kind.Chunked? then Whole(s[..left], s[left..], 0)
    else if left > 0 then Prepend(s[..left], Unread(Chunked, 0, s[left..]))
    else match ChunkHeader(s)
      case NoHeader => Starved
      case BadHeader => Malformed
      case Header(size, p) =>
        if size > 0 then SawLine(p, Unread(Chunked, size, s[p + 2..]))
        else if p + 4 > |s| then Starved
        else Whole([], s[p + 4..], p)
  }

  lemma CutTwice(s: Bytes, k: nat, n: nat)
    requires k <= n <= |s|
    ensures s[..n] == s[..k] + s[k..][..n - k] && s[n..] == s[k..][n - k..]
  {
  }

  /** Taking `k` of the octets to come takes exactly them off the payload. */
  lemma UnreadTake(kind: BodyKind, left: nat, s: Bytes, k: nat)
    requires k <= left && k <= |s|
    ensures Unread(kind, left, s) == Prepend(s[..k], Unread(kind, left - k, s[k..]))
  {
    var t := s[k..];
    if left <= |s| {
      CutTwice(s, k, left);
      if kind.Chunked? && left == k {
        assert t[0..] == t;
        var r := Unread(Chunked, 0, t);
        if r.Whole? {
          assert [] + r.payload == r.payload;
        }
      } else if kind.Chunked? {
        var r := Unread(Chunked, 0, s[left..]);
        if r.Whole? {
          Associate(s[..k], t[..left - k], r.payload);
        }
      }
    }
  }

  /** A complete body is in the stream: its payload, at least what was left, and what follows it, and for a
      chunked one at least the last chunk beside them. */
  lemma UnreadShrinks(kind: BodyKind, left: nat, s: Bytes)
    requires Unread(kind, left, s).Whole?
    ensures var r := Unread(kind, left, s);
      |r.payload| + |r.rest| + (if kind.Chunked? then 7 else 0) <= |s| && |r.payload| >= left
    decreases |s|
  {
    if kind.Chunked? {
      if left > 0 {
        UnreadShrinks(Chunked, 0, s[left..]);
      } else {
        var Header(size, p) := ChunkHeader(s);
        if size > 0 {
          UnreadShrinks(Chunked, size, s[p + 2..]);
        }
      }
    }
  }

  /** What `a` describes is `data` followed by what `b` describes; size lines can only have been used up. */
  ghost predicate Leaves(a: Rest, data: Bytes, b: Rest) {
    && a.Whole? == b.Whole?
    && (a.Whole? ==> a.payload == data + b.payload && a.rest == b.rest && b.line <= a.line)
  }

  /** Handing out the first `k` octets of a buffer leaves the rest of the body. */
  lemma TakeLeaves(kind: BodyKind, left: nat, buf: Bytes, later: Bytes, k: nat)
    requires k <= left && k <= |buf|
    ensures Leaves(Unread(kind, left, buf + later), buf[..k], Unread(kind, left - k, buf[k..] + later))
  {
    UnreadTake(kind, left, buf + later, k);
    assert (buf + later)[..k] == buf[..k];
    assert (buf + later)[k..] == buf[k..] + later;
  }

  /** Taking a chunk header off takes nothing off the payload. */
  lemma HeaderLeaves(s: Bytes)
    requires ChunkHeader(s).Header?
    ensures var Header(size, p) := ChunkHeader(s);
      && (size > 0 ==> Leaves(Unread(Chunked, 0, s), [], Unread(Chunked, size, s[p + 2..])))
      && (size == 0 && p + 4 <= |s| ==> Leaves(Unread(Chunked, 0, s), [], Unread(Absent, 0, s[p + 4..])))
  {
    var Header(size, p) := ChunkHeader(s);
    if size > 0 {
      var r := Unread(Chunked, size, s[p + 2..]);
      if r.Whole? {
        assert [] + r.payload == r.payload;
      }
    } else if p + 4 <= |s| {
      assert s[p + 4..][0..] == s[p + 4..];
    }
  }

  lemma LeavesAll(a: Rest)
    ensures Leaves(a, [], a)
  {
  }

  lemma LeavesThen(a: Rest, d: Bytes, b: Rest, e: Bytes, c: Rest)
    requires Leaves(b, e, c)
    ensures Leaves(a, d, b) ==> Leaves(a, d + e, c)
  {
    if a.Whole? && b.Whole? {
      assert d + (e + c.payload) == (d + e) + c.payload;
    }
  }

  // ---------------------------------------------------------------- the round trip

  function LongestSizeLine(blocks: seq<Bytes>): nat {
    if |blocks| == 0 then 3
    else Max(if blocks[0] == [] then 0 else |Hex(|blocks[0]|)| + 2, LongestSizeLine(blocks[1..]))
  }

  /** A printed size line ends where it should and reads back as the size. */
  lemma SizeLine(n: nat, t: Bytes)
    ensures var s := CRLF + Hex(n) + CRLF + t;
      var p := |Hex(n)| + 2;
      ChunkHeader(s) == Header(n, p)
  {
    var h := Hex(n);
    var s := CRLF + h + CRLF + t;
    var p := |h| + 2;
    HexOctets(n);
    assert s[p..p + 2] == CRLF;
    forall i: nat | 3 <= i < p
      ensures !OccursAt(CRLF, s, i)
    {
      assert s[i] == h[i - 2];
      assert s[i..i + 2][0] == s[i] != 13;
    }
    FindIs(CRLF, s, 3, p);
    assert s[2..p] == h;
    assert SEMICOLON !in h;
    CutsAfterSymbol(h, SEMICOLON);
    SafeIntOfHex(n);
  }

  /** The bytes after a head that announced a chunked body, from the CRLF the head leaves behind. */
  function ChunkedBody(blocks: seq<Bytes>, suffix: Bytes): Bytes {
    CRLF + Chunks(blocks) + LAST_CHUNK + suffix
  }

  /** The first chunk of a body, cut out of the whole. */
  lemma FirstChunk(h: Bytes, block: Bytes, cs: Bytes, tail: Bytes)
    ensures CRLF + (h + CRLF + block + CRLF + cs) + tail == CRLF + h + CRLF + (block + (CRLF + cs + tail))
  {
    var rest := CRLF + cs + tail;
    assert h + CRLF + block + CRLF + cs + tail == h + CRLF + (block + rest) by {
      Associate(h + CRLF, block, rest);
      assert h + CRLF + block + rest == h + CRLF + block + CRLF + cs + tail;
    }
    Associate(CRLF, h + CRLF + block + CRLF + cs, tail);
    Associate(CRLF, h + CRLF, block + rest);
    Associate(CRLF, h, CRLF);
  }

  lemma ChunkedBodyCons(blocks: seq<Bytes>, suffix: Bytes)
    requires |blocks| > 0
    ensures var block, more := blocks[0], ChunkedBody(blocks[1..], suffix);
      ChunkedBody(blocks, suffix)
      == if block == [] then more else CRLF + Hex(|block|) + CRLF + (block + more)
  {
    var block, cs, tail := blocks[0], Chunks(blocks[1..]), LAST_CHUNK + suffix;
    assert ChunkedBody(blocks[1..], suffix) == CRLF + cs + tail;
    assert ChunkedBody(blocks, suffix) == CRLF + (Chunk(block) + cs) + tail;
    if block == [] {
      assert [] + cs == cs;
    } else {
      var h := Hex(|block|);
      FirstChunk(h, block, cs, tail);
    }
  }

  lemma ChunkedBodyEnd(suffix: Bytes)
    ensures Unread(Chunked, 0, ChunkedBody([], suffix)) == Whole([], suffix, 3)
  {
    var s, t := ChunkedBody([], suffix), CRLF + suffix;
    SizeLine(0, t);
    assert s == CRLF + Hex(0) + CRLF + t;
    assert s[7..] == suffix;
  }

  /** The reader undoes the writer: after the CRLF that the head leaves in the buffer, a chunked body
      reads back as the payload, and exactly the pipelined suffix is left. */
  lemma {:induction false} ChunkedRoundTrip(blocks: seq<Bytes>, suffix: Bytes)
    ensures Unread(Chunked, 0, ChunkedBody(blocks, suffix))
         == Whole(Flat(blocks), suffix, LongestSizeLine(blocks))
  {
    if |blocks| == 0 {
      ChunkedBodyEnd(suffix);
    } else {
      ChunkedRoundTrip(blocks[1..], suffix);
      ChunkedBodyCons(blocks, suffix);
      BlockIsRead(blocks[0], ChunkedBody(blocks[1..], suffix), Flat(blocks[1..]), suffix, LongestSizeLine(blocks[1..]));
    }
  }

  lemma BlockIsRead(block: Bytes, more: Bytes, payload: Bytes, rest: Bytes, line: nat)
    requires Unread(Chunked, 0, more) == Whole(payload, rest, line)
    ensures block == [] ==> block + payload == payload
    ensures block != [] ==>
      Unread(Chunked, 0, CRLF + Hex(|block|) + CRLF + (block + more))
      == Whole(block + payload, rest, Max(|Hex(|block|)| + 2, line))
  {
    if block != [] {
      ChunkedStep(block, more);
    }
  }

  /** One chunk read off the front of a stream. */
  lemma ChunkedStep(block: Bytes, more: Bytes)
    requires block != []
    ensures Unread(Chunked, 0, CRLF + Hex(|block|) + CRLF + (block + more))
         == SawLine(|Hex(|block|)| + 2, Prepend(block, Unread(Chunked, 0, more)))
  {
    var n := |block|;
    var s := CRLF + Hex(n) + CRLF + (block + more);
    var p := |Hex(n)| + 2;
    SizeLine(n, block + more);
    assert s[p + 2..] == block + more;
    assert (block + more)[..n] == block && (block + more)[n..] == more;
    assert Unread(Chunked, n, block + more) == Prepend(block, Unread(Chunked, 0, more));
  }
}
