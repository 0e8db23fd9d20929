/**
  The Ethernet driver's two copy loops (libraries/HAL_Drivers/drv_eth.c): transmit gathers a
  pbuf chain into a circular chain of fixed-size DMA buffers, receive scatters it back.
 */
module EthRing {
  import opened Bytes
  import DivMod

  /** A network buffer segment: `len` bytes of `payload`, then the next segment. */
  class Pbuf {
    const next: Pbuf?
    const payload: array<byte>
    const len: nat

    constructor (payload: array<byte>, len: nat, next: Pbuf?)
      ensures this.payload == payload && this.len == len && this.next == next
    {
      this.payload, this.len, this.next := payload, len, next;
    }
  }

  /** `chain` lists the segments reached from `p` through `next`. */
  ghost predicate IsChain(p: Pbuf?, chain: seq<Pbuf>) {
    if chain == [] then p == null
    else p == chain[0] && p.len <= p.payload.Length && IsChain(p.next, chain[1..])
  }

  /** `parts` are the bytes that the segments of the chain hold. */
  ghost predicate Carries(chain: seq<Pbuf>, parts: seq<seq<byte>>)
    reads set q | q in chain :: q.payload
  {
    if chain == [] then parts == []
    else
      && parts != [] && chain[0].len <= chain[0].payload.Length
      && parts[0] == chain[0].payload[..chain[0].len] && Carries(chain[1..], parts[1..])
  }

  // ----- The ring as values -----

  ghost predicate IsImage(rows: seq<seq<byte>>, size: nat) {
    |rows| > 0 && size > 0 && forall d :: 0 <= d < |rows| ==> |rows[d]| == size
  }

  function After(d: nat, count: nat): (r: nat)
    requires d < count
    ensures r < count
  {
    if d + 1 < count then d + 1 else 0
  }

  /** The descriptor reached from `start` after `s` next-pointers. */
  function Walk(start: nat, s: nat, count: nat): (d: nat)
    requires start < count
    ensures d < count
  {
    if s == 0 then start else After(Walk(start, s - 1, count), count)
  }

  lemma {:induction false} WalkClosed(start: nat, s: nat, count: nat)
    requires start < count && s < count
    ensures Walk(start, s, count) == if start + s < count then start + s else start + s - count
  {
    if s > 0 { WalkClosed(start, s - 1, count); }
  }

  lemma {:induction false} WalkTwice(start: nat, s: nat, t: nat, count: nat)
    requires start < count
    ensures Walk(Walk(start, s, count), t, count) == Walk(start, s + t, count)
  {
    if t > 0 { WalkTwice(start, s, t - 1, count); }
  }

  /** Fewer than `count` next-pointers never come back to the same descriptor. */
  lemma WalkInjective(start: nat, s: nat, t: nat, count: nat)
    requires start < count && s < t < s + count
    ensures Walk(start, s, count) != Walk(start, t, count)
  {
    WalkTwice(start, s, t - s, count);
    WalkClosed(Walk(start, s, count), t - s, count);
  }

  lemma OthersApart(start: nat, s: nat, count: nat)
    requires start < count
    ensures forall j: nat :: s - count < j < s ==> Walk(start, j, count) != Walk(start, s, count)
  {
    forall j: nat | s - count < j < s
      ensures Walk(start, j, count) != Walk(start, s, count)
    {
      WalkInjective(start, j, s, count);
    }
  }

  /** The frame of `len` bytes found by following the chain from descriptor `d`. */
  ghost function FrameAt(rows: seq<seq<byte>>, size: nat, d: nat, len: nat): (frame: seq<byte>)
    requires IsImage(rows, size) && d < |rows|
    ensures |frame| == len
    decreases len
  {
    if len <= size then rows[d][..len]
    else rows[d] + FrameAt(rows, size, After(d, |rows|), len - size)
  }

  /** A list of blocks fills whole buffers: every block but the last is full. */
  ghost predicate IsBlocking(blocks: seq<seq<byte>>, size: nat) {
    && |blocks| > 0
    && (forall j :: 0 <= j < |blocks| - 1 ==> |blocks[j]| == size)
    && |blocks[|blocks| - 1]| <= size
    && (|blocks| > 1 ==> |blocks[|blocks| - 1]| > 0)
  }

  /** Buffers that hold the blocks in chain order hold their concatenation as a frame. */
  lemma {:induction false} BlocksAreFrame(rows: seq<seq<byte>>, size: nat, d: nat, blocks: seq<seq<byte>>)
    requires IsImage(rows, size) && d < |rows| && IsBlocking(blocks, size)
    requires forall j :: 0 <= j < |blocks| ==> blocks[j] <= rows[Walk(d, j, |rows|)]
    ensures FrameAt(rows, size, d, |Flat(blocks)|) == Flat(blocks)
    decreases |blocks|
  {
    assert blocks[0] <= rows[Walk(d, 0, |rows|)];
    if |blocks| == 1 {
      assert Flat(blocks[1..]) == [];
    } else {
      var rest, e := blocks[1..], After(d, |rows|);
      forall j | 0 <= j < |rest|
        ensures rest[j] <= rows[Walk(e, j, |rows|)]
      {
        WalkTwice(d, 1, j, |rows|);
      }
      BlocksAreFrame(rows, size, e, rest);
      FlatNonEmpty(rest, size);
    }
  }

  lemma FlatNonEmpty(blocks: seq<seq<byte>>, size: nat)
    requires size > 0 && IsBlocking(blocks, size) && |blocks[|blocks| - 1]| > 0
    ensures |Flat(blocks)| > 0
  {
    if |blocks| == 1 { assert Flat(blocks) == blocks[0] + Flat([]); }
  }

  /** The number of buffers a blocking uses is max(1, ceil(total / size)). */
  lemma {:induction false} BlockCount(blocks: seq<seq<byte>>, size: nat)
    requires size > 0 && IsBlocking(blocks, size)
    ensures |Flat(blocks)| == (|blocks| - 1) * size + |blocks[|blocks| - 1]|
    ensures |blocks| == Buffers(|Flat(blocks)|, size)
  {
    if |blocks| == 1 {
      assert Flat(blocks) == blocks[0] + Flat([]);
    } else {
      BlockCount(blocks[1..], size);
    }
    var n, last := |blocks|, |blocks[|blocks| - 1]|;
    assert |Flat(blocks)| == (n - 1) * size + last;
    if Flat(blocks) != [] {
      assert |Flat(blocks)| + size - 1 == n * size + (last - 1);
      assert last > 0 by { if n == 1 {} }
      DivMod.Unique(|Flat(blocks)| + size - 1, n, last - 1, size);
    }
  }

  /** How many buffers a frame of `len` bytes takes. */
  function Buffers(len: nat, size: nat): (n: nat)
    requires size > 0
  {
    if len == 0 then 1 else (len + size - 1) / size
  }

  /** A frame takes at most `count` buffers exactly when its length is at most `count * size`. */
  lemma BlocksFit(blocks: seq<seq<byte>>, size: nat, count: nat)
    requires size > 0 && count > 0 && IsBlocking(blocks, size)
    ensures |blocks| <= count <==> |Flat(blocks)| <= count * size
  {
    BlockCount(blocks, size);
    if |blocks| <= count {
      DivMod.MulMonotone(|blocks|, count, size);
      assert |blocks| * size == (|blocks| - 1) * size + size;
    } else {
      DivMod.MulMonotone(count, |blocks| - 1, size);
    }
  }

  // ----- What a ring can hold -----

  lemma {:induction false} FrameByte(rows: seq<seq<byte>>, size: nat, d: nat, len: nat, s: nat)
    requires IsImage(rows, size) && d < |rows| && s * size < len
    ensures FrameAt(rows, size, d, len)[s * size] == rows[Walk(d, s, |rows|)][0]
    decreases s
  {
    if s > 0 {
      assert s * size == (s - 1) * size + size && (s - 1) * size >= 0;
      WalkTwice(d, 1, s - 1, |rows|);
      FrameByte(rows, size, After(d, |rows|), len - size, s - 1);
    }
  }

  /** One more next-pointer than there are descriptors: back to the start. */
  lemma WalkRound(start: nat, count: nat)
    requires start < count
    ensures Walk(start, count, count) == start
  {
    WalkClosed(start, count - 1, count);
  }

  /** The rows that a frame which fits is cut into; the rows past its end are zero. */
  ghost function Cut(frame: seq<byte>, size: nat, n: nat): (blocks: seq<seq<byte>>)
    ensures |blocks| == n && forall j :: 0 <= j < n ==> |blocks[j]| == size
    decreases n
  {
    if n == 0 then []
    else if |frame| >= size then [frame[..size]] + Cut(frame[size..], size, n - 1)
    else [frame + seq(size - |frame|, _ => 0)] + Cut([], size, n - 1)
  }

  /** The buffers from descriptor `d` on, in chain order, hold these blocks. */
  ghost predicate InOrder(rows: seq<seq<byte>>, d: nat, blocks: seq<seq<byte>>)
    requires d < |rows|
    decreases |blocks|
  {
    blocks == [] || (rows[d] == blocks[0] && InOrder(rows, After(d, |rows|), blocks[1..]))
  }

  lemma {:induction false} WalkInOrder(rows: seq<seq<byte>>, d: nat, blocks: seq<seq<byte>>)
    requires d < |rows|
    requires forall j :: 0 <= j < |blocks| ==> rows[Walk(d, j, |rows|)] == blocks[j]
    ensures InOrder(rows, d, blocks)
    decreases |blocks|
  {
    if blocks != [] {
      assert rows[Walk(d, 0, |rows|)] == blocks[0];
      var e, rest := After(d, |rows|), blocks[1..];
      forall j | 0 <= j < |rest|
        ensures rows[Walk(e, j, |rows|)] == rest[j]
      {
        WalkTwice(d, 1, j, |rows|);
      }
      WalkInOrder(rows, e, rest);
    }
  }

  lemma {:induction false} CutHolds(frame: seq<byte>, size: nat, d: nat, n: nat, rows: seq<seq<byte>>)
    requires IsImage(rows, size) && d < |rows| && Fits(|frame|, size, n)
    requires InOrder(rows, d, Cut(frame, size, n))
    ensures FrameAt(rows, size, d, |frame|) == frame
    decreases n
  {
    if |frame| > size {
      var cut := Cut(frame[size..], size, n - 1);
      assert Cut(frame, size, n) == [frame[..size]] + cut;
      assert Cut(frame, size, n)[1..] == cut;
      CutHolds(frame[size..], size, After(d, |rows|), n - 1, rows);
      assert frame == frame[..size] + frame[size..];
    } else if n > 0 {
      assert frame <= Cut(frame, size, n)[0];
    }
  }

  /** `len` bytes fit in `n` buffers. */
  ghost predicate Fits(len: nat, size: nat, n: nat) {
    if n == 0 then len == 0 else len <= size || Fits(len - size, size, n - 1)
  }

  lemma {:induction false} FitsExactly(len: nat, size: nat, n: nat)
    ensures Fits(len, size, n) <==> len <= n * size
  {
    if n > 0 {
      assert n * size == (n - 1) * size + size && (n - 1) * size >= 0;
      if len > size { FitsExactly(len - size, size, n - 1); }
    }
  }

  /** Some contents of the ring, read from descriptor `d`, are this frame. */
  ghost predicate Holdable(frame: seq<byte>, size: nat, d: nat, count: nat)
    requires d < count
  {
    exists rows :: |rows| == count && IsImage(rows, size) && FrameAt(rows, size, d, |frame|) == frame
  }

  /** The rows put so that the chain meets them in order from descriptor `d` on. */
  ghost function Rotated(blocks: seq<seq<byte>>, d: nat): (rows: seq<seq<byte>>)
    requires d < |blocks|
    ensures |rows| == |blocks|
  {
    blocks[|blocks| - d..] + blocks[..|blocks| - d]
  }

  lemma RotatedWalk(blocks: seq<seq<byte>>, d: nat, j: nat)
    requires d < |blocks| && j < |blocks|
    ensures Rotated(blocks, d)[Walk(d, j, |blocks|)] == blocks[j]
  {
    WalkClosed(d, j, |blocks|);
  }

  lemma RotatedImage(blocks: seq<seq<byte>>, d: nat, size: nat)
    requires d < |blocks| && IsImage(blocks, size)
    ensures IsImage(Rotated(blocks, d), size)
  {}

  lemma FitIsHoldable(frame: seq<byte>, size: nat, d: nat, count: nat)
    requires size > 0 && d < count && Fits(|frame|, size, count)
    ensures Holdable(frame, size, d, count)
  {
    var cut := Cut(frame, size, count);
    var rows := Rotated(cut, d);
    RotatedImage(cut, d, size);
    forall j: nat | j < count
      ensures rows[Walk(d, j, count)] == cut[j]
    {
      RotatedWalk(cut, d, j);
    }
    WalkInOrder(rows, d, cut);
    CutHolds(frame, size, d, count, rows);
  }

  /** A longer frame wraps onto its own first buffer: byte `count * size` is read back as byte 0. */
  lemma OversizeWraps(rows: seq<seq<byte>>, size: nat, d: nat, len: nat)
    requires IsImage(rows, size) && d < |rows| && |rows| * size < len
    ensures FrameAt(rows, size, d, len)[|rows| * size] == FrameAt(rows, size, d, len)[0]
  {
    WalkRound(d, |rows|);
    FrameByte(rows, size, d, len, |rows|);
    assert 0 * size == 0 <= |rows| * size;
    FrameByte(rows, size, d, len, 0);
  }

  /** The ring can hold every frame of a given length exactly when the frame fits. */
  lemma RingCapacity(len: nat, size: nat, d: nat, count: nat)
    requires size > 0 && d < count
    ensures (forall frame: seq<byte> :: |frame| == len ==> Holdable(frame, size, d, count)) <==> len <= count * size
  {
    FitsExactly(len, size, count);
    if len <= count * size {
      forall frame: seq<byte> | |frame| == len
        ensures Holdable(frame, size, d, count)
      {
        FitIsHoldable(frame, size, d, count);
      }
    } else {
      assert count * size > 0;
      var frame := seq(len, k => if k == 0 then 1 else 0 as byte);
      assert frame[count * size] != frame[0];
      forall rows: seq<seq<byte>> | |rows| == count && IsImage(rows, size)
        ensures FrameAt(rows, size, d, |frame|) != frame
      {
        OversizeWraps(rows, size, d, len);
      }
      assert !Holdable(frame, size, d, count);
    }
  }

  // ----- The driver -----

  datatype TxResult = ErrUse | ErrOk(frameLength: nat)

  /** A descriptor table: each descriptor owns one buffer and points to the next one. */
  class DescRing {
    const size: nat
    const count: nat
    const buffers: seq<array<byte>>
    const next: seq<nat>
    /** The descriptors whose status word has the OWN bit set: they belong to the DMA. */
    var owned: set<nat>
    ghost const Repr: set<object>

    ghost predicate Valid() {
      && 0 < size && 0 < count
      && |buffers| == |next| == count
      && (forall d :: 0 <= d < count ==> buffers[d].Length == size && buffers[d] in Repr)
      && this in Repr
      && (forall d, e :: 0 <= d < e < count ==> buffers[d] != buffers[e])
      && (forall d :: 0 <= d < count ==> next[d] == After(d, count))
    }

    ghost function Rows(): (rows: seq<seq<byte>>)
      requires Valid()
      reads buffers
      ensures |rows| == count && IsImage(rows, size)
    {
      seq(count, d requires 0 <= d < count reads buffers => buffers[d][..])
    }

    constructor (count: nat, size: nat)
      requires 0 < size && 0 < count
      ensures Valid() && this.count == count && this.size == size
      ensures fresh(Repr) && owned == {}
    {
      this.size, this.count := size, count;
      var bs: seq<array<byte>> := [];
      ghost var repr: set<object> := {};
      for i := 0 to count
        invariant |bs| == i
        invariant forall d :: 0 <= d < i ==> bs[d].Length == size && bs[d] in repr
        invariant fresh(repr)
        invariant forall d, e :: 0 <= d < e < i ==> bs[d] != bs[e]
      {
        var b := new byte[size];
        bs, repr := bs + [b], repr + {b};
      }
      this.buffers := bs;
      this.next := seq(count, d requires 0 <= d < count => After(d, count));
      this.owned := {};
      this.Repr := repr + {this};
    }

    /** The DMA may at any moment be done with descriptors it owns; it never takes one by itself. */
    method DmaReleases()
      requires Valid()
      modifies this
      ensures owned <= old(owned)
    {
      var still: set<nat> :| still <= owned;
      owned := still;
    }
  }

  method CopyBytes(dst: array<byte>, dstAt: nat, src: array<byte>, srcAt: nat, n: nat)
    requires dst != src
    requires dstAt + n <= dst.Length && srcAt + n <= src.Length
    modifies dst
    ensures dst[..] == old(dst[..dstAt]) + src[srcAt..srcAt + n] + old(dst[dstAt + n..])
  {
    for i := 0 to n
      invariant forall k :: dstAt <= k < dstAt + i ==> dst[k] == src[srcAt + (k - dstAt)]
      invariant forall k :: 0 <= k < dstAt ==> dst[k] == old(dst[k])
      invariant forall k :: dstAt + i <= k < dst.Length ==> dst[k] == old(dst[k])
    {
      dst[dstAt + i] := src[srcAt + i];
    }
  }

  /** The finished blocks not yet overtaken by a second lap are still in their buffers. */
  ghost predicate Holds(ring: DescRing, start: nat, blocks: seq<seq<byte>>)
    requires ring.Valid() && start < ring.count
    reads ring.buffers
  {
    forall j :: 0 <= j < |blocks| && |blocks| - ring.count < j ==>
      ring.buffers[Walk(start, j, ring.count)][..] == blocks[j]
  }

  /** Every descriptor filled so far, and the current one, belongs to the CPU. */
  ghost predicate CpuOwned(ring: DescRing, start: nat, n: nat)
    requires ring.Valid() && start < ring.count
    reads ring
  {
    forall j :: 0 <= j <= n ==> Walk(start, j, ring.count) !in ring.owned
  }

  /** The cursors of the transmit loop: `data` is what has been copied so far. */
  ghost predicate TxCursor(ring: DescRing, start: nat, desc: nat, bufferOffset: nat,
                           blocks: seq<seq<byte>>, data: seq<byte>)
    requires ring.Valid() && start < ring.count
    reads ring.buffers
  {
    && desc == Walk(start, |blocks|, ring.count)
    && bufferOffset <= ring.size
    && (forall j :: 0 <= j < |blocks| ==> |blocks[j]| == ring.size)
    && Flat(blocks) + ring.buffers[desc][..bufferOffset] == data
    && Holds(ring, start, blocks)
  }

  /** The `n` descriptors from `first` on, in chain order. */
  ghost function Span(first: nat, n: nat, count: nat): set<nat>
    requires first < count
  {
    if n == 0 then {} else Span(first, n - 1, count) + {Walk(first, n - 1, count)}
  }

  /** One of the first `n` descriptors from `first` on. */
  ghost predicate Reaches(first: nat, n: nat, count: nat, d: nat)
    requires first < count
  {
    exists j: nat :: j < n && Walk(first, j, count) == d
  }

  lemma {:induction false} SpanMember(first: nat, n: nat, count: nat, d: nat)
    requires first < count
    ensures d in Span(first, n, count) <==> Reaches(first, n, count, d)
  {
    if n > 0 {
      var last: nat := n - 1;
      SpanMember(first, last, count, d);
      assert Span(first, n, count) == Span(first, last, count) + {Walk(first, last, count)};
      assert Reaches(first, n, count, d) <==> Reaches(first, last, count, d) || Walk(first, last, count) == d;
    }
  }

  /** Within one lap these are `n` different descriptors. */
  lemma {:induction false} SpanSize(first: nat, n: nat, count: nat)
    requires first < count && n <= count
    ensures |Span(first, n, count)| == n
  {
    if n > 0 {
      SpanSize(first, n - 1, count);
      SpanMember(first, n - 1, count, Walk(first, n - 1, count));
      OthersApart(first, n - 1, count);
    }
  }

  /**
    The buffers of the descriptors that the DMA owns, and of those that the first `n` next-pointers
    from `start` do not reach, hold what they held in `rows`.
   */
  ghost predicate Untouched(ring: DescRing, start: nat, n: nat, rows: seq<seq<byte>>)
    requires ring.Valid() && start < ring.count && |rows| == ring.count
    reads ring, ring.buffers
  {
    forall d :: 0 <= d < ring.count && (d in ring.owned || d !in Span(start, n, ring.count)) ==>
      ring.buffers[d][..] == rows[d]
  }

  /** The stack's segments are not the driver's own buffers. */
  ghost predicate Apart(ring: DescRing, q: Pbuf) {
    q.payload !in ring.Repr
  }

  /** How much of the frame a failed transmit had already put into full buffers. */
  ghost predicate StoppedAfter(blocks: seq<seq<byte>>, size: nat, data: seq<byte>) {
    && (forall j :: 0 <= j < |blocks| ==> |blocks[j]| == size)
    && Flat(blocks) <= data
    && (blocks != [] ==> |Flat(blocks)| < |data|)
  }

  /**
    A transmit stopped at a descriptor that the DMA owns. The descriptors before it belong to the CPU,
    and their buffers hold the full blocks.
   */
  ghost predicate Stopped(ring: DescRing, start: nat, blocks: seq<seq<byte>>, data: seq<byte>)
    requires ring.Valid() && start < ring.count
    reads ring, ring.buffers
  {
    && StoppedAfter(blocks, ring.size, data) && Holds(ring, start, blocks)
    && Walk(start, |blocks|, ring.count) in ring.owned
    && (forall j :: 0 <= j < |blocks| ==> Walk(start, j, ring.count) !in ring.owned)
  }

  lemma StoppedEarlier(blocks: seq<seq<byte>>, size: nat, data: seq<byte>, all: seq<byte>)
    requires StoppedAfter(blocks, size, data) && data <= all
    ensures StoppedAfter(blocks, size, all)
  {}

  lemma StoppedInside(blocks: seq<seq<byte>>, size: nat, data: seq<byte>, payload: seq<byte>, at: nat, len: nat)
    requires at < len <= |payload| && Flat(blocks) == data + payload[..at]
    requires forall j :: 0 <= j < |blocks| ==> |blocks[j]| == size
    ensures StoppedAfter(blocks, size, data + payload[..len])
  {
    Extend(data, payload, at, len - at);
  }

  /** `n` bytes of the segment into the current buffer. */
  method Put(ring: DescRing, start: nat, desc: nat, bufferOffset: nat, q: Pbuf, payloadOffset: nat, n: nat,
             ghost blocks: seq<seq<byte>>, ghost data: seq<byte>, ghost rows: seq<seq<byte>>)
    requires ring.Valid() && start < ring.count && Apart(ring, q)
    requires |rows| == ring.count && Untouched(ring, start, |blocks| + 1, rows)
    requires TxCursor(ring, start, desc, bufferOffset, blocks, data) && CpuOwned(ring, start, |blocks|)
    requires bufferOffset + n <= ring.size && payloadOffset + n <= q.payload.Length
    modifies ring.buffers[desc]
    ensures Untouched(ring, start, |blocks| + 1, rows)
    ensures TxCursor(ring, start, desc, bufferOffset + n, blocks, data + q.payload[payloadOffset..payloadOffset + n])
  {
    var buffer := ring.buffers[desc];
    ghost var cur := buffer[..bufferOffset];
    OthersApart(start, |blocks|, ring.count);
    CopyBytes(buffer, bufferOffset, q.payload, payloadOffset, n);
    assert buffer[..bufferOffset + n] == cur + q.payload[payloadOffset..payloadOffset + n];
  }

  /** A full buffer becomes a finished block, and the cursor is at the start of the next buffer. */
  lemma NextDescriptor(ring: DescRing, start: nat, desc: nat, blocks: seq<seq<byte>>, data: seq<byte>)
    requires ring.Valid() && start < ring.count
    requires TxCursor(ring, start, desc, ring.size, blocks, data)
    ensures TxCursor(ring, start, ring.next[desc], 0, blocks + [ring.buffers[desc][..]], data)
    ensures Flat(blocks + [ring.buffers[desc][..]]) == data
  {
    FlatSnoc(blocks, ring.buffers[desc][..]);
  }

  /** Fills the current buffer to its end and moves on, unless the DMA still owns the next one. */
  method FillAndAdvance(ring: DescRing, start: nat, desc0: nat, bufferOffset: nat, q: Pbuf, payloadOffset: nat,
                        ghost blocks0: seq<seq<byte>>, ghost data: seq<byte>, ghost rows: seq<seq<byte>>)
    returns (ok: bool, desc: nat, ghost blocks: seq<seq<byte>>)
    requires ring.Valid() && start < ring.count && Apart(ring, q)
    requires |rows| == ring.count && Untouched(ring, start, |blocks0| + 1, rows)
    requires TxCursor(ring, start, desc0, bufferOffset, blocks0, data) && CpuOwned(ring, start, |blocks0|)
    requires payloadOffset + (ring.size - bufferOffset) <= q.payload.Length
    modifies ring, ring.buffers[desc0]
    ensures Untouched(ring, start, |blocks|, rows) && ring.owned <= old(ring.owned)
    ensures |blocks| == |blocks0| + 1 && CpuOwned(ring, start, |blocks0|)
    ensures var all := data + q.payload[payloadOffset..payloadOffset + (ring.size - bufferOffset)];
            TxCursor(ring, start, desc, 0, blocks, all) && Flat(blocks) == all
    ensures if ok then CpuOwned(ring, start, |blocks|) else desc in ring.owned
  {
    var n := ring.size - bufferOffset;
    Put(ring, start, desc0, bufferOffset, q, payloadOffset, n, blocks0, data, rows);
    NextDescriptor(ring, start, desc0, blocks0, data + q.payload[payloadOffset..payloadOffset + n]);
    blocks := blocks0 + [ring.buffers[desc0][..]];
    desc := ring.next[desc0];
    ring.DmaReleases();
    ok := desc !in ring.owned;
  }

  /** Fills whole buffers from the segment while what is left of it overflows the current one. */
  method FillBuffers(ring: DescRing, start: nat, desc0: nat, bufferOffset0: nat, q: Pbuf,
                     ghost blocks0: seq<seq<byte>>, ghost data: seq<byte>, ghost rows: seq<seq<byte>>)
    returns (ok: bool, desc: nat, bufferOffset: nat, payloadOffset: nat, ghost blocks: seq<seq<byte>>)
    requires ring.Valid() && start < ring.count && Apart(ring, q) && q.len <= q.payload.Length
    requires |rows| == ring.count && Untouched(ring, start, |blocks0| + 1, rows)
    requires TxCursor(ring, start, desc0, bufferOffset0, blocks0, data) && CpuOwned(ring, start, |blocks0|)
    requires blocks0 != [] ==> bufferOffset0 > 0
    modifies ring.Repr
    ensures Untouched(ring, start, if ok then |blocks| + 1 else |blocks|, rows)
    ensures ring.owned <= old(ring.owned)
    ensures payloadOffset <= q.len
    ensures ok ==>
      && TxCursor(ring, start, desc, bufferOffset, blocks, data + q.payload[..payloadOffset])
      && CpuOwned(ring, start, |blocks|)
      && q.len - payloadOffset + bufferOffset <= ring.size
      && (blocks != [] ==> bufferOffset + (q.len - payloadOffset) > 0)
    ensures !ok ==>
      blocks != [] && Stopped(ring, start, blocks, data + q.payload[..q.len])
  {
    desc, bufferOffset, payloadOffset, blocks := desc0, bufferOffset0, 0, blocks0;
    var bytesLeftToCopy: nat := q.len;
    ghost var payload, done := q.payload[..], data;
    Extend(data, payload, 0, 0);
    ok := true;
    while bytesLeftToCopy + bufferOffset > ring.size
      invariant ok && payloadOffset + bytesLeftToCopy == q.len
      invariant TxCursor(ring, start, desc, bufferOffset, blocks, done) && done == data + payload[..payloadOffset]
      invariant CpuOwned(ring, start, |blocks|)
      invariant blocks != [] ==> bufferOffset + bytesLeftToCopy > 0
      invariant Untouched(ring, start, |blocks| + 1, rows) && ring.owned <= old(ring.owned) && q.payload[..] == payload
      decreases bytesLeftToCopy + bufferOffset
    {
      var n := ring.size - bufferOffset;
      ok, desc, blocks := FillAndAdvance(ring, start, desc, bufferOffset, q, payloadOffset, blocks, done, rows);
      done := done + payload[payloadOffset..payloadOffset + n];
      Extend(data, payload, payloadOffset, n);
      bytesLeftToCopy, payloadOffset := bytesLeftToCopy - n, payloadOffset + n;
      if !ok {
        StoppedInside(blocks, ring.size, data, payload, payloadOffset, q.len);
        return;
      }
      bufferOffset := 0;
    }
  }

  /** What is left of the segment, which the current buffer has room for. */
  method PutRest(ring: DescRing, start: nat, desc: nat, bufferOffset0: nat, q: Pbuf, payloadOffset: nat,
                 ghost part: seq<byte>, ghost blocks: seq<seq<byte>>, ghost data: seq<byte>, ghost rows: seq<seq<byte>>)
    returns (bufferOffset: nat)
    requires ring.Valid() && start < ring.count && Apart(ring, q)
    requires q.len <= q.payload.Length && part == q.payload[..q.len] && payloadOffset <= q.len
    requires |rows| == ring.count && Untouched(ring, start, |blocks| + 1, rows) && CpuOwned(ring, start, |blocks|)
    requires TxCursor(ring, start, desc, bufferOffset0, blocks, data + q.payload[..payloadOffset])
    requires q.len - payloadOffset + bufferOffset0 <= ring.size
    modifies ring.buffers[desc]
    ensures Untouched(ring, start, |blocks| + 1, rows) && bufferOffset == bufferOffset0 + (q.len - payloadOffset)
    ensures TxCursor(ring, start, desc, bufferOffset, blocks, data + part)
  {
    ghost var payload := q.payload[..];
    var n := q.len - payloadOffset;
    Put(ring, start, desc, bufferOffset0, q, payloadOffset, n, blocks, data + payload[..payloadOffset], rows);
    Extend(data, payload, payloadOffset, n);
    bufferOffset := bufferOffset0 + n;
  }

  /** The copy of one segment across as many buffers as it takes. */
  method CopySegment(ring: DescRing, start: nat, desc0: nat, bufferOffset0: nat, q: Pbuf, ghost part: seq<byte>,
                     ghost blocks0: seq<seq<byte>>, ghost data: seq<byte>, ghost rows: seq<seq<byte>>)
    returns (ok: bool, desc: nat, bufferOffset: nat, ghost blocks: seq<seq<byte>>)
    requires ring.Valid() && start < ring.count && Apart(ring, q)
    requires q.len <= q.payload.Length && part == q.payload[..q.len]
    requires |rows| == ring.count && Untouched(ring, start, |blocks0| + 1, rows)
    requires TxCursor(ring, start, desc0, bufferOffset0, blocks0, data) && CpuOwned(ring, start, |blocks0|)
    requires blocks0 != [] ==> bufferOffset0 > 0
    modifies ring.Repr
    ensures Untouched(ring, start, if ok then |blocks| + 1 else |blocks|, rows)
    ensures ring.owned <= old(ring.owned)
    ensures ok ==>
      && TxCursor(ring, start, desc, bufferOffset, blocks, data + part)
      && CpuOwned(ring, start, |blocks|) && (blocks != [] ==> bufferOffset > 0)
    ensures !ok ==> Stopped(ring, start, blocks, data + part)
  {
    var payloadOffset;
    ok, desc, bufferOffset, payloadOffset, blocks :=
      FillBuffers(ring, start, desc0, bufferOffset0, q, blocks0, data, rows);
    assert part == q.payload[..q.len];
    if ok {
      bufferOffset := PutRest(ring, start, desc, bufferOffset, q, payloadOffset, part, blocks, data, rows);
    }
  }

  /** What a successful transmit leaves in the ring. */
  ghost predicate Gathered(ring: DescRing, txDesc: nat, blocks: seq<seq<byte>>, frame: seq<byte>)
    requires ring.Valid() && txDesc < ring.count
    reads ring.buffers
  {
    && IsBlocking(blocks, ring.size) && Flat(blocks) == frame
    && (forall j :: 0 <= j < |blocks| && |blocks| - ring.count <= j ==>
          blocks[j] <= ring.buffers[Walk(txDesc, j, ring.count)][..])
  }

  /** The transmit loop between segments: `rest` is the chain still to send and `toGo` its bytes. */
  ghost predicate TxLoop(ring: DescRing, start: nat, desc: nat, bufferOffset: nat, q: Pbuf?, rest: seq<Pbuf>,
                         toGo: seq<seq<byte>>, blocks: seq<seq<byte>>, done: seq<byte>, rows: seq<seq<byte>>)
    requires ring.Valid() && start < ring.count
    reads ring, ring.buffers, set r | r in rest :: r.payload
  {
    && IsChain(q, rest) && Carries(rest, toGo) && (forall r :: r in rest ==> Apart(ring, r))
    && TxCursor(ring, start, desc, bufferOffset, blocks, done)
    && (blocks != [] ==> bufferOffset > 0 && CpuOwned(ring, start, |blocks|))
    && |rows| == ring.count && Untouched(ring, start, |blocks| + 1, rows)
  }

  /** One segment: the ownership test, then the copy. */
  method SendSegment(ring: DescRing, start: nat, desc0: nat, bufferOffset0: nat, q: Pbuf, ghost rest: seq<Pbuf>,
                     ghost toGo: seq<seq<byte>>, ghost blocks0: seq<seq<byte>>, ghost done: seq<byte>,
                     ghost rows: seq<seq<byte>>)
    returns (ok: bool, desc: nat, bufferOffset: nat, ghost blocks: seq<seq<byte>>)
    requires ring.Valid() && start < ring.count
    requires TxLoop(ring, start, desc0, bufferOffset0, q, rest, toGo, blocks0, done, rows)
    modifies ring.Repr
    ensures Untouched(ring, start, if ok then |blocks| + 1 else |blocks|, rows)
    ensures ring.owned <= old(ring.owned)
    ensures ok ==>
      && TxLoop(ring, start, desc, bufferOffset, q.next, rest[1..], toGo[1..], blocks, done + toGo[0], rows)
      && CpuOwned(ring, start, |blocks|)
    ensures !ok ==> Stopped(ring, start, blocks, done + toGo[0])
  {
    ring.DmaReleases();
    if desc0 in ring.owned {
      return false, desc0, bufferOffset0, blocks0;
    }
    ok, desc, bufferOffset, blocks := CopySegment(ring, start, desc0, bufferOffset0, q, toGo[0], blocks0, done, rows);
    assert Carries(rest, toGo);
  }

  /** The filled part of the current buffer is the last block. */
  lemma LastBlock(ring: DescRing, txDesc: nat, desc: nat, bufferOffset: nat, blocks: seq<seq<byte>>, data: seq<byte>)
    requires ring.Valid() && txDesc < ring.count
    requires TxCursor(ring, txDesc, desc, bufferOffset, blocks, data) && (blocks != [] ==> bufferOffset > 0)
    ensures var all := blocks + [ring.buffers[desc][..bufferOffset]];
            && Gathered(ring, txDesc, all, data) && |all| == Buffers(|data|, ring.size)
            && (|data| <= ring.count * ring.size ==> FrameAt(ring.Rows(), ring.size, txDesc, |data|) == data)
  {
    var all := blocks + [ring.buffers[desc][..bufferOffset]];
    FlatSnoc(blocks, ring.buffers[desc][..bufferOffset]);
    BlockCount(all, ring.size);
    BlocksFit(all, ring.size, ring.count);
    if |all| <= ring.count {
      BlocksAreFrame(ring.Rows(), ring.size, txDesc, all);
    }
  }

  /** One round of the loop over the segments of a frame `all`. */
  method GatherStep(ring: DescRing, start: nat, desc0: nat, bufferOffset0: nat, q: Pbuf, ghost rest: seq<Pbuf>,
                    ghost toGo: seq<seq<byte>>, ghost blocks0: seq<seq<byte>>, ghost done0: seq<byte>,
                    ghost rows: seq<seq<byte>>, ghost all: seq<byte>)
    returns (ok: bool, desc: nat, bufferOffset: nat, ghost blocks: seq<seq<byte>>, ghost done: seq<byte>)
    requires ring.Valid() && start < ring.count
    requires TxLoop(ring, start, desc0, bufferOffset0, q, rest, toGo, blocks0, done0, rows)
    requires done0 + Flat(toGo) == all
    modifies ring.Repr
    ensures Untouched(ring, start, if ok then |blocks| + 1 else |blocks|, rows)
    ensures ring.owned <= old(ring.owned)
    ensures |rest| > 0 && |toGo| > 0 && |done| == |done0| + q.len && done + Flat(toGo[1..]) == all
    ensures ok ==>
      && TxLoop(ring, start, desc, bufferOffset, q.next, rest[1..], toGo[1..], blocks, done, rows)
      && CpuOwned(ring, start, |blocks|)
    ensures !ok ==> Stopped(ring, start, blocks, all)
  {
    FlatPop(done0, toGo);
    done := done0 + toGo[0];
    ok, desc, bufferOffset, blocks :=
      SendSegment(ring, start, desc0, bufferOffset0, q, rest, toGo, blocks0, done0, rows);
    if !ok {
      StoppedEarlier(blocks, ring.size, done, all);
    }
  }

  /** The loop over the segments. */
  method GatherChain(ring: DescRing, txDesc: nat, p: Pbuf?, ghost chain: seq<Pbuf>, ghost parts: seq<seq<byte>>)
    returns (ok: bool, desc: nat, bufferOffset: nat, frameLength: nat, ghost blocks: seq<seq<byte>>)
    requires ring.Valid() && txDesc < ring.count
    requires IsChain(p, chain) && Carries(chain, parts) && (forall q :: q in chain ==> Apart(ring, q))
    modifies ring.Repr
    ensures Untouched(ring, txDesc, if ok then |blocks| + 1 else |blocks|, old(ring.Rows()))
    ensures ring.owned <= old(ring.owned)
    ensures ok ==>
      && TxCursor(ring, txDesc, desc, bufferOffset, blocks, Flat(parts)) && frameLength == |Flat(parts)|
      && (blocks != [] ==> bufferOffset > 0) && (chain != [] ==> CpuOwned(ring, txDesc, |blocks|))
    ensures !ok ==>
      chain != [] && Stopped(ring, txDesc, blocks, Flat(parts))
  {
    ok, desc, bufferOffset, frameLength, blocks := true, txDesc, 0, 0, [];
    var q := p;
    ghost var rows, done, all := ring.Rows(), [], Flat(parts);
    ghost var rest, toGo := chain, parts;
    while q != null
      invariant ok && TxLoop(ring, txDesc, desc, bufferOffset, q, rest, toGo, blocks, done, rows)
      invariant done + Flat(toGo) == all && frameLength == |done|
      invariant |rest| < |chain| ==> CpuOwned(ring, txDesc, |blocks|)
      invariant |rest| <= |chain| && ring.owned <= old(ring.owned)
      decreases |rest|
    {
      ok, desc, bufferOffset, blocks, done :=
        GatherStep(ring, txDesc, desc, bufferOffset, q, rest, toGo, blocks, done, rows, all);
      if !ok {
        return;
      }
      frameLength := frameLength + q.len;
      q := q.next;
      rest, toGo := rest[1..], toGo[1..];
    }
  }

  /**
    Gathers the chain into the ring from descriptor `txDesc` and hands the frame over.
    `blocks` is what went into each buffer used, in chain order. A frame that fits can be
    read back whole; a longer one keeps only its last `count` blocks. The DMA may release
    descriptors at every ownership test.
   */
  method Transmit(ring: DescRing, txDesc: nat, p: Pbuf?, ghost chain: seq<Pbuf>, ghost parts: seq<seq<byte>>)
    returns (ret: TxResult, ghost blocks: seq<seq<byte>>)
    requires ring.Valid() && txDesc < ring.count
    requires IsChain(p, chain) && Carries(chain, parts) && (forall q :: q in chain ==> Apart(ring, q))
    modifies ring.Repr
    ensures Untouched(ring, txDesc, |blocks|, old(ring.Rows())) && ring.owned <= old(ring.owned)
    ensures ret.ErrOk? ==>
      && ret.frameLength == |Flat(parts)| && Gathered(ring, txDesc, blocks, Flat(parts))
      && |blocks| == Buffers(|Flat(parts)|, ring.size)
      && (chain != [] ==> CpuOwned(ring, txDesc, |blocks| - 1))
    ensures ret.ErrOk? && |Flat(parts)| <= ring.count * ring.size ==>
      FrameAt(ring.Rows(), ring.size, txDesc, |Flat(parts)|) == Flat(parts)
    ensures ret.ErrUse? ==>
      chain != [] && Stopped(ring, txDesc, blocks, Flat(parts))
  {
    var ok, desc, bufferOffset, frameLength;
    ok, desc, bufferOffset, frameLength, blocks := GatherChain(ring, txDesc, p, chain, parts);
    if !ok {
      return ErrUse, blocks;
    }
    LastBlock(ring, txDesc, desc, bufferOffset, blocks, Flat(parts));
    blocks := blocks + [ring.buffers[desc][..bufferOffset]];
    ret := ErrOk(frameLength);
  }

  // ----- Receive -----

  /** The `len` bytes that follow offset `off` of descriptor `d`'s buffer. */
  ghost function Rest(rows: seq<seq<byte>>, size: nat, d: nat, off: nat, len: nat): (bytes: seq<byte>)
    requires IsImage(rows, size) && d < |rows| && off <= size
    ensures |bytes| == len
    decreases off + len
  {
    if off + len <= size then rows[d][off..off + len]
    else rows[d][off..] + Rest(rows, size, After(d, |rows|), 0, len - (size - off))
  }

  lemma {:induction false} RestIsFrame(rows: seq<seq<byte>>, size: nat, d: nat, len: nat)
    requires IsImage(rows, size) && d < |rows|
    ensures Rest(rows, size, d, 0, len) == FrameAt(rows, size, d, len)
    decreases len
  {
    if len > size { RestIsFrame(rows, size, After(d, |rows|), len - size); }
  }

  lemma RestSplit(rows: seq<seq<byte>>, size: nat, d: nat, off: nat, n: nat, len: nat)
    requires IsImage(rows, size) && d < |rows| && off + n <= size && n <= len
    ensures Rest(rows, size, d, off, len) == rows[d][off..off + n] + Rest(rows, size, d, off + n, len - n)
  {
    assert rows[d][off..] == rows[d][off..off + n] + rows[d][off + n..];
  }

  ghost function TotalLen(chain: seq<Pbuf>): nat {
    if chain == [] then 0 else chain[0].len + TotalLen(chain[1..])
  }

  /** Segments that share no memory with each other. */
  ghost predicate Disjoint(chain: seq<Pbuf>) {
    forall i, j :: 0 <= i < j < |chain| ==> chain[i].payload != chain[j].payload
  }

  /** What the MAC reports about a received frame. */
  class RxFrameInfos {
    var fsRxDesc: nat
    var segCount: nat
    var length: nat
    constructor () {}
  }

  lemma {:induction false} CarriesAll(chain: seq<Pbuf>, parts: seq<seq<byte>>)
    requires |chain| == |parts|
    requires forall k :: 0 <= k < |chain| ==>
      chain[k].len <= chain[k].payload.Length && parts[k] == chain[k].payload[..chain[k].len]
    ensures Carries(chain, parts)
  {
    if chain != [] { CarriesAll(chain[1..], parts[1..]); }
  }

  lemma RestWrap(rows: seq<seq<byte>>, size: nat, d: nat, len: nat)
    requires IsImage(rows, size) && d < |rows| && len > 0
    ensures Rest(rows, size, d, size, len) == Rest(rows, size, After(d, |rows|), 0, len)
  {}

  /** `rows` are the contents of the buffers. */
  ghost predicate Shows(ring: DescRing, rows: seq<seq<byte>>)
    requires ring.Valid()
    reads ring.buffers
  {
    && |rows| == ring.count && IsImage(rows, ring.size)
    && (forall d :: 0 <= d < ring.count ==> rows[d] == ring.buffers[d][..])
  }

  /** The cursors inside a segment: what it holds and the `left` bytes ahead in the ring make up `frame`. */
  ghost predicate Taking(ring: DescRing, desc: nat, bufferOffset: nat, q: Pbuf, payloadOffset: nat,
                         rows: seq<seq<byte>>, frame: seq<byte>, left: nat)
    requires ring.Valid()
    reads ring.buffers, q.payload
  {
    && Shows(ring, rows) && desc < ring.count && bufferOffset <= ring.size && payloadOffset <= q.payload.Length
    && frame == q.payload[..payloadOffset] + Rest(rows, ring.size, desc, bufferOffset, left)
  }

  /** `n` bytes of the current buffer into the segment. */
  method Take(ring: DescRing, desc: nat, bufferOffset: nat, q: Pbuf, payloadOffset: nat, n: nat,
              ghost rows: seq<seq<byte>>, ghost frame: seq<byte>, ghost left: nat)
    requires ring.Valid() && Apart(ring, q) && Taking(ring, desc, bufferOffset, q, payloadOffset, rows, frame, left)
    requires bufferOffset + n <= ring.size && payloadOffset + n <= q.payload.Length && n <= left
    modifies q.payload
    ensures Taking(ring, desc, bufferOffset + n, q, payloadOffset + n, rows, frame, left - n)
  {
    ghost var got := q.payload[..payloadOffset];
    RestSplit(rows, ring.size, desc, bufferOffset, n, left);
    CopyBytes(q.payload, payloadOffset, ring.buffers[desc], bufferOffset, n);
    assert q.payload[..payloadOffset + n] == got + rows[desc][bufferOffset..bufferOffset + n];
  }

  /** The current buffer to its end, then the next descriptor. */
  method TakeAndAdvance(ring: DescRing, desc0: nat, bufferOffset: nat, q: Pbuf, payloadOffset: nat,
                        ghost rows: seq<seq<byte>>, ghost frame: seq<byte>, ghost left: nat)
    returns (desc: nat)
    requires ring.Valid() && Apart(ring, q) && Taking(ring, desc0, bufferOffset, q, payloadOffset, rows, frame, left)
    requires ring.size - bufferOffset < left && payloadOffset + (ring.size - bufferOffset) <= q.payload.Length
    modifies q.payload
    ensures var n := ring.size - bufferOffset;
            Taking(ring, desc, 0, q, payloadOffset + n, rows, frame, left - n)
  {
    var n := ring.size - bufferOffset;
    Take(ring, desc0, bufferOffset, q, payloadOffset, n, rows, frame, left);
    RestWrap(rows, ring.size, desc0, left - n);
    desc := ring.next[desc0];
  }

  /** The inner loop: whole buffers into the segment, until the rest of it fits the current buffer. */
  method TakeBuffers(ring: DescRing, desc0: nat, bufferOffset0: nat, q: Pbuf, ghost rows: seq<seq<byte>>,
                     ghost frame: seq<byte>, ghost all: nat)
    returns (desc: nat, bufferOffset: nat, payloadOffset: nat)
    requires ring.Valid() && Apart(ring, q) && q.len <= q.payload.Length && q.len <= all
    requires Taking(ring, desc0, bufferOffset0, q, 0, rows, frame, all)
    modifies q.payload
    ensures payloadOffset <= q.len && bufferOffset + (q.len - payloadOffset) <= ring.size
    ensures Taking(ring, desc, bufferOffset, q, payloadOffset, rows, frame, all - payloadOffset)
  {
    desc, bufferOffset, payloadOffset := desc0, bufferOffset0, 0;
    var bytesLeftToCopy: nat := q.len;
    ghost var left: nat := all;
    while bytesLeftToCopy + bufferOffset > ring.size
      invariant payloadOffset + bytesLeftToCopy == q.len && left == all - payloadOffset
      invariant Taking(ring, desc, bufferOffset, q, payloadOffset, rows, frame, left)
      decreases bytesLeftToCopy + bufferOffset
    {
      var n := ring.size - bufferOffset;
      desc := TakeAndAdvance(ring, desc, bufferOffset, q, payloadOffset, rows, frame, left);
      bytesLeftToCopy, payloadOffset, bufferOffset, left := bytesLeftToCopy - n, payloadOffset + n, 0, left - n;
    }
  }

  /** Scatters the next `q.len` bytes of the frame into the segment. */
  method FillSegment(ring: DescRing, desc0: nat, bufferOffset0: nat, q: Pbuf,
                     ghost rows: seq<seq<byte>>, ghost frame: seq<byte>, ghost all: nat)
    returns (desc: nat, bufferOffset: nat)
    requires ring.Valid() && Apart(ring, q) && q.len <= q.payload.Length && q.len <= all
    requires Taking(ring, desc0, bufferOffset0, q, 0, rows, frame, all)
    modifies q.payload
    ensures Taking(ring, desc, bufferOffset, q, q.len, rows, frame, all - q.len)
  {
    var payloadOffset;
    desc, bufferOffset, payloadOffset := TakeBuffers(ring, desc0, bufferOffset0, q, rows, frame, all);
    var n := q.len - payloadOffset;
    ghost var left: nat := all - payloadOffset;
    Take(ring, desc, bufferOffset, q, payloadOffset, n, rows, frame, left);
    bufferOffset := bufferOffset + n;
  }

  /** Segments of the chain already filled. */
  ghost predicate Filled(chain: seq<Pbuf>, parts: seq<seq<byte>>)
    reads set q | q in chain :: q.payload
  {
    && |parts| <= |chain|
    && (forall k :: 0 <= k < |parts| ==>
          chain[k].len <= chain[k].payload.Length && parts[k] == chain[k].payload[..chain[k].len])
  }

  /** The cursors of the receive loop: `q` is the next segment of the chain to fill. */
  ghost predicate RxCursor(ring: DescRing, desc: nat, bufferOffset: nat, q: Pbuf?, chain: seq<Pbuf>,
                           parts: seq<seq<byte>>, rows: seq<seq<byte>>, frame: seq<byte>)
    requires ring.Valid()
    reads ring.buffers, set q | q in chain :: q.payload
  {
    && Filled(chain, parts) && IsChain(q, chain[|parts|..])
    && desc < ring.count && bufferOffset <= ring.size && Shows(ring, rows)
    && frame == Flat(parts) + Rest(rows, ring.size, desc, bufferOffset, TotalLen(chain[|parts|..]))
  }

  /** A segment filled from the bytes ahead goes over to those already received. */
  lemma ReceivedNext(parts: seq<seq<byte>>, part: seq<byte>, ahead: seq<byte>, frame: seq<byte>)
    requires frame == Flat(parts) + (part + ahead)
    ensures frame == Flat(parts + [part]) + ahead
  {
    FlatSnoc(parts, part);
    assert Flat(parts) + (part + ahead) == Flat(parts) + part + ahead;
  }

  /** At the start of a segment nothing is taken. */
  lemma TakingStart(ring: DescRing, desc: nat, bufferOffset: nat, q: Pbuf, rows: seq<seq<byte>>, left: nat)
    requires ring.Valid() && Shows(ring, rows) && desc < ring.count && bufferOffset <= ring.size
    ensures Taking(ring, desc, bufferOffset, q, 0, rows, Rest(rows, ring.size, desc, bufferOffset, left), left)
  {
    var ahead := Rest(rows, ring.size, desc, bufferOffset, left);
    assert q.payload[..0] + ahead == ahead;
  }

  /** The segments after the next one. */
  lemma ChainRest(q: Pbuf, chain: seq<Pbuf>, n: nat)
    requires n <= |chain| && IsChain(q, chain[n..])
    ensures n < |chain| && q == chain[n] && q.len <= q.payload.Length && IsChain(q.next, chain[n + 1..])
    ensures TotalLen(chain[n..]) == q.len + TotalLen(chain[n + 1..])
  {
    assert chain[n..][1..] == chain[n + 1..];
  }

  method ScatterStep(ring: DescRing, desc0: nat, bufferOffset0: nat, q: Pbuf, ghost chain: seq<Pbuf>,
                     ghost parts0: seq<seq<byte>>, ghost rows: seq<seq<byte>>, ghost frame: seq<byte>)
    returns (desc: nat, bufferOffset: nat, ghost parts: seq<seq<byte>>)
    requires ring.Valid() && RxCursor(ring, desc0, bufferOffset0, q, chain, parts0, rows, frame)
    requires Disjoint(chain) && (forall q :: q in chain ==> Apart(ring, q))
    modifies q.payload
    ensures |parts| == |parts0| + 1 && RxCursor(ring, desc, bufferOffset, q.next, chain, parts, rows, frame)
  {
    ghost var left := TotalLen(chain[|parts0|..]);
    ghost var ahead := Rest(rows, ring.size, desc0, bufferOffset0, left);
    ChainRest(q, chain, |parts0|);
    TakingStart(ring, desc0, bufferOffset0, q, rows, left);
    desc, bufferOffset := FillSegment(ring, desc0, bufferOffset0, q, rows, ahead, left);
    ghost var part := q.payload[..q.len];
    parts := parts0 + [part];
    ReceivedNext(parts0, part, Rest(rows, ring.size, desc, bufferOffset, left - q.len), frame);
  }

  /** Scatters a whole frame over the chain. */
  method Scatter(ring: DescRing, fsRxDesc: nat, p: Pbuf?, ghost chain: seq<Pbuf>, ghost rows: seq<seq<byte>>)
    returns (ghost parts: seq<seq<byte>>)
    requires ring.Valid() && fsRxDesc < ring.count && Shows(ring, rows)
    requires IsChain(p, chain) && Disjoint(chain) && (forall q :: q in chain ==> Apart(ring, q))
    modifies set q | q in chain :: q.payload
    ensures Carries(chain, parts)
    ensures Flat(parts) == FrameAt(rows, ring.size, fsRxDesc, TotalLen(chain))
  {
    var desc: nat, bufferOffset: nat := fsRxDesc, 0;
    var q := p;
    parts := [];
    RestIsFrame(rows, ring.size, desc, TotalLen(chain));
    ghost var frame := FrameAt(rows, ring.size, desc, TotalLen(chain));
    assert chain[0..] == chain;
    while q != null
      invariant RxCursor(ring, desc, bufferOffset, q, chain, parts, rows, frame)
      decreases |chain| - |parts|
    {
      assert q == chain[|parts|];
      desc, bufferOffset, parts := ScatterStep(ring, desc, bufferOffset, q, chain, parts, rows, frame);
      q := q.next;
    }
    CarriesAll(chain, parts);
  }

  /** Sets the OWN bit of `n` descriptors in chain order. */
  method GiveBack(ring: DescRing, first: nat, n: nat)
    requires ring.Valid() && first < ring.count
    modifies ring
    ensures ring.owned == old(ring.owned) + Span(first, n, ring.count)
  {
    var desc := first;
    for i := 0 to n
      invariant desc == Walk(first, i, ring.count)
      invariant ring.owned == old(ring.owned) + Span(first, i, ring.count)
    {
      ring.owned := ring.owned + {desc};
      desc := ring.next[desc];
    }
  }

  /**
    Takes a received frame out of the ring into a freshly allocated chain (`pool`, or null when
    the allocator has none) and gives every descriptor of the frame back to the DMA. The length
    is kept in 16 bits.
   */
  method Receive(ring: DescRing, info: RxFrameInfos, gotFrame: bool, pool: Pbuf?, ghost chain: seq<Pbuf>)
    returns (p: Pbuf?, ghost parts: seq<seq<byte>>)
    requires ring.Valid() && info.fsRxDesc < ring.count && info !in ring.Repr
    requires IsChain(pool, chain) && Disjoint(chain) && (forall q :: q in chain ==> Apart(ring, q))
    requires pool != null ==> TotalLen(chain) == info.length % 0x10000
    requires forall q :: q in chain ==> q.payload as object != info
    modifies ring, info, set q | q in chain :: q.payload
    ensures info.fsRxDesc == old(info.fsRxDesc) && info.length == old(info.length)
    ensures p == if gotFrame && info.length % 0x10000 > 0 then pool else null
    ensures p != null ==>
      && Carries(chain, parts)
      && Flat(parts) == FrameAt(ring.Rows(), ring.size, info.fsRxDesc, info.length % 0x10000)
    ensures gotFrame ==>
      info.segCount == 0 && ring.owned == old(ring.owned) + Span(info.fsRxDesc, old(info.segCount), ring.count)
    ensures !gotFrame ==> info.segCount == old(info.segCount) && ring.owned == old(ring.owned)
  {
    p, parts := null, [];
    if !gotFrame {
      return;
    }
    var len := info.length % 0x10000;
    if len > 0 {
      p := pool;
    }
    if p != null {
      parts := Scatter(ring, info.fsRxDesc, p, chain, ring.Rows());
    }
    GiveBack(ring, info.fsRxDesc, info.segCount);
    info.segCount := 0;
  }

  /**
    Round trip: a frame that fits, sent and received through the same buffers, comes out of the
    receive chain as the bytes that went into the transmit chain, however either is segmented.
   */
  method TransmitThenReceive(ring: DescRing, txDesc: nat, p: Pbuf?, ghost chain: seq<Pbuf>, ghost parts: seq<seq<byte>>,
                             info: RxFrameInfos, pool: Pbuf?, ghost rxChain: seq<Pbuf>)
    returns (r: Pbuf?, ghost received: seq<seq<byte>>)
    requires ring.Valid() && txDesc < ring.count && info !in ring.Repr && info.fsRxDesc == txDesc
    requires IsChain(p, chain) && Carries(chain, parts) && (forall q :: q in chain ==> Apart(ring, q))
    requires IsChain(pool, rxChain) && Disjoint(rxChain) && (forall q :: q in rxChain ==> Apart(ring, q))
    requires forall q :: q in rxChain ==> q.payload as object != info
    requires |Flat(parts)| == TotalLen(rxChain) < 0x10000 && pool != null
    modifies ring.Repr, info, set q | q in rxChain :: q.payload
    ensures r != null && |Flat(parts)| <= ring.count * ring.size ==>
      Carries(rxChain, received) && Flat(received) == Flat(parts)
    ensures old(ring.owned) == {} && 0 < |Flat(parts)| ==> r == pool
  {
    r, received := null, [];
    var ret, blocks := Transmit(ring, txDesc, p, chain, parts);
    if ret.ErrOk? {
      info.length, info.segCount := ret.frameLength, Buffers(ret.frameLength, ring.size);
      r, received := Receive(ring, info, true, pool, rxChain);
    }
  }
}
