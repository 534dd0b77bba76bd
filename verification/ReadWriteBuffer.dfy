/** A buffer from which aligned blocks are carved one after the other. */
module ReadWriteBuffer {
  import opened Bytes
  import opened Bits

  /** `sizeof(T)` and the alignment in bytes. */
  datatype Layout = Layout(typeSize: nat, alignBytes: nat) {

    predicate Valid() {
      0 < typeSize < WORD && 0 < alignBytes < WORD
      && (typeSize % alignBytes == 0 || alignBytes % typeSize == 0)
    }

    predicate LargerThanAlign() {
      typeSize >= alignBytes
    }

    function AlignElementCount(): nat
      requires typeSize > 0
    {
      alignBytes / typeSize
    }

    /** The compile-time assertion that should make the element count a power of two. */
    predicate StaticAssert()
      requires Valid()
    {
      var a := AlignElementCount();
      a == (if a == 0 then 0 else BitAnd(a, WORD - a)) || alignBytes > typeSize
    }

    /** The room that blocks of this total size need, with the padding of each. */
    function Room(size: nat, blocks: nat): nat
      requires Valid()
    {
      if LargerThanAlign() then size
      else
        AlignedCount(this);
        size + blocks * (AlignElementCount() - 1)
    }

    /** The size that `resize_with_align_hints` asks for, in `size_t` arithmetic. */
    function Capacity(size: nat, blocks: nat): nat
      requires Valid()
    {
      Wrap(Room(size, blocks))
    }

    /** Where the offset goes when a block is taken. */
    function Advance(offset: nat, size: nat): nat
      requires Valid()
    {
      if LargerThanAlign() then Wrap(offset + size)
      else
        AlignedCount(this);
        MaskUp(Wrap(offset + size), AlignElementCount())
    }
  }

  lemma AlignedProduct(layout: Layout)
    requires layout.Valid() && !layout.LargerThanAlign()
    ensures layout.AlignElementCount() * layout.typeSize == layout.alignBytes
  {
    var t, b := layout.typeSize, layout.alignBytes;
    if t % b == 0 {
      QuotientUnique(t, b, 0, t);
    }
    assert b == t * (b / t) + b % t;
    assert t * (b / t) == (b / t) * t;
  }

  /** Where rounding is needed at all, several elements share an alignment unit. */
  lemma AlignedCount(layout: Layout)
    requires layout.Valid() && !layout.LargerThanAlign()
    ensures 2 <= layout.AlignElementCount() < WORD
  {
    var a, t := layout.AlignElementCount(), layout.typeSize;
    AlignedProduct(layout);
    CountBounds(a, t, layout.alignBytes);
  }

  lemma CountBounds(a: nat, t: nat, b: nat)
    requires a * t == b && 0 < t < b < WORD
    ensures 2 <= a < WORD
  {
    if a >= WORD {
      MulAtLeast(a, t);
    }
  }

  class ReadWriteBuffer<T> {
    const layout: Layout
    const fill: T
    var elements: seq<T>
    var currentOffset: nat

    constructor (layout: Layout, fill: T)
      requires layout.Valid()
      ensures this.layout == layout && elements == []
    {
      this.layout, this.fill, this.elements := layout, fill, [];
    }

    method ResizeWithAlignHints(size: nat, alignBlockCount: nat)
      requires layout.Valid()
      modifies this`elements
      ensures |elements| == layout.Capacity(size, alignBlockCount)
      ensures var kept := if |elements| < |old(elements)| then |elements| else |old(elements)|;
              elements[..kept] == old(elements)[..kept]
    {
      if layout.LargerThanAlign() {
        Resize(Wrap(size));
      } else {
        AlignedCount(layout);
        Resize(Wrap(size + alignBlockCount * (layout.AlignElementCount() - 1)));
      }
    }

    method Resize(size: nat)
      modifies this`elements
      ensures |elements| == size
      ensures var kept := if |elements| < |old(elements)| then |elements| else |old(elements)|;
              elements[..kept] == old(elements)[..kept]
    {
      elements := if size <= |elements| then elements[..size] else elements + seq(size - |elements|, _ => fill);
    }

    method ResetAlignAlloc()
      modifies this`currentOffset
      ensures currentOffset == 0
    {
      currentOffset := 0;
    }

    /** The index at which the block starts; none when that is no element of the buffer. */
    method NextBlock(blockSize: nat) returns (inside: bool, start: nat)
      requires layout.Valid()
      modifies this`currentOffset
      ensures start == old(currentOffset) && (inside <==> start < |elements|)
      ensures currentOffset == layout.Advance(old(currentOffset), blockSize)
    {
      start := currentOffset;
      inside := start < |elements|;
      currentOffset := Wrap(currentOffset + blockSize);
      if !layout.LargerThanAlign() {
        AlignedCount(layout);
        currentOffset := MaskUp(currentOffset, layout.AlignElementCount());
      }
    }
  }

  // ----- Carving a run of blocks -----

  /** The offset after taking blocks of these sizes. */
  function Offset(layout: Layout, sizes: seq<nat>): nat
    requires layout.Valid()
  {
    if sizes == [] then 0
    else layout.Advance(Offset(layout, sizes[..|sizes| - 1]), sizes[|sizes| - 1])
  }

  /** Where block `i` of the run starts. */
  function Start(layout: Layout, sizes: seq<nat>, i: nat): nat
    requires layout.Valid() && i < |sizes|
  {
    Offset(layout, sizes[..i])
  }

  /** Elements are placed on the right boundaries only if the rounding works. */
  predicate Rounds(layout: Layout)
    requires layout.Valid()
  {
    layout.LargerThanAlign() || IsPow2(layout.AlignElementCount())
  }

  predicate Fits(layout: Layout, size: nat, blocks: nat)
    requires layout.Valid()
  {
    layout.Room(size, blocks) < WORD
  }

  /** The padding that one block may need. */
  function Padding(layout: Layout): nat
    requires layout.Valid()
  {
    if layout.LargerThanAlign() then 0 else
      AlignedCount(layout);
      layout.AlignElementCount() - 1
  }

  lemma AdvanceBounds(layout: Layout, offset: nat, size: nat)
    requires layout.Valid() && Rounds(layout)
    requires offset + size + Padding(layout) < WORD
    ensures offset + size <= layout.Advance(offset, size) <= offset + size + Padding(layout)
  {
    if !layout.LargerThanAlign() {
      AlignedCount(layout);
      MaskRoundsUp(offset + size, layout.AlignElementCount());
    }
  }

  lemma AdvanceAligned(layout: Layout, offset: nat, size: nat)
    requires layout.Valid() && Rounds(layout) && !layout.LargerThanAlign()
    requires offset + size + Padding(layout) < WORD
    ensures layout.AlignElementCount() > 0 && layout.Advance(offset, size) % layout.AlignElementCount() == 0
  {
    AlignedCount(layout);
    MaskRoundsUp(offset + size, layout.AlignElementCount());
  }

  lemma LastSize(sizes: seq<nat>)
    requires sizes != []
    ensures Sum(sizes) == Sum(sizes[..|sizes| - 1]) + sizes[|sizes| - 1]
  {
    var n := |sizes| - 1;
    assert sizes == sizes[..n] + [sizes[n]];
    SumAppend(sizes[..n], [sizes[n]]);
  }

  /** One more block needs room for itself and for its padding. */
  lemma RoomNext(layout: Layout, size: nat, blocks: nat, more: nat)
    requires layout.Valid()
    ensures layout.Room(size + more, blocks + 1) == layout.Room(size, blocks) + more + Padding(layout)
  {
    if !layout.LargerThanAlign() {
      AlignedCount(layout);
      OneMore(blocks, layout.AlignElementCount() - 1);
    }
  }

  /** The running offset exceeds the total taken by less than one alignment unit a block. */
  lemma {:induction false} OffsetBound(layout: Layout, sizes: seq<nat>)
    requires layout.Valid() && Rounds(layout) && Fits(layout, Sum(sizes), |sizes|)
    ensures Sum(sizes) <= Offset(layout, sizes) <= layout.Room(Sum(sizes), |sizes|)
    decreases |sizes|
  {
    if sizes != [] {
      var n := |sizes| - 1;
      LastSize(sizes);
      RoomNext(layout, Sum(sizes[..n]), n, sizes[n]);
      OffsetBound(layout, sizes[..n]);
      AdvanceBounds(layout, Offset(layout, sizes[..n]), sizes[n]);
    } else {
      EmptyRoom(layout);
    }
  }

  lemma EmptyRoom(layout: Layout)
    requires layout.Valid()
    ensures layout.Room(0, 0) == 0
  {
  }

  lemma OffsetAligned(layout: Layout, sizes: seq<nat>)
    requires layout.Valid() && Rounds(layout) && Fits(layout, Sum(sizes), |sizes|) && !layout.LargerThanAlign()
    ensures layout.AlignElementCount() > 0 && Offset(layout, sizes) % layout.AlignElementCount() == 0
  {
    AlignedCount(layout);
    if sizes == [] {
      QuotientUnique(0, layout.AlignElementCount(), 0, 0);
    } else {
      var n := |sizes| - 1;
      LastFits(layout, sizes);
      AdvanceAligned(layout, Offset(layout, sizes[..n]), sizes[n]);
    }
  }

  /** Where blocks are one element longer than a number of alignment units, or no rounding
      is needed, they take all the room that is asked for: less would not do. */
  lemma {:induction false} RoomIsTight(layout: Layout, sizes: seq<nat>)
    requires layout.Valid() && Rounds(layout) && Fits(layout, Sum(sizes), |sizes|)
    requires forall i :: 0 <= i < |sizes| && !layout.LargerThanAlign() ==>
               layout.AlignElementCount() > 0 && sizes[i] % layout.AlignElementCount() == 1
    ensures Offset(layout, sizes) == layout.Room(Sum(sizes), |sizes|) == layout.Capacity(Sum(sizes), |sizes|)
    decreases |sizes|
  {
    if sizes == [] {
      EmptyRoom(layout);
    } else {
      var n := |sizes| - 1;
      LastFits(layout, sizes);
      LastSize(sizes);
      RoomNext(layout, Sum(sizes[..n]), n, sizes[n]);
      PrefixFits(layout, sizes, n);
      RoomIsTight(layout, sizes[..n]);
      FullPadding(layout, sizes[..n], sizes[n]);
    }
  }

  lemma UnitsAdd(offset: nat, size: nat, a: nat)
    requires a > 0 && offset % a == 0 && size % a == 1
    ensures (offset + size + (a - 1)) % a == 0
  {
    var p, q := offset / a, size / a;
    assert offset == a * p && size == a * q + 1;
    assert a * (p + q + 1) == a * p + a * q + a;
    QuotientUnique(offset + size + (a - 1), a, p + q + 1, 0);
  }

  lemma FullPadding(layout: Layout, sizes: seq<nat>, size: nat)
    requires layout.Valid() && Rounds(layout) && Fits(layout, Sum(sizes), |sizes|)
    requires Offset(layout, sizes) + size + Padding(layout) < WORD
    requires !layout.LargerThanAlign() ==> layout.AlignElementCount() > 0 && size % layout.AlignElementCount() == 1
    ensures layout.Advance(Offset(layout, sizes), size) == Offset(layout, sizes) + size + Padding(layout)
  {
    var offset := Offset(layout, sizes);
    AdvanceBounds(layout, offset, size);
    if !layout.LargerThanAlign() {
      var a := layout.AlignElementCount();
      OffsetAligned(layout, sizes);
      AdvanceAligned(layout, offset, size);
      UnitsAdd(offset, size, a);
      RoundUpUnique(offset + size, a, layout.Advance(offset, size), offset + size + (a - 1));
    }
  }

  lemma LastFits(layout: Layout, sizes: seq<nat>)
    requires layout.Valid() && Rounds(layout) && Fits(layout, Sum(sizes), |sizes|) && sizes != []
    ensures var n := |sizes| - 1;
            Offset(layout, sizes[..n]) + sizes[n] + Padding(layout) < WORD
  {
    var n := |sizes| - 1;
    PrefixFits(layout, sizes, n);
    OffsetBound(layout, sizes[..n]);
    LastSize(sizes);
    RoomNext(layout, Sum(sizes[..n]), n, sizes[n]);
  }

  lemma OneMore(n: nat, m: int)
    ensures (n + 1) * m == n * m + m
  {
  }

  /** Taking blocks only moves the offset forward, at least past each block. */
  lemma {:induction false} StartsOrdered(layout: Layout, sizes: seq<nat>, i: nat)
    requires layout.Valid() && Rounds(layout) && Fits(layout, Sum(sizes), |sizes|) && i < |sizes|
    ensures Start(layout, sizes, i) + sizes[i] <= Offset(layout, sizes)
    decreases |sizes|
  {
    var n := |sizes| - 1;
    PrefixFits(layout, sizes, n);
    OffsetBound(layout, sizes[..n]);
    LastSize(sizes);
    RoomNext(layout, Sum(sizes[..n]), n, sizes[n]);
    AdvanceBounds(layout, Offset(layout, sizes[..n]), sizes[n]);
    if i < n {
      assert sizes[..n][..i] == sizes[..i];
      StartsOrdered(layout, sizes[..n], i);
    }
  }

  lemma PrefixFits(layout: Layout, sizes: seq<nat>, k: nat)
    requires layout.Valid() && k <= |sizes| && Fits(layout, Sum(sizes), |sizes|)
    ensures Fits(layout, Sum(sizes[..k]), k) && Sum(sizes[..k]) <= Sum(sizes)
  {
    assert sizes == sizes[..k] + sizes[k..];
    SumAppend(sizes[..k], sizes[k..]);
    if !layout.LargerThanAlign() {
      AlignedCount(layout);
      MulMonotone(k, |sizes|, layout.AlignElementCount() - 1);
    }
  }

  lemma MulMonotone(i: nat, j: nat, m: nat)
    requires i <= j
    ensures i * m <= j * m
  {
    assert j * m == i * m + (j - i) * m;
  }

  /** Blocks carved after a reset from a buffer resized for their number and total size
      lie inside it, do not overlap, and start on the boundary. A block of size zero
      may start at the very end, where there is no element to point to. */
  lemma BlocksDisjointAndAligned(layout: Layout, sizes: seq<nat>, size: nat, blocks: nat)
    requires layout.Valid() && Rounds(layout)
    requires Sum(sizes) <= size && |sizes| <= blocks && Fits(layout, size, blocks)
    ensures forall i :: 0 <= i < |sizes| ==>
              Start(layout, sizes, i) + sizes[i] <= layout.Capacity(size, blocks)
              && (Start(layout, sizes, i) * layout.typeSize) % layout.alignBytes == 0
    ensures forall i, j :: 0 <= i < j < |sizes| ==>
              Start(layout, sizes, i) + sizes[i] <= Start(layout, sizes, j)
    ensures layout.LargerThanAlign()
            || Offset(layout, sizes) <= size + blocks * (layout.AlignElementCount() - 1)
  {
    RoomMonotone(layout, Sum(sizes), size, |sizes|, blocks);
    OffsetBound(layout, sizes);
    forall i | 0 <= i < |sizes|
      ensures Start(layout, sizes, i) + sizes[i] <= layout.Room(size, blocks)
              && (Start(layout, sizes, i) * layout.typeSize) % layout.alignBytes == 0
    {
      StartsOrdered(layout, sizes, i);
      PrefixFits(layout, sizes, i);
      if !layout.LargerThanAlign() {
        OffsetAligned(layout, sizes[..i]);
      }
      ByteAligned(layout, Start(layout, sizes, i));
    }
    forall i, j | 0 <= i < j < |sizes| ensures Start(layout, sizes, i) + sizes[i] <= Start(layout, sizes, j) {
      PrefixFits(layout, sizes, j);
      assert sizes[..j][..i] == sizes[..i];
      StartsOrdered(layout, sizes[..j], i);
    }
  }

  /** The way the buffer is used: resized for a number of blocks and their total size,
      reset, and then asked for the blocks. If the rounding works and the room fits a
      word, every non-empty block is inside the buffer, apart from the others, and on
      the boundary. */
  method CarveBlocks<T>(buffer: ReadWriteBuffer<T>, sizes: seq<nat>, size: nat, blocks: nat)
    returns (inside: seq<bool>, starts: seq<nat>)
    requires buffer.layout.Valid() && Sum(sizes) <= size && |sizes| <= blocks
    modifies buffer
    ensures |inside| == |starts| == |sizes| && |buffer.elements| == buffer.layout.Capacity(size, blocks)
    ensures forall i :: 0 <= i < |sizes| ==> starts[i] == Start(buffer.layout, sizes, i)
    ensures buffer.currentOffset == Offset(buffer.layout, sizes)
    ensures Rounds(buffer.layout) && Fits(buffer.layout, size, blocks) ==>
              (forall i :: 0 <= i < |sizes| && sizes[i] > 0 ==>
                 inside[i] && starts[i] + sizes[i] <= |buffer.elements|
                 && (starts[i] * buffer.layout.typeSize) % buffer.layout.alignBytes == 0)
              && (forall i, j :: 0 <= i < j < |sizes| ==> starts[i] + sizes[i] <= starts[j])
  {
    buffer.ResizeWithAlignHints(size, blocks);
    buffer.ResetAlignAlloc();
    inside, starts := [], [];
    var k := 0;
    while k < |sizes|
      invariant k <= |sizes| && |inside| == |starts| == k
      invariant |buffer.elements| == buffer.layout.Capacity(size, blocks)
      invariant buffer.currentOffset == Offset(buffer.layout, sizes[..k])
      invariant forall i :: 0 <= i < k ==> starts[i] == Start(buffer.layout, sizes, i)
      invariant forall i :: 0 <= i < k ==> (inside[i] <==> starts[i] < |buffer.elements|)
    {
      var ok, start := buffer.NextBlock(sizes[k]);
      assert sizes[..k + 1][..k] == sizes[..k];
      inside, starts := inside + [ok], starts + [start];
      k := k + 1;
    }
    assert sizes[..k] == sizes;
    if Rounds(buffer.layout) && Fits(buffer.layout, size, blocks) {
      BlocksDisjointAndAligned(buffer.layout, sizes, size, blocks);
    }
  }

  lemma RoomMonotone(layout: Layout, s: nat, s': nat, k: nat, k': nat)
    requires layout.Valid() && s <= s' && k <= k'
    ensures layout.Room(s, k) <= layout.Room(s', k')
  {
    if !layout.LargerThanAlign() {
      AlignedCount(layout);
      MulMonotone(k, k', layout.AlignElementCount() - 1);
    }
  }

  lemma ByteAligned(layout: Layout, start: nat)
    requires layout.Valid()
    requires layout.LargerThanAlign() || start % layout.AlignElementCount() == 0
    ensures (start * layout.typeSize) % layout.alignBytes == 0
  {
    var t, b := layout.typeSize, layout.alignBytes;
    if layout.LargerThanAlign() {
      if t % b != 0 {
        QuotientUnique(b, t, b / t, 0);
        DividesSmaller(b, t);
      }
      assert t == b * (t / b);
      assert start * t == b * (start * (t / b)) by {
        Rotate(start, b, t / b);
      }
      QuotientUnique(start * t, b, start * (t / b), 0);
    } else {
      AlignedProduct(layout);
      AlignedCount(layout);
      var a := layout.AlignElementCount();
      assert start == a * (start / a);
      assert start * t == b * (start / a) by {
        Rotate(t, a, start / a);
      }
      QuotientUnique(start * t, b, start / a, 0);
    }
  }

  lemma Rotate(x: nat, y: nat, z: nat)
    ensures x * (y * z) == y * (x * z) && x * (y * z) == (x * y) * z && (y * z) * x == (y * x) * z
  {
  }

  lemma DividesSmaller(b: nat, t: nat)
    requires 0 < b <= t && b % t == 0
    ensures b == t
  {
    if b < t {
      QuotientUnique(b, t, 0, b);
    }
  }

  /** The compile-time assertion holds of every layout in which rounding is used, so it
      never checks the element count: whether all blocks end up aligned depends on it
      being a power of two after all. */
  lemma AlignmentNeedsPowerOfTwo(layout: Layout)
    requires layout.Valid() && !layout.LargerThanAlign()
    ensures layout.StaticAssert()
    ensures (forall sizes | Fits(layout, Sum(sizes), |sizes|) ::
               Offset(layout, sizes) % layout.AlignElementCount() == 0)
            <==> IsPow2(layout.AlignElementCount())
  {
    AlignedCount(layout);
    var a := layout.AlignElementCount();
    if IsPow2(a) {
      forall sizes | Fits(layout, Sum(sizes), |sizes|) ensures Offset(layout, sizes) % a == 0 {
        OffsetAligned(layout, sizes);
      }
    } else {
      var sizes := [1];
      NotRoundedAtOne(a);
      assert sizes[..0] == [] && Sum(sizes) == 1;
      assert Offset(layout, sizes) == MaskUp(1, a);
      assert Fits(layout, Sum(sizes), |sizes|);
    }
  }
}
