/** Value-level specification of the physical frame allocator of kernel/mm/memory.c:
    a bump pointer, a free list threaded through the free frames themselves, and a bitmap. */
module Frames {
  import opened Bits
  import opened Options

  const PAGE_SIZE: nat := 0x1000
  const POOL_FLOOR: nat := 0x400000
  const IDENTITY_LIMIT: nat := 0x40000000
  const BITMAP_WORDS: nat := 4096

  /** The 512 words of one page of physical memory. */
  type Page = p: seq<nat> | |p| == 512 witness seq(512, _ => 0)

  function ZeroPage(): Page { seq(512, _ => 0) }

  /** The allocator's globals and the identity-mapped physical memory, keyed by page address. */
  datatype Memory = Memory(
    poolStart: nat,
    poolEnd: nat,
    nextFrame: nat,
    freeHead: nat,
    bitmap: seq<nat>,
    pages: map<nat, Page>)

  predicate Aligned(a: nat) { a % PAGE_SIZE == 0 }

  /** The word at `index` of the page at address `page`; memory outside the map reads as zero. */
  function Load(pages: map<nat, Page>, page: nat, index: nat): nat {
    if page in pages && index < 512 then pages[page][index] else 0
  }

  function Store(pages: map<nat, Page>, page: nat, index: nat, value: nat): map<nat, Page> {
    if page in pages && index < 512 then pages[page := pages[page][index := value]] else pages
  }

  function BitOf(m: Memory, frame: nat): nat
    requires m.poolStart <= frame
  {
    (frame - m.poolStart) / PAGE_SIZE
  }

  predicate BitmapHas(bitmap: seq<nat>, bit: nat) {
    bit / 64 < |bitmap| && Bit(bitmap[bit / 64], bit % 64)
  }

  function SetMark(bitmap: seq<nat>, bit: nat): seq<nat>
    requires bit / 64 < |bitmap|
  {
    bitmap[bit / 64 := Or(bitmap[bit / 64], Shl1(bit % 64))]
  }

  function ClearMark(bitmap: seq<nat>, bit: nat): seq<nat>
    requires bit / 64 < |bitmap|
  {
    bitmap[bit / 64 := AndNot(bitmap[bit / 64], Shl1(bit % 64))]
  }

  /** `frame_is_allocated` */
  predicate Allocated(m: Memory, frame: nat) {
    m.poolStart <= frame < m.nextFrame && Aligned(frame) && BitmapHas(m.bitmap, BitOf(m, frame))
  }

  function AllocatedSet(m: Memory): set<nat> {
    set f: nat | m.poolStart <= f < m.nextFrame && Allocated(m, f)
  }

  /** The free list reads `free` when the words stored in its frames are followed from the head. */
  ghost predicate Chained(m: Memory, free: seq<nat>) {
    && m.freeHead == (if free == [] then 0 else free[0])
    && forall k :: 0 <= k < |free| ==> Linked(m.pages, free, k)
  }

  ghost predicate Linked(pages: map<nat, Page>, free: seq<nat>, k: nat)
    requires k < |free|
  {
    Load(pages, free[k], 0) == if k + 1 < |free| then free[k + 1] else 0
  }

  ghost predicate Distinct(s: seq<nat>) {
    forall j, k :: 0 <= j < k < |s| ==> s[j] != s[k]
  }

  predicate PoolOk(m: Memory) {
    && POOL_FLOOR <= m.poolStart < m.poolEnd <= IDENTITY_LIMIT
    && m.poolStart <= m.nextFrame <= m.poolEnd
    && Aligned(m.poolStart) && Aligned(m.poolEnd) && Aligned(m.nextFrame)
    && |m.bitmap| == BITMAP_WORDS
  }

  ghost predicate MemoryMapped(pages: map<nat, Page>) {
    forall a: nat :: a in pages <==> a < IDENTITY_LIMIT && Aligned(a)
  }

  /** The three structures agree: the list is acyclic and holds exactly the frames below the bump
      pointer whose bit is clear. */
  ghost predicate Consistent(m: Memory, free: seq<nat>) {
    && PoolOk(m)
    && MemoryMapped(m.pages)
    && Chained(m, free)
    && Distinct(free)
    && forall f: nat :: f in free <==> m.poolStart <= f < m.nextFrame && Aligned(f) && !Allocated(m, f)
  }

  /** `quanta_frame_allocate` */
  function Allocate(m: Memory): (Memory, Option<nat>) {
    if m.poolStart == 0 then (m, None)
    else if m.freeHead != 0 then
      var f := m.freeHead;
      (Take(m.(freeHead := Load(m.pages, f, 0)), f), Some(f))
    else if m.nextFrame >= m.poolEnd then (m, None)
    else
      var f := m.nextFrame;
      (Take(m.(nextFrame := f + PAGE_SIZE), f), Some(f))
  }

  /** Mark `f` allocated and clear its page. */
  function Take(m: Memory, f: nat): Memory {
    if m.poolStart <= f && BitOf(m, f) / 64 < |m.bitmap| && f in m.pages
    then m.(bitmap := SetMark(m.bitmap, BitOf(m, f)), pages := m.pages[f := ZeroPage()])
    else m
  }

  /** `quanta_frame_release` */
  function Release(m: Memory, f: nat): Memory {
    if Allocated(m, f)
    then m.(bitmap := ClearMark(m.bitmap, BitOf(m, f)),
            pages := Store(m.pages, f, 0, m.freeHead),
            freeHead := f)
    else m
  }

  lemma SetMarkHas(bitmap: seq<nat>, bit: nat, other: nat)
    requires bit / 64 < |bitmap|
    ensures BitmapHas(SetMark(bitmap, bit), other) == (bit == other || BitmapHas(bitmap, other))
  {
    if bit / 64 == other / 64 {
      OrBit(bitmap[bit / 64], Shl1(bit % 64), other % 64);
      Shl1Bit(bit % 64, other % 64);
    }
  }

  lemma ClearMarkHas(bitmap: seq<nat>, bit: nat, other: nat)
    requires bit / 64 < |bitmap|
    ensures BitmapHas(ClearMark(bitmap, bit), other) == (bit != other && BitmapHas(bitmap, other))
  {
    if bit / 64 == other / 64 {
      AndNotBit(bitmap[bit / 64], Shl1(bit % 64), other % 64);
      Shl1Bit(bit % 64, other % 64);
    }
  }

  lemma BitInRange(m: Memory, f: nat)
    requires PoolOk(m) && m.poolStart <= f < m.poolEnd
    ensures BitOf(m, f) / 64 < |m.bitmap|
  {
  }

  lemma BitsDiffer(m: Memory, f: nat, g: nat)
    requires Aligned(m.poolStart) && Aligned(f) && Aligned(g) && m.poolStart <= f && m.poolStart <= g && f != g
    ensures BitOf(m, f) != BitOf(m, g)
  {
  }

  /** Marking one pool frame changes the allocation state of that frame only. */
  lemma TakeMarks(m: Memory, f: nat)
    requires PoolOk(m) && MemoryMapped(m.pages) && m.poolStart <= f < m.nextFrame && Aligned(f)
    ensures var n := Take(m, f);
            && n.pages == m.pages[f := ZeroPage()]
            && PoolOk(n) && MemoryMapped(n.pages)
            && forall g: nat :: Allocated(n, g) == (g == f || Allocated(m, g))
  {
    BitInRange(m, f);
    forall g: nat | m.poolStart <= g < m.nextFrame && Aligned(g)
      ensures Allocated(Take(m, f), g) == (g == f || Allocated(m, g))
    {
      SetMarkHas(m.bitmap, BitOf(m, f), BitOf(m, g));
      if g != f { BitsDiffer(m, f, g); }
    }
  }

  lemma AllocatePop(m: Memory, free: seq<nat>)
    requires Consistent(m, free) && free != []
    ensures Allocate(m).1 == Some(free[0])
    ensures Allocate(m).0.pages == m.pages[free[0] := ZeroPage()]
    ensures m.poolStart <= free[0] < m.nextFrame && Aligned(free[0]) && !Allocated(m, free[0])
    ensures Allocate(m).0.poolStart == m.poolStart && Allocate(m).0.poolEnd == m.poolEnd
    ensures Allocate(m).0.nextFrame == m.nextFrame
    ensures forall g: nat :: Allocated(Allocate(m).0, g) == (g == free[0] || Allocated(m, g))
    ensures Consistent(Allocate(m).0, free[1..])
  {
    hide BitmapHas;
    var f := free[0];
    assert f in free && Linked(m.pages, free, 0);
    var m1 := m.(freeHead := Load(m.pages, f, 0));
    assert forall g: nat :: Allocated(m1, g) == Allocated(m, g);
    TakeMarks(m1, f);
    var n := Take(m1, f);
    var rest := free[1..];
    assert f !in rest;
    forall k | 0 <= k < |rest|
      ensures Linked(n.pages, rest, k)
    {
      assert rest[k] == free[k + 1] && rest[k] in rest;
      assert Linked(m.pages, free, k + 1);
    }
    forall g: nat
      ensures g in rest <==> m.poolStart <= g < n.nextFrame && Aligned(g) && !Allocated(n, g)
    {
      assert g in free <==> g == f || g in rest;
    }
  }

  lemma AllocateBump(m: Memory, free: seq<nat>)
    requires Consistent(m, free) && free == [] && m.nextFrame < m.poolEnd
    ensures Allocate(m).1 == Some(m.nextFrame)
    ensures Allocate(m).0.pages == m.pages[m.nextFrame := ZeroPage()]
    ensures Allocate(m).0.poolStart == m.poolStart && Allocate(m).0.poolEnd == m.poolEnd
    ensures forall g: nat :: Allocated(Allocate(m).0, g) == (g == m.nextFrame || Allocated(m, g))
    ensures Consistent(Allocate(m).0, [])
  {
    hide BitmapHas;
    var f := m.nextFrame;
    var m1 := m.(nextFrame := f + PAGE_SIZE);
    AlignedStep(m.nextFrame, m.poolEnd);
    TakeMarks(m1, f);
    var n := Take(m1, f);
    hide Take;
    forall g: nat
      ensures Allocated(n, g) == (g == f || Allocated(m, g))
    {
      if f < g && Aligned(g) { AlignedStep(f, g); }
    }
    assert forall g: nat :: m.poolStart <= g < m.nextFrame && Aligned(g) ==> g !in free && Allocated(m, g);
    forall g: nat | m.poolStart <= g < n.nextFrame && Aligned(g)
      ensures Allocated(n, g)
    {
      if f < g { AlignedStep(f, g); }
    }
  }

  /** What one allocation does: it hands out a zeroed, aligned pool frame that was not allocated,
      fails only when neither the list nor the pool's unused tail holds one, and keeps the three
      structures in agreement. */
  lemma AllocateOk(m: Memory, free: seq<nat>) returns (free': seq<nat>)
    requires Consistent(m, free)
    ensures var (n, r) := Allocate(m);
            && Consistent(n, free')
            && (r == None <==> free == [] && m.nextFrame == m.poolEnd)
            && (r == None ==> n == m && free' == free)
            && (r.Some? ==>
                  && Aligned(r.value) && m.poolStart <= r.value < m.poolEnd
                  && !Allocated(m, r.value)
                  && n.pages == m.pages[r.value := ZeroPage()]
                  && n.poolStart == m.poolStart && n.poolEnd == m.poolEnd
                  && (forall g: nat :: Allocated(n, g) == (g == r.value || Allocated(m, g))))
  {
    free' := free;
    if free != [] {
      AllocatePop(m, free);
      free' := free[1..];
    } else if m.nextFrame < m.poolEnd {
      AllocateBump(m, free);
    }
  }

  lemma AlignedStep(a: nat, b: nat)
    requires Aligned(a) && Aligned(b) && a < b
    ensures a + PAGE_SIZE <= b
  {
  }

  /** Releasing an allocated frame pushes it on the list; releasing anything else changes nothing. */
  lemma ReleaseOk(m: Memory, free: seq<nat>, f: nat) returns (free': seq<nat>)
    requires Consistent(m, free)
    ensures var n := Release(m, f);
            && Consistent(n, free')
            && (!Allocated(m, f) ==> n == m && free' == free)
            && (Allocated(m, f) ==>
                  && free' == [f] + free
                  && n.pages == m.pages[f := m.pages[f][0 := m.freeHead]])
            && n.poolStart == m.poolStart && n.poolEnd == m.poolEnd && n.nextFrame == m.nextFrame
            && (forall g: nat :: Allocated(n, g) == (g != f && Allocated(m, g)))
  {
    hide BitmapHas;
    if !Allocated(m, f) { return free; }
    free' := [f] + free;
    var n := Release(m, f);
    BitInRange(m, f);
    forall g: nat | m.poolStart <= g < m.nextFrame && Aligned(g)
      ensures Allocated(n, g) == (g != f && Allocated(m, g))
    {
      ClearMarkHas(m.bitmap, BitOf(m, f), BitOf(m, g));
      if g != f { BitsDiffer(m, f, g); }
    }
    assert f !in free;
    forall k | 0 <= k < |free'|
      ensures Linked(n.pages, free', k)
    {
      if k > 0 {
        assert free'[k] == free[k - 1] && free[k - 1] in free;
        assert Linked(m.pages, free, k - 1);
      }
    }
  }

  /** A store into a page that is not on the free list leaves the allocator's structures alone. */
  lemma StoreOk(m: Memory, free: seq<nat>, page: nat, index: nat, value: nat)
    requires Consistent(m, free)
    requires page !in free
    ensures var n := m.(pages := Store(m.pages, page, index, value));
            Consistent(n, free) && forall g: nat :: Allocated(n, g) == Allocated(m, g)
  {
    hide BitmapHas;
    var n := m.(pages := Store(m.pages, page, index, value));
    assert forall g: nat :: Allocated(n, g) == Allocated(m, g);
    forall k | 0 <= k < |free|
      ensures Linked(n.pages, free, k)
    {
      assert free[k] in free && Linked(m.pages, free, k);
    }
  }

  /** The list a memory holds is determined by that memory. */
  lemma {:induction false} ChainUnique(m: Memory, a: seq<nat>, b: seq<nat>, k: nat)
    requires Consistent(m, a) && Consistent(m, b) && k <= |a|
    ensures k <= |b| && a[..k] == b[..k]
  {
    if k > 0 {
      ChainUnique(m, a, b, k - 1);
      assert a[k - 1] in a;
      if k == 1 {
      } else {
        assert a[..k - 1][k - 2] == b[..k - 1][k - 2];
        assert Linked(m.pages, a, k - 2) && Linked(m.pages, b, k - 2);
      }
      assert a[..k] == a[..k - 1] + [a[k - 1]];
      assert b[..k] == b[..k - 1] + [b[k - 1]];
    }
  }

  /** Frames of a page-aligned interval. */
  function FramesBetween(lo: nat, hi: nat): set<nat> {
    set f: nat | lo <= f < hi && Aligned(f)
  }

  lemma {:induction false} FramesBetweenCount(lo: nat, hi: nat)
    requires Aligned(lo) && Aligned(hi) && lo <= hi
    ensures |FramesBetween(lo, hi)| == (hi - lo) / PAGE_SIZE
    decreases hi - lo
  {
    if lo < hi {
      AlignedStep(lo, hi);
      FramesBetweenCount(lo, hi - PAGE_SIZE);
      var last := hi - PAGE_SIZE;
      forall f: nat | lo <= f < hi && Aligned(f)
        ensures f == last || f < last
      {
        if last < f { AlignedStep(last, f); }
      }
      assert FramesBetween(lo, hi) == FramesBetween(lo, last) + {last};
    } else {
      assert FramesBetween(lo, hi) == {};
    }
  }

  function Members(s: seq<nat>): (r: set<nat>)
    ensures forall f: nat :: f in r <==> f in s
  {
    if s == [] then {}
    else
      assert s == s[..|s| - 1] + [s[|s| - 1]];
      Members(s[..|s| - 1]) + {s[|s| - 1]}
  }

  lemma {:induction false} DistinctCount(s: seq<nat>)
    requires Distinct(s)
    ensures |Members(s)| == |s|
  {
    if s != [] {
      DistinctCount(s[..|s| - 1]);
      assert s[|s| - 1] !in Members(s[..|s| - 1]);
    }
  }

  lemma PagesAdd(a: nat, b: nat, c: nat)
    requires Aligned(a) && Aligned(b) && Aligned(c) && a <= b <= c
    ensures (b - a) / PAGE_SIZE + (c - b) / PAGE_SIZE == (c - a) / PAGE_SIZE
  {
  }

  /** Conservation: allocated, listed and never-used frames make up the whole pool. */
  lemma FramesConserved(m: Memory, free: seq<nat>)
    requires Consistent(m, free)
    ensures |AllocatedSet(m)| + |free| + (m.poolEnd - m.nextFrame) / PAGE_SIZE
            == (m.poolEnd - m.poolStart) / PAGE_SIZE
  {
    hide BitmapHas;
    hide Members;
    hide Chained;
    var listed, a, below := Members(free), AllocatedSet(m), FramesBetween(m.poolStart, m.nextFrame);
    DistinctCount(free);
    FramesBetweenCount(m.poolStart, m.nextFrame);
    assert a + listed == below;
    assert a !! listed;
    assert |a + listed| == |a| + |listed|;
    PagesAdd(m.poolStart, m.nextFrame, m.poolEnd);
  }
}
