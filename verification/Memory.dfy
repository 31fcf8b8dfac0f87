/** The kernel's memory module, kernel/mm/memory.c, in its own imperative form. */
module KernelMemory {
  import opened Bits
  import opened Options
  import opened Frames
  import opened Paging
  import opened KernelMaps
  import opened Teardown

  const WORD: nat := 0x1_0000_0000_0000_0000

  /** One entry of the boot memory map; start and length are 64-bit words. */
  datatype Region = Region(start: nat, length: nat, usable: bool)

  predicate RegionWord(r: Region) { r.start < WORD && r.length < WORD }

  /** A usable region that ends inside the address space and above the pool's floor. */
  predicate Eligible(r: Region) {
    r.usable && r.start + r.length < WORD && r.start + r.length > POOL_FLOOR
  }

  function RoundUp(a: nat): nat { (a + PAGE_SIZE - 1) / PAGE_SIZE * PAGE_SIZE }

  function ClipStart(r: Region): nat { RoundUp(if r.start < POOL_FLOOR then POOL_FLOOR else r.start) }

  function ClipEnd(r: Region): nat {
    FrameOf(if r.start + r.length > IDENTITY_LIMIT then IDENTITY_LIMIT else r.start + r.length)
  }

  function ClipSize(r: Region): nat {
    if ClipStart(r) < ClipEnd(r) then ClipEnd(r) - ClipStart(r) else 0
  }

  /** A region so high that rounding its start up to a page wraps to address zero. */
  predicate RoundingWraps(r: Region) { Eligible(r) && r.start > WORD - PAGE_SIZE }

  /** What the selection loop holds after some regions. */
  ghost predicate BestOf(regions: seq<Region>, n: nat, bestStart: nat, bestEnd: nat)
    requires n <= |regions|
  {
    if exists j :: 0 <= j < n && RoundingWraps(regions[j]) then bestStart == 0 && bestEnd == IDENTITY_LIMIT
    else if bestStart == 0
    then bestEnd == 0 && forall j :: 0 <= j < n && Eligible(regions[j]) ==> ClipSize(regions[j]) == 0
    else
      && (exists i :: 0 <= i < n && Eligible(regions[i]) && bestStart == ClipStart(regions[i])
            && bestEnd == ClipEnd(regions[i]))
      && bestStart < bestEnd
      && forall j :: 0 <= j < n && Eligible(regions[j]) ==> ClipSize(regions[j]) <= bestEnd - bestStart
  }

  lemma ClipBounds(r: Region)
    requires RegionWord(r) && Eligible(r)
    ensures POOL_FLOOR <= ClipStart(r) && ClipEnd(r) <= IDENTITY_LIMIT
    ensures Aligned(ClipStart(r)) && Aligned(ClipEnd(r))
    ensures ClipSize(r) <= IDENTITY_LIMIT - POOL_FLOOR
    ensures RoundingWraps(r) ==> ClipEnd(r) == IDENTITY_LIMIT && ClipStart(r) >= WORD
    ensures !RoundingWraps(r) ==> ClipStart(r) < WORD
  {
  }

  class PhysicalMemory {
    var poolStart: nat
    var poolEnd: nat
    var nextFrame: nat
    var freeHead: nat
    var bitmap: seq<nat>
    var pages: map<nat, Page>

    function State(): Memory
      reads this
    {
      Memory(poolStart, poolEnd, nextFrame, freeHead, bitmap, pages)
    }

    constructor (physical: map<nat, Page>)
      ensures pages == physical && State() == Memory(0, 0, 0, 0, seq(BITMAP_WORDS, _ => 0), physical)
    {
      poolStart, poolEnd, nextFrame, freeHead := 0, 0, 0, 0;
      bitmap := seq(BITMAP_WORDS, _ => 0);
      pages := physical;
    }

    /** `quanta_memory_initialize`.  It goes on running exactly when some region has a non-empty
        part inside the identity map and no region's rounding wraps; the pool is then a largest
        such part and the allocator's structures agree. */
    method Initialize(regions: seq<Region>) returns (running: bool)
      requires forall r :: r in regions ==> RegionWord(r)
      requires |bitmap| == BITMAP_WORDS
      modifies this
      ensures pages == old(pages)
      ensures running <==>
                && (forall j :: 0 <= j < |regions| ==> !RoundingWraps(regions[j]))
                && (exists i :: 0 <= i < |regions| && Eligible(regions[i]) && ClipSize(regions[i]) > 0)
      ensures running ==> exists i ::
                && 0 <= i < |regions| && Eligible(regions[i])
                && poolStart == ClipStart(regions[i]) && poolEnd == ClipEnd(regions[i])
                && forall j :: 0 <= j < |regions| && Eligible(regions[j]) ==>
                     ClipSize(regions[j]) <= ClipSize(regions[i])
      ensures running && MemoryMapped(pages) ==> Consistent(State(), []) && AllocatedSet(State()) == {}
      ensures running ==> nextFrame == poolStart
    {
      var index := 0;
      while index < BITMAP_WORDS
        invariant 0 <= index <= BITMAP_WORDS == |bitmap| && pages == old(pages)
      {
        bitmap := bitmap[index := 0];
        index := index + 1;
      }
      poolStart, poolEnd, nextFrame, freeHead := 0, 0, 0, 0;
      var bestStart, bestEnd := SelectRegion(regions);
      running := bestStart != 0;
      BestDecides(regions, bestStart, bestEnd);
      if running {
        poolStart, poolEnd, nextFrame := bestStart, bestEnd, bestStart;
        InitialPool(State());
      }
    }

    /** The selection loop of `quanta_memory_initialize`. */
    static method SelectRegion(regions: seq<Region>) returns (bestStart: nat, bestEnd: nat)
      requires forall r :: r in regions ==> RegionWord(r)
      ensures BestOf(regions, |regions|, bestStart, bestEnd)
    {
      bestStart, bestEnd := 0, 0;
      var index := 0;
      while index < |regions|
        invariant 0 <= index <= |regions|
        invariant BestOf(regions, index, bestStart, bestEnd)
      {
        var r := regions[index];
        assert r in regions;
        var start: nat, end: nat := r.start, (r.start + r.length) % WORD;
        if !r.usable || end < start || end <= POOL_FLOOR {
          Skipped(r);
          index := index + 1;
          continue;
        }
        if start < POOL_FLOOR { start := POOL_FLOOR; }
        start := FrameOf((start + PAGE_SIZE - 1) % WORD);
        if end > IDENTITY_LIMIT { end := IDENTITY_LIMIT; }
        end := FrameOf(end);
        Clipped(r);
        hide ClipEnd;
        hide ClipStart;
        hide RoundingWraps;
        NextBest(regions, index, bestStart, bestEnd, start, end);
        if start < end && end - start > bestEnd - bestStart {
          bestStart := start;
          bestEnd := end;
        }
        index := index + 1;
      }
    }

    method ClearPage(physical: nat)
      modifies this
      ensures State() == old(State()).(pages := if physical in old(pages) then old(pages)[physical := ZeroPage()]
                                                else old(pages))
    {
      var index := 0;
      while index < 512
        invariant 0 <= index <= 512
        invariant State() == old(State()).(pages := pages)
        invariant physical !in old(pages) ==> pages == old(pages)
        invariant physical in old(pages) ==>
                    && physical in pages
                    && pages == old(pages)[physical := pages[physical]]
                    && forall k :: 0 <= k < index ==> pages[physical][k] == 0
      {
        pages := Store(pages, physical, index, 0);
        index := index + 1;
      }
      if physical in old(pages) { assert pages[physical] == ZeroPage(); }
    }

    /** `quanta_frame_allocate` */
    method FrameAllocate() returns (frame: Option<nat>)
      requires PoolOk(State()) || poolStart == 0
      requires MemoryMapped(pages) && (freeHead != 0 ==> poolStart <= freeHead < poolEnd && Aligned(freeHead))
      modifies this
      ensures (State(), frame) == Allocate(old(State()))
    {
      if poolStart == 0 { return None; }
      var taken: nat;
      if freeHead != 0 {
        taken := freeHead;
        freeHead := Load(pages, taken, 0);
      } else {
        if nextFrame >= poolEnd { return None; }
        taken := nextFrame;
        nextFrame := nextFrame + PAGE_SIZE;
      }
      var bit := (taken - poolStart) / PAGE_SIZE;
      bitmap := bitmap[bit / 64 := Or(bitmap[bit / 64], Shl1(bit % 64))];
      ClearPage(taken);
      frame := Some(taken);
    }

    method FrameIsAllocated(frame: nat) returns (r: bool)
      requires PoolOk(State())
      ensures r == Allocated(State(), frame)
    {
      if frame < poolStart || frame >= nextFrame || frame % PAGE_SIZE != 0 { return false; }
      var bit := (frame - poolStart) / PAGE_SIZE;
      r := Bit(bitmap[bit / 64], bit % 64);
    }

    /** `quanta_frame_release` */
    method FrameRelease(frame: nat)
      requires PoolOk(State())
      modifies this
      ensures State() == Release(old(State()), frame)
      ensures PoolOk(State())
    {
      var taken := FrameIsAllocated(frame);
      if !taken { return; }
      var bit := (frame - poolStart) / PAGE_SIZE;
      bitmap := bitmap[bit / 64 := AndNot(bitmap[bit / 64], Shl1(bit % 64))];
      pages := Store(pages, frame, 0, freeHead);
      freeHead := frame;
    }

    /** `table_for`; `None` stands for the halt of `quanta_frame_allocate_or_panic`. */
    method TableForEntry(table: nat, index: nat, ghost free: seq<nat>) returns (below: Option<nat>)
      requires Consistent(State(), free)
      modifies this
      ensures (State(), below) == TableFor(old(State()), table, index)
    {
      FreeHeadOk(State(), free);
      var e := Load(pages, table, index);
      if !Present(e) {
        var frame := FrameAllocate();
        if frame == None { return None; }
        e := Or(Or(Or(frame.value, 1), 2), 4);
        pages := Store(pages, table, index, e);
      }
      below := Some(FrameOf(e));
    }

    /** `quanta_address_space_create` */
    method AddressSpaceCreate(ghost free: seq<nat>) returns (root: Option<nat>)
      requires Consistent(State(), free)
      modifies this
      ensures (State(), root) == CreateSpace(old(State()))
    {
      FreeHeadOk(State(), free);
      root := FrameAllocate();
      if root.Some? {
        var active := Load(pages, BOOT_PML4, KERNEL_SLOT);
        pages := Store(pages, root.value, KERNEL_SLOT, active);
      }
    }

    /** `quanta_map_page` */
    method MapVirtualPage(root: nat, virtual: nat, physical: nat, flags: nat, ghost free: seq<nat>, ghost t: Tables)
      returns (done: bool)
      requires Consistent(State(), free) && Forest(State(), t) && Mappable(State(), t, root, virtual)
      modifies this
      ensures (State(), done) == MapPage(old(State()), root, virtual, physical, flags)
    {
      ghost var f1, f2 := StepsConsistent(State(), free, t, root, virtual);
      hide Consistent;
      hide Forest;
      hide TableFor;
      hide Or;
      hide FrameOf;
      var pdpt := TableForEntry(root, virtual / 0x8000000000 % 512, free);
      if pdpt == None { return false; }
      var pd := TableForEntry(pdpt.value, virtual / 0x40000000 % 512, f1);
      if pd == None { return false; }
      var pt := TableForEntry(pd.value, virtual / 0x200000 % 512, f2);
      if pt == None { return false; }
      pages := Store(pages, pt.value, virtual / 0x1000 % 512, Or(FrameOf(physical), flags));
      done := true;
    }

    /** `destroy_table` */
    method DestroyTableFrame(table: nat, level: nat)
      requires PoolOk(State())
      modifies this
      ensures State() == DestroyTable(old(State()), table, level) && PoolOk(State())
      decreases level
    {
      if level > 1 {
        var index := 0;
        while index < 512
          invariant 0 <= index <= 512 && PoolOk(State())
          invariant DestroyEntries(State(), table, level, 512, index)
                      == DestroyEntries(old(State()), table, level, 512, 0)
        {
          EntriesStep(State(), table, level, 512, index);
          var e := Load(pages, table, index);
          index := index + 1;
          if !Present(e) { continue; }
          if level < 4 && PageSize(e) { continue; }
          DestroyTableFrame(FrameOf(e), level - 1);
        }
      }
      FrameRelease(table);
    }

    /** `quanta_address_space_destroy`; `active` is the value of the page-table base register. */
    method AddressSpaceDestroy(root: nat, active: nat)
      requires PoolOk(State())
      modifies this
      ensures State() == DestroySpace(old(State()), root, active)
    {
      hide Allocated;
      hide Load;
      hide FrameOf;
      hide Release;
      hide DestroyTable;
      hide DestroyEntries;
      EntriesDone(root);
      var taken := FrameIsAllocated(root);
      if !taken { return; }
      if FrameOf(active) == root { return; }
      var index := 0;
      while index < KERNEL_SLOT
        invariant 0 <= index <= KERNEL_SLOT && PoolOk(State())
        invariant DestroyEntries(State(), root, 4, KERNEL_SLOT, index)
                    == DestroyEntries(old(State()), root, 4, KERNEL_SLOT, 0)
      {
        EntriesStep(State(), root, 4, KERNEL_SLOT, index);
        var e := Load(pages, root, index);
        if Present(e) { DestroyTableFrame(FrameOf(e), 3); }
        index := index + 1;
      }
      FrameRelease(root);
    }
  }

  /** The skip test of the loop, on 64-bit words. */
  lemma Skipped(r: Region)
    requires RegionWord(r)
    ensures var end := (r.start + r.length) % WORD;
            !r.usable || end < r.start || end <= POOL_FLOOR ==> !Eligible(r)
  {
  }

  /** The clipping of the loop, on 64-bit words. */
  lemma Clipped(r: Region)
    requires RegionWord(r)
    requires r.usable && (r.start + r.length) % WORD >= r.start && (r.start + r.length) % WORD > POOL_FLOOR
    ensures Eligible(r)
    ensures var start := if r.start < POOL_FLOOR then POOL_FLOOR else r.start;
            FrameOf((start + PAGE_SIZE - 1) % WORD) == if RoundingWraps(r) then 0 else ClipStart(r)
    ensures var end := (r.start + r.length) % WORD;
            FrameOf(if end > IDENTITY_LIMIT then IDENTITY_LIMIT else end) == ClipEnd(r)
  {
    assert r.start + r.length < WORD;
  }

  lemma BestDecides(regions: seq<Region>, bestStart: nat, bestEnd: nat)
    requires forall r :: r in regions ==> RegionWord(r)
    requires BestOf(regions, |regions|, bestStart, bestEnd)
    ensures bestStart != 0 <==>
              && (forall j :: 0 <= j < |regions| ==> !RoundingWraps(regions[j]))
              && (exists i :: 0 <= i < |regions| && Eligible(regions[i]) && ClipSize(regions[i]) > 0)
    ensures bestStart != 0 ==> exists i ::
              && 0 <= i < |regions| && Eligible(regions[i])
              && bestStart == ClipStart(regions[i]) && bestEnd == ClipEnd(regions[i])
              && forall j :: 0 <= j < |regions| && Eligible(regions[j]) ==> ClipSize(regions[j]) <= ClipSize(regions[i])
    ensures bestStart != 0 ==>
              POOL_FLOOR <= bestStart < bestEnd <= IDENTITY_LIMIT && Aligned(bestStart) && Aligned(bestEnd)
  {
    hide ClipStart;
    hide ClipEnd;
    hide Eligible;
    if bestStart != 0 {
      var i :| 0 <= i < |regions| && Eligible(regions[i]) && bestStart == ClipStart(regions[i])
      && bestEnd == ClipEnd(regions[i]);
      assert regions[i] in regions;
      ClipBounds(regions[i]);
    }
  }

  lemma InitialPool(m: Memory)
    requires PoolOk(m) && m.nextFrame == m.poolStart && m.freeHead == 0
    ensures MemoryMapped(m.pages) ==> Consistent(m, [])
    ensures AllocatedSet(m) == {}
  {
  }

  /** The maps that the kernel makes: pages of a space's user half, and pages of the kernel slot through the
      boot root. */
  ghost predicate Mappable(m: Memory, t: Tables, root: nat, va: nat) {
    || (IsRoot(t, root) && Index(va, 4) != KERNEL_SLOT)
    || (root == BOOT_PML4 && Index(va, 4) == KERNEL_SLOT && Ready(m, t) && Passable(m.pages, KernelRoot(m), 3, va))
  }

  /** The allocator's structures agree between the steps of a mapping. */
  lemma StepsConsistent(m: Memory, free: seq<nat>, t: Tables, root: nat, va: nat) returns (f1: seq<nat>, f2: seq<nat>)
    requires Consistent(m, free) && Forest(m, t) && Mappable(m, t, root, va)
    ensures var (m1, pdpt) := TableFor(m, root, Index(va, 4));
            Consistent(m1, f1) && (pdpt.Some? ==> Consistent(TableFor(m1, pdpt.value, Index(va, 3)).0, f2))
  {
    hide Consistent;
    hide Forest;
    hide Index;
    hide TableFor;
    hide GrownBelow;
    hide Load;
    hide FrameOf;
    hide OthersKept;
    hide RootOf;
    hide Ready;
    hide Passable;
    hide KernelRoot;
    if Index(va, 4) == KERNEL_SLOT {
      f1, f2 := SharedStepsConsistent(m, free, t, va);
      return;
    }
    OwnRoot(t, root);
    var t1, t2;
    f1, t1 := TableForStep(m, free, t, root, Index(va, 4), root);
    var (m1, pdpt) := TableFor(m, root, Index(va, 4));
    if pdpt.Some? {
      f2, t2 := TableForStep(m1, f1, t1, pdpt.value, Index(va, 3), root);
    } else {
      f2 := [];
    }
  }

  lemma OwnRoot(t: Tables, root: nat)
    requires IsRoot(t, root)
    ensures RootOf(t, root) == root
  {
  }

  lemma SharedStepsConsistent(m: Memory, free: seq<nat>, t: Tables, va: nat) returns (f1: seq<nat>, f2: seq<nat>)
    requires Consistent(m, free) && Forest(m, t) && Ready(m, t)
    requires Index(va, 4) == KERNEL_SLOT && Passable(m.pages, KernelRoot(m), 3, va)
    ensures var (m1, pdpt) := TableFor(m, BOOT_PML4, Index(va, 4));
            Consistent(m1, f1) && pdpt.Some? && Consistent(TableFor(m1, pdpt.value, Index(va, 3)).0, f2)
  {
    hide Consistent;
    hide Forest;
    hide Ready;
    hide Extended;
    hide WalksKept;
    hide TableFor;
    hide KernelRoot;
    hide Load;
    hide FrameOf;
    hide Index;
    hide Passable;
    KernelRootShared(m, t);
    BootTable(m, t, va);
    PassableHere(m.pages, KernelRoot(m), 3, va);
    f1 := free;
    var t2;
    f2, t2 := TableForShared(m, free, t, KernelRoot(m), Index(va, 3));
  }

  lemma EntriesDone(root: nat)
    ensures forall m: Memory :: DestroyEntries(m, root, 4, KERNEL_SLOT, KERNEL_SLOT) == m
  {
  }

  lemma FreeHeadOk(m: Memory, free: seq<nat>)
    requires Consistent(m, free)
    ensures PoolOk(m) && MemoryMapped(m.pages)
    ensures m.freeHead != 0 ==> m.poolStart <= m.freeHead < m.poolEnd && Aligned(m.freeHead)
  {
    if free != [] { assert free[0] in free; }
  }

  lemma NextBest(regions: seq<Region>, n: nat, bestStart: nat, bestEnd: nat, start: nat, end: nat)
    requires n < |regions| && RegionWord(regions[n]) && Eligible(regions[n])
    requires BestOf(regions, n, bestStart, bestEnd)
    requires end == ClipEnd(regions[n])
    requires start == if RoundingWraps(regions[n]) then 0 else ClipStart(regions[n])
    requires forall r :: r in regions ==> RegionWord(r)
    ensures if start < end && end - start > bestEnd - bestStart then BestOf(regions, n + 1, start, end)
            else BestOf(regions, n + 1, bestStart, bestEnd)
  {
    ClipBounds(regions[n]);
    forall j | 0 <= j < n && Eligible(regions[j])
      ensures ClipSize(regions[j]) <= IDENTITY_LIMIT - POOL_FLOOR
      ensures POOL_FLOOR <= ClipStart(regions[j]) && ClipEnd(regions[j]) <= IDENTITY_LIMIT
    {
      assert regions[j] in regions;
      ClipBounds(regions[j]);
    }
    hide ClipStart;
    hide ClipEnd;
  }

  /** A memory map of one usable byte, within a page of the end of the address space, makes the machine
      halt: rounding its start up wraps. */
  method HighRegionHalts(memory: PhysicalMemory) returns (running: bool)
    requires |memory.bitmap| == BITMAP_WORDS
    modifies memory
    ensures RoundingWraps(Region(WORD - 4095, 1, true)) && !running
  {
    var regions := [Region(WORD - 4095, 1, true)];
    running := memory.Initialize(regions);
    assert RoundingWraps(regions[0]);
  }
}
