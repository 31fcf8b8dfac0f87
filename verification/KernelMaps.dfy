/** Maps into the shared kernel half: `quanta_arch_display_initialize` maps the framebuffer through slot 511
    of the boot root, with table frames from the pool, before any task space exists
    (kernel/arch/x86_64/tables.c, kernel/mm/memory.c, kernel/core/kernel_main.c). */
module KernelMaps {
  import opened Bits
  import opened Options
  import opened Frames
  import opened Paging
  import opened Teardown
  import opened AddressSpaces

  /** Entry `i` of the shared table `k` leads to a table. */
  ghost predicate Points(pages: map<nat, Page>, t: Tables, k: nat, i: nat)
    requires k in t.kernel
  {
    t.kernel[k] >= 2 && i < 512 && Present(Load(pages, k, i)) && !PageSize(Load(pages, k, i))
  }

  /** No shared table hangs below two entries. */
  ghost predicate Single(pages: map<nat, Page>, t: Tables) {
    forall k, i, l, j: nat ::
      k in t.kernel && l in t.kernel && Points(pages, t, k, i) && Points(pages, t, l, j)
      && FrameOf(Load(pages, k, i)) == FrameOf(Load(pages, l, j))
      ==> k == l && i == j
  }

  /** What the shared tables are like before and after every map into them. */
  ghost predicate Ready(m: Memory, t: Tables) {
    && BOOT_PML4 !in t.kernel
    && Present(Load(m.pages, BOOT_PML4, KERNEL_SLOT))
    && (forall k :: k in t.kernel ==> k in m.pages)
    && Single(m.pages, t)
  }

  /** No large page stands where `quanta_map_page` looks for a table. */
  predicate Passable(pages: map<nat, Page>, table: nat, level: nat, va: nat)
    decreases level
  {
    level <= 1
    || var e := Load(pages, table, Index(va, level));
       Present(e) ==> !PageSize(e) && Passable(pages, FrameOf(e), level - 1, va)
  }

  function KernelRoot(m: Memory): nat { FrameOf(Load(m.pages, BOOT_PML4, KERNEL_SLOT)) }

  // ---------------------------------------------------------------------------------------------
  // One table
  // ---------------------------------------------------------------------------------------------

  function Share(t: Tables, k: nat, x: nat): Tables
    requires k in t.kernel && t.kernel[k] >= 2
  {
    t.(kernel := t.kernel[x := t.kernel[k] - 1])
  }

  ghost predicate CanShare(m: Memory, t: Tables, k: nat, i: nat, x: nat) {
    && k in t.kernel && t.kernel[k] >= 2 && i < 512 && !Present(Load(m.pages, k, i))
    && Aligned(x) && m.poolStart <= x < m.poolEnd && !Allocated(m, x)
  }

  lemma SharedNotFree(m: Memory, free: seq<nat>, k: nat)
    requires Consistent(m, free) && NeverHandedOut(m, k)
    ensures k !in free
  {
    hide Allocated;
  }

  lemma SharedStores(m: Memory, free: seq<nat>, k: nat, i: nat) returns (free': seq<nat>)
    requires Consistent(m, free) && NeverHandedOut(m, k) && k in m.pages && i < 512
    requires !Present(Load(m.pages, k, i))
    requires Allocate(m).1.Some?
    ensures var (n, r) := TableFor(m, k, i);
            && Consistent(n, free') && r.Some?
            && Aligned(r.value) && m.poolStart <= r.value < m.poolEnd && !Allocated(m, r.value)
            && n.poolStart == m.poolStart && n.poolEnd == m.poolEnd
            && (forall g: nat :: Allocated(n, g) == (g == r.value || Allocated(m, g)))
            && Inserted(m.pages, n.pages, k, i, r.value)
            && (forall p: nat :: p in m.pages ==> p in n.pages)
  {
    hide NeverHandedOut;
    hide Allocated;
    hide Allocate;
    hide Consistent;
    hide Aligned;
    hide Load;
    hide Inserted;
    hide Or;
    free' := AllocateOk(m, free);
    var (a, xo) := Allocate(m);
    var x := xo.value;
    StaysShared(m, a, k, x);
    EntryWord(x);
    SharedNotFree(a, free', k);
    MappedInPool(m, free, x);
    StoreOk(a, free', k, i, x + 7);
    StoreInserts(m.pages, k, i, x);
  }

  lemma StaysShared(m: Memory, n: Memory, k: nat, x: nat)
    requires NeverHandedOut(m, k) && m.poolStart <= x < m.poolEnd && !Allocated(m, x)
    requires n.poolStart == m.poolStart && n.poolEnd == m.poolEnd
    requires forall g: nat :: Allocated(n, g) == (g == x || Allocated(m, g))
    ensures NeverHandedOut(n, k) && k != x
  {
    hide Allocated;
  }

  lemma ShareForest(m: Memory, n: Memory, t: Tables, k: nat, i: nat, x: nat)
    requires PoolOk(m) && Forest(m, t) && CanShare(m, t, k, i, x) && Inserted(m.pages, n.pages, k, i, x)
    requires n.poolStart == m.poolStart && n.poolEnd == m.poolEnd
    requires forall g: nat :: Allocated(n, g) == (g == x || Allocated(m, g))
    requires BOOT_PML4 !in t.kernel
    ensures Forest(n, Share(t, k, x))
  {
    hide Allocated;
    hide Load;
    hide FrameOf;
    hide Aligned;
    FreshIsForeign(m, t, x);
    FrameOfTable(x);
    var t' := Share(t, k, x);
    assert SharedOk(n, t');
    forall f | f in t'.own
      ensures UpOk(n.pages, t', f)
    {
      assert UpOk(m.pages, t, f);
    }
    forall f, j | f in t'.own && j < 512
      ensures DownOk(n.pages, t', f, j)
    {
      assert DownOk(m.pages, t, f, j);
    }
    forall g, j | g in t'.kernel && j < 512
      ensures KernelOk(n.pages, t', g, j)
    {
      if g in t.kernel { assert KernelOk(m.pages, t, g, j); }
    }
  }

  lemma ShareReady(m: Memory, n: Memory, t: Tables, k: nat, i: nat, x: nat)
    requires PoolOk(m) && Forest(m, t) && CanShare(m, t, k, i, x) && Inserted(m.pages, n.pages, k, i, x)
    requires Ready(m, t) && forall p: nat :: p in m.pages ==> p in n.pages
    requires x in m.pages
    ensures Ready(n, Share(t, k, x))
  {
    FreshIsForeign(m, t, x);
    FrameOfTable(x);
    hide Allocated;
    hide Load;
    hide FrameOf;
    hide Aligned;
    var t' := Share(t, k, x);
    forall g, j, h, l: nat | g in t'.kernel && h in t'.kernel && Points(n.pages, t', g, j) && Points(n.pages, t', h, l)
                             && FrameOf(Load(n.pages, g, j)) == FrameOf(Load(n.pages, h, l))
      ensures g == h && j == l
    {
      SharePoints(m, n, t, k, i, x, g, j);
      SharePoints(m, n, t, k, i, x, h, l);
    }
  }

  /** An entry that leads to a table is the new one, or was there and leads to an old table. */
  lemma SharePoints(m: Memory, n: Memory, t: Tables, k: nat, i: nat, x: nat, g: nat, j: nat)
    requires Forest(m, t) && CanShare(m, t, k, i, x) && Inserted(m.pages, n.pages, k, i, x) && x !in t.kernel
             && x != BOOT_PML4
    requires g in Share(t, k, x).kernel && Points(n.pages, Share(t, k, x), g, j)
    ensures if FrameOf(Load(n.pages, g, j)) == x then g == k && j == i
            else g in t.kernel && Points(m.pages, t, g, j) && Load(n.pages, g, j) == Load(m.pages, g, j)
  {
    FrameOfTable(x);
    hide Allocated;
    hide Load;
    hide FrameOf;
    hide Aligned;
    if g in t.kernel { assert KernelOk(m.pages, t, g, j); }
  }

  /** Hanging an empty table on an absent shared entry changes no translation, and puts no large page in
      the way. */
  lemma {:induction false} ShareWalk(m: Memory, after: map<nat, Page>, t: Tables, k: nat, i: nat, x: nat, g: nat,
                                     va: nat)
    requires Forest(m, t) && CanShare(m, t, k, i, x) && Inserted(m.pages, after, k, i, x) && x !in t.kernel
    requires g in t.kernel
    ensures Walk(after, g, t.kernel[g], va) == Walk(m.pages, g, t.kernel[g], va)
    ensures Passable(m.pages, g, t.kernel[g], va) ==> Passable(after, g, t.kernel[g], va)
    decreases t.kernel[g]
  {
    hide Allocated;
    hide Load;
    hide FrameOf;
    hide Index;
    FrameOfTable(x);
    var level := t.kernel[g];
    var e := Load(m.pages, g, Index(va, level));
    assert KernelOk(m.pages, t, g, Index(va, level));
    if g == k && Index(va, level) == i {
      assert Walk(after, x, level - 1, va) == NotPresent;
    } else if Present(e) && level >= 2 && !PageSize(e) {
      ShareWalk(m, after, t, k, i, x, FrameOf(e), va);
    }
  }

  /** A walk in the user half does not see the shared tables. */
  lemma {:induction false} UserWalkSame(m: Memory, after: map<nat, Page>, t: Tables, f: nat, va: nat)
    requires Forest(m, t) && f in t.own && (forall g, j :: g in t.own ==> Load(after, g, j) == Load(m.pages, g, j))
    requires t.own[f].level == 4 ==> Index(va, 4) != KERNEL_SLOT
    ensures Walk(after, f, t.own[f].level, va) == Walk(m.pages, f, t.own[f].level, va)
    decreases t.own[f].level
  {
    hide Allocated;
    hide Load;
    hide FrameOf;
    hide Index;
    var level := t.own[f].level;
    var e := Load(m.pages, f, Index(va, level));
    assert DownOk(m.pages, t, f, Index(va, level));
    if Present(e) && level >= 2 { UserWalkSame(m, after, t, FrameOf(e), va); }
  }

  /** What a step of a shared map keeps: it may add shared tables, each a fresh frame, and changes no
      translation of a user half. */
  ghost predicate Extended(m: Memory, t: Tables, n: Memory, t': Tables) {
    && t'.own == t.own
    && (forall g :: g in t.kernel ==> g in t'.kernel && t'.kernel[g] == t.kernel[g])
    && (forall g: nat :: Allocated(n, g) <==> Allocated(m, g) || (g in t'.kernel && g !in t.kernel))
    && (forall g: nat :: g in t'.kernel && g !in t.kernel ==> !Allocated(m, g))
    && n.poolStart == m.poolStart && n.poolEnd == m.poolEnd
    && Load(n.pages, BOOT_PML4, KERNEL_SLOT) == Load(m.pages, BOOT_PML4, KERNEL_SLOT)
    && (forall g, j :: g in t.own ==> Load(n.pages, g, j) == Load(m.pages, g, j))
    && (forall g, va: nat :: g in t.kernel && Passable(m.pages, g, t.kernel[g], va) ==>
          Passable(n.pages, g, t.kernel[g], va))
  }

  ghost predicate WalksKept(m: Memory, t: Tables, n: Memory) {
    forall g, va: nat :: g in t.kernel ==> Walk(n.pages, g, t.kernel[g], va) == Walk(m.pages, g, t.kernel[g], va)
  }

  lemma ExtendedTransitive(a: Memory, ta: Tables, b: Memory, tb: Tables, c: Memory, tc: Tables)
    requires Extended(a, ta, b, tb) && Extended(b, tb, c, tc)
    ensures Extended(a, ta, c, tc)
    ensures WalksKept(a, ta, b) && WalksKept(b, tb, c) ==> WalksKept(a, ta, c)
  {
    hide Allocated;
    hide Load;
    hide Passable;
    hide Walk;
  }

  /** `table_for` on a shared table, where no large page stands in the way. */
  lemma TableForShared(m: Memory, free: seq<nat>, t: Tables, k: nat, i: nat) returns (free': seq<nat>, t': Tables)
    requires Consistent(m, free) && Forest(m, t) && Ready(m, t)
    requires k in t.kernel && t.kernel[k] >= 2 && i < 512
    requires Present(Load(m.pages, k, i)) ==> !PageSize(Load(m.pages, k, i))
    ensures var (n, r) := TableFor(m, k, i);
            && Consistent(n, free') && Forest(n, t') && Ready(n, t') && Extended(m, t, n, t') && WalksKept(m, t, n)
            && (r == None ==> free' == [] && n.nextFrame == n.poolEnd)
            && (r.Some? ==>
                  && KernelTable(t', r.value, t.kernel[k] - 1) && Points(n.pages, t', k, i)
                  && FrameOf(Load(n.pages, k, i)) == r.value)
            && (forall g, j: nat :: g in t.kernel && (g != k || j != i) ==> Load(n.pages, g, j) == Load(m.pages, g, j))
  {
    hide Consistent;
    hide Allocated;
    hide Load;
    hide FrameOf;
    hide Aligned;
    hide Or;
    hide Inserted;
    hide DownOk;
    hide UpOk;
    hide Walk;
    hide Passable;
    hide Single;
    var (n, r) := TableFor(m, k, i);
    if Present(Load(m.pages, k, i)) {
      free', t' := free, t;
      assert KernelOk(m.pages, t, k, i);
    } else {
      free' := AllocateOk(m, free);
      t' := t;
      if Allocate(m).1.Some? {
        free', t' := TableForAdds(m, free, t, k, i);
      }
    }
  }

  lemma TableForAdds(m: Memory, free: seq<nat>, t: Tables, k: nat, i: nat) returns (free': seq<nat>, t': Tables)
    requires Consistent(m, free) && Forest(m, t) && Ready(m, t)
    requires k in t.kernel && t.kernel[k] >= 2 && i < 512
    requires !Present(Load(m.pages, k, i)) && Allocate(m).1.Some?
    ensures var (n, r) := TableFor(m, k, i);
            && r.Some?
            && Consistent(n, free') && Forest(n, t') && Ready(n, t') && Extended(m, t, n, t') && WalksKept(m, t, n)
            && KernelTable(t', r.value, t.kernel[k] - 1) && Points(n.pages, t', k, i)
            && FrameOf(Load(n.pages, k, i)) == r.value
            && (forall g, j: nat :: g in t.kernel && (g != k || j != i) ==> Load(n.pages, g, j) == Load(m.pages, g, j))
  {
    hide Allocate;
    hide TableFor;
    hide Walk;
    hide Passable;
    hide Or;
    hide Single;
    hide Allocated;
    hide Chained;
    free' := SharedStores(m, free, k, i);
    var (n, r) := TableFor(m, k, i);
    var x := r.value;
    MappedInPool(m, free, x);
    PoolOkWhenConsistent(m, free);
    FreshIsForeign(m, t, x);
    FrameOfTable(x);
    ShareForest(m, n, t, k, i, x);
    ShareReady(m, n, t, k, i, x);
    t' := Share(t, k, x);
    hide Consistent;
    hide Forest;
    hide Ready;
    hide FrameOf;
    forall g, va: nat | g in t.kernel
      ensures Walk(n.pages, g, t.kernel[g], va) == Walk(m.pages, g, t.kernel[g], va)
      ensures Passable(m.pages, g, t.kernel[g], va) ==> Passable(n.pages, g, t.kernel[g], va)
    {
      ShareWalk(m, n.pages, t, k, i, x, g, va);
    }
  }

  // ---------------------------------------------------------------------------------------------
  // One page
  // ---------------------------------------------------------------------------------------------

  /** The walk from a shared table ends in the page table `pt`. */
  predicate Reaches(pages: map<nat, Page>, g: nat, level: nat, va: nat, pt: nat)
    decreases level
  {
    if level <= 1 then g == pt
    else
      var e := Load(pages, g, Index(va, level));
      Present(e) && !PageSize(e) && Reaches(pages, FrameOf(e), level - 1, va, pt)
  }

  lemma KernelRootShared(m: Memory, t: Tables)
    requires Forest(m, t) && Ready(m, t)
    ensures KernelTable(t, KernelRoot(m), 3)
  {
    hide Allocated;
    hide Load;
    hide FrameOf;
  }

  lemma PassableHere(pages: map<nat, Page>, g: nat, level: nat, va: nat)
    requires Passable(pages, g, level, va) && level >= 2
    ensures var e := Load(pages, g, Index(va, level));
            Present(e) ==> !PageSize(e) && Passable(pages, FrameOf(e), level - 1, va)
  {
  }

  /** The three steps of `quanta_map_page` on the boot root, for an address of the kernel slot. */
  lemma PageTableShared(m: Memory, free: seq<nat>, t: Tables, va: nat) returns (free': seq<nat>, t': Tables)
    requires Consistent(m, free) && Forest(m, t) && Ready(m, t)
    requires Index(va, 4) == KERNEL_SLOT && Passable(m.pages, KernelRoot(m), 3, va)
    ensures var (n, pt) := PageTableFor(m, BOOT_PML4, va);
            && Consistent(n, free') && Forest(n, t') && Ready(n, t') && Extended(m, t, n, t') && WalksKept(m, t, n)
            && (pt == None ==> free' == [] && n.nextFrame == n.poolEnd)
            && (pt.Some? ==> KernelTable(t', pt.value, 1) && Reaches(n.pages, KernelRoot(n), 3, va, pt.value))
  {
    hide Consistent;
    hide Forest;
    hide Ready;
    hide Extended;
    hide WalksKept;
    hide TableFor;
    hide KernelRoot;
    hide Allocated;
    hide Load;
    hide FrameOf;
    hide Index;
    hide Passable;
    hide Present;
    hide PageSize;
    KernelRootShared(m, t);
    BootTable(m, t, va);
    var pdpt := KernelRoot(m);
    PassableHere(m.pages, pdpt, 3, va);
    var f2, t2 := TableForShared(m, free, t, pdpt, Index(va, 3));
    var (m2, r2) := TableFor(m, pdpt, Index(va, 3));
    free', t' := f2, t2;
    if r2.Some? {
      StillPassable(m, t, m2, t2, pdpt, va);
      PassableHere(m2.pages, pdpt, 3, va);
      PassableHere(m2.pages, r2.value, 2, va);
      var f3, t3 := TableForShared(m2, f2, t2, r2.value, Index(va, 2));
      var (m3, r3) := TableFor(m2, r2.value, Index(va, 2));
      ExtendedTransitive(m, t, m2, t2, m3, t3);
      free', t' := f3, t3;
      SameKernelRoot(m, t, m3, t3);
      if r3.Some? { ReachesThrough(m3.pages, pdpt, r2.value, r3.value, va); }
    }
  }

  lemma BootTable(m: Memory, t: Tables, va: nat)
    requires Ready(m, t) && Index(va, 4) == KERNEL_SLOT
    ensures TableFor(m, BOOT_PML4, Index(va, 4)) == (m, Some(KernelRoot(m)))
  {
    hide Load;
    hide FrameOf;
    hide Single;
    hide Index;
  }

  lemma StillPassable(m: Memory, t: Tables, n: Memory, t': Tables, g: nat, va: nat)
    requires Extended(m, t, n, t') && KernelTable(t, g, 3) && Passable(m.pages, g, 3, va)
    ensures Passable(n.pages, g, 3, va) && KernelTable(t', g, 3)
  {
    hide Passable;
    hide Allocated;
    hide Load;
  }

  lemma SameKernelRoot(m: Memory, t: Tables, n: Memory, t': Tables)
    requires Extended(m, t, n, t')
    ensures KernelRoot(n) == KernelRoot(m)
  {
    hide Passable;
    hide Allocated;
    hide Load;
    hide FrameOf;
  }

  lemma ReachesThrough(pages: map<nat, Page>, pdpt: nat, pd: nat, pt: nat, va: nat)
    requires Present(Load(pages, pdpt, Index(va, 3))) && !PageSize(Load(pages, pdpt, Index(va, 3)))
    requires FrameOf(Load(pages, pdpt, Index(va, 3))) == pd
    requires Present(Load(pages, pd, Index(va, 2))) && !PageSize(Load(pages, pd, Index(va, 2)))
    requires FrameOf(Load(pages, pd, Index(va, 2))) == pt
    ensures Reaches(pages, pdpt, 3, va, pt)
  {
    hide Load;
    hide FrameOf;
    hide Index;
    assert Reaches(pages, pd, 2, va, pt);
  }

  /** Two walks that meet in a shared table came through the same entries. */
  lemma {:induction false} ReachesOnce(m: Memory, t: Tables, g: nat, va: nat, h: nat, vb: nat, pt: nat)
    requires Forest(m, t) && Ready(m, t) && g in t.kernel && h in t.kernel && t.kernel[g] == t.kernel[h]
    requires Reaches(m.pages, g, t.kernel[g], va, pt) && Reaches(m.pages, h, t.kernel[h], vb, pt)
    ensures g == h && forall l :: 1 < l <= t.kernel[g] ==> Index(va, l) == Index(vb, l)
    decreases t.kernel[g]
  {
    hide Allocated;
    hide Load;
    hide FrameOf;
    hide Index;
    var level := t.kernel[g];
    if level > 1 {
      assert KernelOk(m.pages, t, g, Index(va, level)) && KernelOk(m.pages, t, h, Index(vb, level));
      assert Points(m.pages, t, g, Index(va, level)) && Points(m.pages, t, h, Index(vb, level));
      var e, d := Load(m.pages, g, Index(va, level)), Load(m.pages, h, Index(vb, level));
      ReachesOnce(m, t, FrameOf(e), va, FrameOf(d), vb, pt);
    }
  }

  /** What a walk shows of a leaf entry: the entry, with no right that it does not grant. */
  predicate Shows(found: Mapping, e: nat) {
    if Present(e) then found.Mapped? && found.entry == e && found.level == 1
                       && (found.writable ==> Writable(e)) && (found.user ==> User(e))
    else found == NotPresent
  }

  /** The same below an entry of the root, which may deny more. */
  predicate ShowsBelow(slot: nat, found: Mapping, e: nat) {
    Shows(found, e)
    && (found.Mapped? ==> (found.writable ==> Writable(slot)) && (found.user ==> User(slot)))
  }

  /** Replacing a leaf entry of a shared page table changes the walks that reach it, and no other. */
  lemma {:induction false} SharedLeafWalk(m: Memory, after: map<nat, Page>, t: Tables, pt: nat, i: nat, e: nat, g: nat,
                                          vb: nat)
    requires Forest(m, t) && KernelTable(t, pt, 1) && LeafStored(m.pages, after, pt, i, e) && g in t.kernel
    ensures if Reaches(m.pages, g, t.kernel[g], vb, pt) && Index(vb, 1) == i
            then Shows(Walk(after, g, t.kernel[g], vb), e)
            else Walk(after, g, t.kernel[g], vb) == Walk(m.pages, g, t.kernel[g], vb)
    ensures Passable(m.pages, g, t.kernel[g], vb) ==> Passable(after, g, t.kernel[g], vb)
    decreases t.kernel[g]
  {
    hide Allocated;
    hide Load;
    hide FrameOf;
    hide Index;
    var level := t.kernel[g];
    var d := Load(m.pages, g, Index(vb, level));
    assert KernelOk(m.pages, t, g, Index(vb, level));
    if Present(d) && level >= 2 && !PageSize(d) { SharedLeafWalk(m, after, t, pt, i, e, FrameOf(d), vb); }
  }

  lemma SharedLeafForest(m: Memory, n: Memory, t: Tables, pt: nat, i: nat, e: nat)
    requires Forest(m, t) && Ready(m, t) && KernelTable(t, pt, 1) && LeafStored(m.pages, n.pages, pt, i, e)
    requires n.poolStart == m.poolStart && n.poolEnd == m.poolEnd
    requires forall g: nat :: Allocated(n, g) == Allocated(m, g)
    requires forall p: nat :: p in m.pages ==> p in n.pages
    ensures Forest(n, t) && Ready(n, t)
  {
    hide Allocated;
    hide Load;
    hide FrameOf;
    forall f | f in t.own
      ensures UpOk(n.pages, t, f)
    {
      assert UpOk(m.pages, t, f);
    }
    forall f, j | f in t.own && j < 512
      ensures DownOk(n.pages, t, f, j)
    {
      assert DownOk(m.pages, t, f, j);
    }
    forall k, j | k in t.kernel && j < 512
      ensures KernelOk(n.pages, t, k, j)
    {
      assert KernelOk(m.pages, t, k, j);
    }
    forall k, j: nat | k in t.kernel && Points(n.pages, t, k, j)
      ensures Points(m.pages, t, k, j) && Load(m.pages, k, j) == Load(n.pages, k, j)
    {
    }
    assert Single(n.pages, t);
  }

  /** The leaf store of a shared map. */
  lemma SharedLeafOk(m: Memory, free: seq<nat>, t: Tables, pt: nat, i: nat, e: nat)
    requires Consistent(m, free) && Forest(m, t) && Ready(m, t) && KernelTable(t, pt, 1) && i < 512
    ensures var n := m.(pages := Store(m.pages, pt, i, e));
            && Consistent(n, free) && Forest(n, t) && Ready(n, t) && Extended(m, t, n, t)
            && LeafStored(m.pages, n.pages, pt, i, e)
  {
    hide Consistent;
    hide Allocated;
    hide Single;
    hide Passable;
    hide Load;
    hide LeafStored;
    hide LinksUp;
    hide LinksDown;
    hide SharedDown;
    hide BootOk;
    var n := m.(pages := Store(m.pages, pt, i, e));
    SharedNotFree(m, free, pt);
    StoreOk(m, free, pt, i, e);
    StoredLeaf(m.pages, pt, i, e);
    SharedLeafForest(m, n, t, pt, i, e);
    forall g, va: nat | g in t.kernel && Passable(m.pages, g, t.kernel[g], va)
      ensures Passable(n.pages, g, t.kernel[g], va)
    {
      SharedLeafWalk(m, n.pages, t, pt, i, e, g, va);
    }
    LeafElsewhere(m.pages, n.pages, t, pt, i, e);
  }

  lemma LeafElsewhere(pages: map<nat, Page>, after: map<nat, Page>, t: Tables, pt: nat, i: nat, e: nat)
    requires LeafStored(pages, after, pt, i, e) && pt in t.kernel && pt !in t.own && BOOT_PML4 !in t.kernel
    ensures Load(after, BOOT_PML4, KERNEL_SLOT) == Load(pages, BOOT_PML4, KERNEL_SLOT)
    ensures forall g, j :: g in t.own ==> Load(after, g, j) == Load(pages, g, j)
  {
    hide Load;
  }

  lemma BootWalk(m: Memory, vb: nat)
    requires Present(Load(m.pages, BOOT_PML4, KERNEL_SLOT)) && Index(vb, 4) == KERNEL_SLOT
    ensures Translate(m, BOOT_PML4, vb)
            == Restrict(Load(m.pages, BOOT_PML4, KERNEL_SLOT), Walk(m.pages, KernelRoot(m), 3, vb))
  {
  }

  /** `quanta_map_page` on the boot root, for a page of the kernel slot: every table it adds is a fresh frame
      shared by all spaces; the page shows the new leaf entry, to user mode only if the boot root's slot
      grants that, and every other page of the slot translates as before.  It halts only when the pool is
      exhausted. */
  lemma MapSharedOk(m: Memory, free: seq<nat>, t: Tables, va: nat, pa: nat, flags: nat)
    returns (free': seq<nat>, t': Tables)
    requires Consistent(m, free) && Forest(m, t) && Ready(m, t)
    requires Index(va, 4) == KERNEL_SLOT && Passable(m.pages, KernelRoot(m), 3, va)
    ensures var (n, done) := MapPage(m, BOOT_PML4, va, pa, flags);
            && Consistent(n, free') && Forest(n, t') && Ready(n, t') && Extended(m, t, n, t')
            && (!done ==> free' == [] && n.nextFrame == n.poolEnd)
            && (forall vb: nat :: Index(vb, 4) == KERNEL_SLOT ==>
                  if done && SamePage(va, vb)
                  then ShowsBelow(Load(m.pages, BOOT_PML4, KERNEL_SLOT), Translate(n, BOOT_PML4, vb),
                                  Or(FrameOf(pa), flags))
                  else Translate(n, BOOT_PML4, vb) == Translate(m, BOOT_PML4, vb))
            && (forall r, vb: nat :: IsRoot(t, r) && Index(vb, 4) != KERNEL_SLOT ==>
                  Translate(n, r, vb) == Translate(m, r, vb))
  {
    hide Consistent;
    hide Forest;
    hide Single;
    hide Or;
    hide PageTableFor;
    hide Passable;
    hide Load;
    hide FrameOf;
    hide Index;
    hide Translate;
    hide Walk;
    hide Allocated;
    hide SamePage;
    hide Store;
    hide LeafStored;
    hide Reaches;
    hide ShowsBelow;
    hide Restrict;
    KernelRootShared(m, t);
    free', t' := PageTableShared(m, free, t, va);
    var (a, pt) := PageTableFor(m, BOOT_PML4, va);
    var n := MapPage(m, BOOT_PML4, va, pa, flags).0;
    var e := Or(FrameOf(pa), flags);
    if pt.Some? {
      SharedLeafOk(a, free', t', pt.value, Index(va, 1), e);
      ExtendedTransitive(m, t, a, t', n, t');
    }
    forall vb: nat | Index(vb, 4) == KERNEL_SLOT
      ensures if pt.Some? && SamePage(va, vb)
              then ShowsBelow(Load(m.pages, BOOT_PML4, KERNEL_SLOT), Translate(n, BOOT_PML4, vb), e)
              else Translate(n, BOOT_PML4, vb) == Translate(m, BOOT_PML4, vb)
    {
      BootWalk(m, vb);
      BootWalk(a, vb);
      BootWalk(n, vb);
      if pt.Some? { SharedTranslates(a, n, t', pt.value, va, e, vb); }
    }
    forall r, vb: nat | IsRoot(t, r) && Index(vb, 4) != KERNEL_SLOT
      ensures Translate(n, r, vb) == Translate(m, r, vb)
    {
      UserTranslates(m, n, t, t', r, vb);
    }
  }

  lemma UserTranslates(m: Memory, n: Memory, t: Tables, t': Tables, r: nat, vb: nat)
    requires Forest(m, t) && Extended(m, t, n, t') && IsRoot(t, r) && Index(vb, 4) != KERNEL_SLOT
    ensures Translate(n, r, vb) == Translate(m, r, vb)
  {
    hide Forest;
    hide Allocated;
    hide Load;
    hide Passable;
    hide Index;
    hide Walk;
    UserWalkSame(m, n.pages, t, r, vb);
  }

  lemma SharedTranslates(m: Memory, n: Memory, t: Tables, pt: nat, va: nat, e: nat, vb: nat)
    requires Forest(m, t) && Ready(m, t) && KernelTable(t, pt, 1) && LeafStored(m.pages, n.pages, pt, Index(va, 1), e)
    requires Index(va, 4) == KERNEL_SLOT && Index(vb, 4) == KERNEL_SLOT
    requires Reaches(m.pages, KernelRoot(m), 3, va, pt)
    ensures var before, after, slot := Walk(m.pages, KernelRoot(m), 3, vb), Walk(n.pages, KernelRoot(m), 3, vb),
                                    Load(m.pages, BOOT_PML4, KERNEL_SLOT);
            if SamePage(va, vb) then ShowsBelow(slot, Restrict(slot, after), e) else after == before
  {
    KernelRootShared(m, t);
    var g := KernelRoot(m);
    if SamePage(va, vb) { ReachesSamePage(m.pages, g, 3, va, vb, pt); }
    hide Forest;
    hide Ready;
    hide Index;
    hide Load;
    hide Reaches;
    hide LeafStored;
    hide Walk;
    hide KernelRoot;
    SharedLeafWalk(m, n.pages, t, pt, Index(va, 1), e, g, vb);
    if Reaches(m.pages, g, 3, vb, pt) { ReachesOnce(m, t, g, va, g, vb, pt); }
  }

  lemma {:induction false} ReachesSamePage(pages: map<nat, Page>, g: nat, level: nat, va: nat, vb: nat, pt: nat)
    requires SamePage(va, vb) && level <= 3
    ensures Reaches(pages, g, level, va, pt) == Reaches(pages, g, level, vb, pt)
    decreases level
  {
    hide Load;
    hide FrameOf;
    if level > 1 {
      assert level == 3 || level == 2;
      assert Index(va, level) == Index(vb, level);
      ReachesSamePage(pages, FrameOf(Load(pages, g, Index(va, level))), level - 1, va, vb, pt);
    }
  }

  // ---------------------------------------------------------------------------------------------
  // Setting up the display
  // ---------------------------------------------------------------------------------------------

  /** The gigabyte of the framebuffer and the back buffer. */
  predicate InDisplay(va: nat) { Index(va, 4) == KERNEL_SLOT && Index(va, 3) == 511 }

  ghost predicate DisplayFree(m: Memory) {
    forall va: nat :: InDisplay(va) ==> Passable(m.pages, KernelRoot(m), 3, va)
  }

  /** `quanta_map_page` on the boot root; the tables it takes are never given back. */
  function MapShared(s: System, va: nat, pa: nat, flags: nat): System {
    var n := MapPage(s.mem, BOOT_PML4, va, pa, flags).0;
    s.(mem := n, pinned := s.pinned + (AllocatedSet(n) - AllocatedSet(s.mem)))
  }

  datatype DisplayOp = BackPage | MapDisplay(va: nat, pa: nat, flags: nat)

  function SetUp(s: System, op: DisplayOp): System {
    match op
    case BackPage => Apply(s, TakeFrame)
    case MapDisplay(va, pa, flags) => MapShared(s, va, pa, flags)
  }

  function SetUpAll(s: System, ops: seq<DisplayOp>): System
    decreases |ops|
  {
    if ops == [] then s else SetUpAll(SetUp(s, ops[0]), ops[1..])
  }

  predicate DisplayOps(ops: seq<DisplayOp>) {
    forall i :: 0 <= i < |ops| && ops[i].MapDisplay? ==> InDisplay(ops[i].va)
  }

  /** The shared tables and the boot root's slot hold the same words. */
  ghost predicate KernelKept(pages: map<nat, Page>, after: map<nat, Page>, t: Tables) {
    && (forall k, j :: k in t.kernel ==> Load(after, k, j) == Load(pages, k, j))
    && Load(after, BOOT_PML4, KERNEL_SLOT) == Load(pages, BOOT_PML4, KERNEL_SLOT)
  }

  lemma {:induction false} PassableSame(m: Memory, after: map<nat, Page>, t: Tables, g: nat, va: nat)
    requires Forest(m, t) && KernelKept(m.pages, after, t) && g in t.kernel
    ensures Passable(after, g, t.kernel[g], va) == Passable(m.pages, g, t.kernel[g], va)
    decreases t.kernel[g]
  {
    hide Allocated;
    hide Load;
    hide FrameOf;
    hide Index;
    var level := t.kernel[g];
    var e := Load(m.pages, g, Index(va, level));
    assert KernelOk(m.pages, t, g, Index(va, level));
    if Present(e) && level >= 2 && !PageSize(e) { PassableSame(m, after, t, FrameOf(e), va); }
  }

  lemma BackPageReady(s: System, free: seq<nat>, t: Tables)
    requires Sound(s, free, t) && Ready(s.mem, t) && DisplayFree(s.mem)
    ensures Ready(Apply(s, TakeFrame).mem, t) && DisplayFree(Apply(s, TakeFrame).mem)
  {
    var m, n := s.mem, Apply(s, TakeFrame).mem;
    var free' := AllocateOk(m, free);
    PoolOkWhenConsistent(m, free);
    KernelRootShared(m, t);
    if Allocate(m).1.Some? {
      var x := Allocate(m).1.value;
      FreshIsForeign(m, t, x);
      ForeignPage(m.pages, n.pages, t, x);
    }
    hide Consistent;
    hide Allocate;
    hide Allocated;
    hide Load;
    hide FrameOf;
    hide Passable;
    hide InDisplay;
    assert KernelKept(m.pages, n.pages, t);
    forall k, j: nat | k in t.kernel && Points(n.pages, t, k, j)
      ensures Points(m.pages, t, k, j)
    {
    }
    forall va: nat | InDisplay(va)
      ensures Passable(n.pages, KernelRoot(n), 3, va)
    {
      PassableSame(m, n.pages, t, KernelRoot(m), va);
    }
  }

  lemma MapSharedSound(s: System, free: seq<nat>, t: Tables, va: nat, pa: nat, flags: nat)
    returns (free': seq<nat>, t': Tables)
    requires Sound(s, free, t) && Ready(s.mem, t) && DisplayFree(s.mem) && InDisplay(va)
    ensures var n := MapShared(s, va, pa, flags);
            && Sound(n, free', t') && Ready(n.mem, t') && DisplayFree(n.mem)
            && (forall f: nat :: f in n.pinned <==> f in s.pinned || (f in t'.kernel && f !in t.kernel))
            && KernelGrows(t, t')
  {
    hide MapPage;
    hide Consistent;
    hide Forest;
    hide Ready;
    hide Allocated;
    hide AllocatedSet;
    hide Load;
    hide Passable;
    hide KernelRoot;
    hide DisplayFree;
    hide Or;
    hide FrameOf;
    hide ShowsBelow;
    hide SamePage;
    hide Translate;
    hide Index;
    var m, n := s.mem, MapShared(s, va, pa, flags);
    DisplayPassable(m, va);
    free', t' := MapSharedOk(m, free, t, va, pa, flags);
    KernelRootShared(m, t);
    StillFree(m, t, n.mem, t');
    InPool(m);
    InPool(n.mem);
    KernelHeld(n.mem, t');
  }

  lemma DisplayPassable(m: Memory, va: nat)
    requires DisplayFree(m) && InDisplay(va)
    ensures Index(va, 4) == KERNEL_SLOT && Passable(m.pages, KernelRoot(m), 3, va)
  {
  }

  lemma StillFree(m: Memory, t: Tables, n: Memory, t': Tables)
    requires DisplayFree(m) && Extended(m, t, n, t') && KernelTable(t, KernelRoot(m), 3)
    ensures DisplayFree(n)
  {
    hide Passable;
    hide Allocated;
    hide Load;
    hide FrameOf;
    hide InDisplay;
  }

  lemma InPool(m: Memory)
    ensures forall f: nat :: f in AllocatedSet(m) <==> Allocated(m, f)
  {
  }

  lemma KernelHeld(m: Memory, t: Tables)
    requires Forest(m, t)
    ensures forall f :: f in t.kernel ==> f !in t.own
  {
  }

  lemma SetUpStep(s: System, free: seq<nat>, t: Tables, op: DisplayOp) returns (free': seq<nat>, t': Tables)
    requires Sound(s, free, t) && Ready(s.mem, t) && DisplayFree(s.mem) && (op.MapDisplay? ==> InDisplay(op.va))
    ensures var n := SetUp(s, op);
            && Sound(n, free', t') && Ready(n.mem, t') && DisplayFree(n.mem) && n.roots == s.roots
            && (forall f: nat :: f in n.pinned <==> f in s.pinned || (f in t'.kernel && f !in t.kernel))
            && KernelGrows(t, t')
  {
    hide Sound;
    hide Ready;
    hide DisplayFree;
    hide InDisplay;
    hide Allocate;
    hide AllocatedSet;
    hide MapPage;
    match op
    case BackPage =>
      BackPageReady(s, free, t);
      t' := t;
      free' := TakeFrameSound(s, free, t);
    case MapDisplay(va, pa, flags) =>
      free', t' := MapSharedSound(s, free, t, va, pa, flags);
  }

  ghost predicate KernelGrows(t: Tables, t': Tables) {
    forall f :: f in t.kernel ==> f in t'.kernel && t'.kernel[f] == t.kernel[f]
  }

  /** Setting up the display keeps the invariant: back-buffer pages are handed out, the tables of the maps
      are pinned. */
  lemma {:induction false} SetUpSound(s: System, free: seq<nat>, t: Tables, ops: seq<DisplayOp>)
    returns (free': seq<nat>, t': Tables)
    requires Sound(s, free, t) && Ready(s.mem, t) && DisplayFree(s.mem) && DisplayOps(ops)
    ensures var n := SetUpAll(s, ops);
            && Sound(n, free', t') && Ready(n.mem, t') && DisplayFree(n.mem) && n.roots == s.roots
            && (forall f: nat :: f in n.pinned <==> f in s.pinned || (f in t'.kernel && f !in t.kernel))
            && KernelGrows(t, t')
    decreases |ops|
  {
    hide Sound;
    hide Ready;
    hide DisplayFree;
    hide SetUp;
    hide InDisplay;
    free', t' := free, t;
    if ops != [] {
      var f1, t1 := SetUpStep(s, free, t, ops[0]);
      free', t' := SetUpSound(SetUp(s, ops[0]), f1, t1, ops[1..]);
    }
  }

  // ---------------------------------------------------------------------------------------------
  // All later spaces share the maps
  // ---------------------------------------------------------------------------------------------

  /** Pages other than the tables of spaces keep the words of the shared ones. */
  lemma KeptPages(m: Memory, free: seq<nat>, t: Tables, n: Memory, free': seq<nat>, t': Tables)
    requires Consistent(m, free) && Forest(m, t) && Consistent(n, free') && Forest(n, t') && t'.kernel == t.kernel
    requires PagesKept(m.pages, n.pages, t')
    ensures KernelKept(m.pages, n.pages, t)
  {
    assert forall p: nat :: p in m.pages <==> p in n.pages;
    assert BOOT_PML4 !in t'.own;
    forall k, j | k in t.kernel
      ensures Load(n.pages, k, j) == Load(m.pages, k, j)
    {
      assert k in t'.kernel && k !in t'.own;
    }
  }

  /** No legal operation writes to the shared tables. */
  lemma StepKeepsKernel(s: System, free: seq<nat>, t: Tables, op: Op)
    requires Sound(s, free, t) && Legal(s, op)
    ensures KernelKept(s.mem.pages, Apply(s, op).mem.pages, t)
  {
    var m, n := s.mem, Apply(s, op).mem;
    hide Allocated;
    hide Consistent;
    hide LinksUp;
    hide LinksDown;
    hide SharedDown;
    hide BootOk;
    hide Load;
    PoolOkWhenConsistent(m, free);
    match op
    case TakeFrame =>
      hide Allocate;
      var free' := AllocateOk(m, free);
      if Allocate(m).1.Some? {
        FreshIsForeign(m, t, Allocate(m).1.value);
        ForeignPage(m.pages, n.pages, t, Allocate(m).1.value);
      }
    case GiveBack(frame) =>
      hide Release;
      var free' := ReleaseOk(m, free, frame);
      if Allocated(m, frame) { ForeignPage(m.pages, n.pages, t, frame); }
    case NewSpace =>
      hide CreateSpace;
      hide Forest;
      var free', t' := CreateSpaceOk(m, free, t);
      hide PagesKept;
      if CreateSpace(m).1.Some? { KeptPages(m, free, t, n, free', t'); }
    case Map(root, va, pa, flags) =>
      hide MapPage;
      hide Forest;
      hide Index;
      hide PagesKept;
      var free', t' := MapPageOk(m, free, t, root, va, pa, flags);
      KeptPages(m, free, t, n, free', t');
    case Destroy(root, active) =>
      DestroyKeepsKernel(s, free, t, root, active);
    case Write(frame, index, word) =>
      ForeignPage(m.pages, n.pages, t, frame);
  }

  lemma DestroyKeepsKernel(s: System, free: seq<nat>, t: Tables, root: nat, active: nat)
    requires Sound(s, free, t) && Legal(s, Destroy(root, active))
    ensures KernelKept(s.mem.pages, DestroySpace(s.mem, root, active).pages, t)
  {
    var m := s.mem;
    var n := DestroySpace(m, root, active);
    if root in s.roots && FrameOf(active) != root {
      var gone, t' := DestroySpaceOk(m, free, t, root, active);
      assert forall p: nat :: p in m.pages ==> p in n.pages;
      assert forall p: nat :: p in m.pages <==> p in n.pages;
      assert BOOT_PML4 !in t.own;
      forall k | k in t.kernel || k == BOOT_PML4
        ensures k !in Subtree(t, root)
      {
      }
    } else {
      NothingDestroyed(m, root, active);
    }
  }

  /** Every live space sees the kernel slot as `first` has it below the boot root. */
  ghost predicate SharesKernel(s: System, first: Memory) {
    forall vb: nat :: Index(vb, 4) == KERNEL_SLOT ==>
      && Translate(s.mem, BOOT_PML4, vb) == Translate(first, BOOT_PML4, vb)
      && forall r :: r in s.roots ==> Translate(s.mem, r, vb) == Translate(first, BOOT_PML4, vb)
  }

  lemma BootTranslationKept(m: Memory, n: Memory, t: Tables, vb: nat)
    requires Forest(m, t) && KernelKept(m.pages, n.pages, t) && Index(vb, 4) == KERNEL_SLOT
    ensures Translate(n, BOOT_PML4, vb) == Translate(m, BOOT_PML4, vb)
  {
    hide Allocated;
    hide Load;
    hide FrameOf;
    hide Index;
    var e := Load(m.pages, BOOT_PML4, KERNEL_SLOT);
    if Present(e) { WalkKernelSame(m, n.pages, t, FrameOf(e), 3, vb); }
  }

  lemma NewRootShares(s: System, free: seq<nat>, t: Tables, r: nat, vb: nat)
    requires Sound(s, free, t) && r in Apply(s, NewSpace).roots && r !in s.roots && Index(vb, 4) == KERNEL_SLOT
    ensures Translate(Apply(s, NewSpace).mem, r, vb) == Translate(s.mem, BOOT_PML4, vb)
  {
    hide CreateSpace;
    hide Consistent;
    hide Forest;
    hide Allocated;
    hide Translate;
    hide Index;
    hide PagesKept;
    var free', t' := CreateSpaceOk(s.mem, free, t);
  }

  lemma StepShares(s: System, free: seq<nat>, t: Tables, op: Op, first: Memory) returns (free': seq<nat>, t': Tables)
    requires Sound(s, free, t) && Legal(s, op) && SharesKernel(s, first)
    ensures Sound(Apply(s, op), free', t') && SharesKernel(Apply(s, op), first)
  {
    free', t' := StepSound(s, free, t, op);
    StepKeepsKernel(s, free, t, op);
    assert Forest(s.mem, t);
    var n := Apply(s, op);
    OnlyNewSpaceAdds(s, op);
    hide Sound;
    hide Forest;
    hide Apply;
    hide Allocated;
    hide Translate;
    hide Index;
    hide KernelKept;
    forall vb: nat | Index(vb, 4) == KERNEL_SLOT
      ensures Translate(n.mem, BOOT_PML4, vb) == Translate(first, BOOT_PML4, vb)
      ensures forall r :: r in n.roots ==> Translate(n.mem, r, vb) == Translate(first, BOOT_PML4, vb)
    {
      BootTranslationKept(s.mem, n.mem, t, vb);
      forall r | r in n.roots
        ensures Translate(n.mem, r, vb) == Translate(first, BOOT_PML4, vb)
      {
        if r !in s.roots { NewRootShares(s, free, t, r, vb); }
      }
    }
  }

  lemma OnlyNewSpaceAdds(s: System, op: Op)
    ensures forall r :: r in Apply(s, op).roots && r !in s.roots ==> op == NewSpace
  {
    hide Allocate;
    hide CreateSpace;
    hide DestroySpace;
    hide MapPage;
    hide Release;
    hide Store;
  }

  /** The kernel slot as it stands before the first space is created is what every space of every later run
      sees there. */
  lemma {:induction false} RunShares(s: System, free: seq<nat>, t: Tables, ops: seq<Op>, first: Memory)
    requires Sound(s, free, t) && AllLegal(s, ops) && SharesKernel(s, first)
    ensures SharesKernel(Run(s, ops), first)
    decreases |ops|
  {
    hide Sound;
    hide Legal;
    hide Apply;
    hide SharesKernel;
    if ops != [] {
      var free', t' := StepShares(s, free, t, ops[0], first);
      RunShares(Apply(s, ops[0]), free', t', ops[1..], first);
    }
  }

  lemma NoSpacesShare(s: System)
    requires s.roots == {}
    ensures SharesKernel(s, s.mem)
  {
    hide Translate;
    hide Index;
  }
}
