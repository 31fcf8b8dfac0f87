/** Value-level specification of the address-space teardown of kernel/mm/memory.c. */
module Teardown {
  import opened Frames
  import opened Paging

  /** `destroy_table`: release the tables below `table`, then `table` itself. */
  function DestroyTable(m: Memory, table: nat, level: nat): Memory
    decreases level, 513
  {
    Release(if level > 1 then DestroyEntries(m, table, level, 512, 0) else m, table)
  }

  /** The loop over entries `i` to `limit` of `destroy_table` and `quanta_address_space_destroy`. */
  function DestroyEntries(m: Memory, table: nat, level: nat, limit: nat, i: nat): Memory
    decreases level, limit - i
  {
    if level <= 1 || i >= limit then m
    else
      var e := Load(m.pages, table, i);
      var a := if Present(e) && !(level < 4 && PageSize(e)) then DestroyTable(m, FrameOf(e), level - 1) else m;
      DestroyEntries(a, table, level, limit, i + 1)
  }

  /** `quanta_address_space_destroy`, with the active root read from the processor. */
  function DestroySpace(m: Memory, root: nat, active: nat): Memory {
    if !Allocated(m, root) || FrameOf(active) == root then m
    else Release(DestroyEntries(m, root, 4, KERNEL_SLOT, 0), root)
  }

  /** The tables from `f` downwards. */
  ghost function Subtree(t: Tables, f: nat): set<nat> {
    set g | g in t.own && LevelOf(t, g) <= LevelOf(t, f) && Ancestor(t, g, LevelOf(t, f)) == f
  }

  /** The tables below entries `lo` to `hi` of `f`. */
  ghost function Branches(t: Tables, f: nat, lo: nat, hi: nat): set<nat> {
    set g | g in t.own && LevelOf(t, g) < LevelOf(t, f) && BranchOf(t, f, g, lo, hi)
  }

  ghost predicate BranchOf(t: Tables, f: nat, g: nat, lo: nat, hi: nat) {
    LevelOf(t, f) > 1 &&
    var c := Ancestor(t, g, LevelOf(t, f) - 1);
    c in t.own && t.own[c].level == LevelOf(t, f) - 1 && t.own[c].parent == f && lo <= t.own[c].slot < hi
  }

  lemma {:induction false} UpStep(t: Tables, g: nat, n: nat)
    requires Up(t, g, n) in t.own
    ensures Up(t, g, n + 1) == t.own[Up(t, g, n)].parent
    decreases n
  {
    if n > 0 && g in t.own { UpStep(t, t.own[g].parent, n - 1); }
    else if n > 0 { }
    else { assert Up(t, g, 1) == Up(t, t.own[g].parent, 0); }
  }

  lemma Levels(m: Memory, t: Tables)
    requires Forest(m, t)
    ensures forall g :: g in t.own ==> 1 <= t.own[g].level <= 4
  {
    hide LinksUp;
    hide LinksDown;
    hide SharedDown;
    hide BootOk;
  }

  /** Below a table are the table itself and what hangs on its entries; the kernel slot of a root
      holds nothing of its own. */
  lemma SubtreeSplit(m: Memory, t: Tables, f: nat)
    requires Forest(m, t) && f in t.own
    ensures t.own[f].level == 1 ==> Subtree(t, f) == {f}
    ensures t.own[f].level > 1 ==>
              && Subtree(t, f) == {f} + Branches(t, f, 0, if t.own[f].level == 4 then KERNEL_SLOT else 512)
              && f !in Branches(t, f, 0, 512) && f !in Branches(t, f, 0, KERNEL_SLOT)
  {
    hide Forest;
    hide BranchOf;
    Levels(m, t);
    var level := t.own[f].level;
    forall g | g in t.own && t.own[g].level == level
      ensures Ancestor(t, g, level) == g
    {
    }
    if level > 1 {
      forall g | g in t.own && t.own[g].level < level
        ensures Ancestor(t, g, level) == f <==> BranchOf(t, f, g, 0, if level == 4 then KERNEL_SLOT else 512)
      {
        SplitBelow(m, t, f, g);
      }
    }
    hide Forest;
    hide BranchOf;
    hide Ancestor;
  }

  lemma SplitBelow(m: Memory, t: Tables, f: nat, g: nat)
    requires Forest(m, t) && f in t.own && g in t.own && t.own[g].level < t.own[f].level
    ensures Ancestor(t, g, t.own[f].level) == f <==>
              BranchOf(t, f, g, 0, if t.own[f].level == 4 then KERNEL_SLOT else 512)
  {
    hide Allocated;
    hide Load;
    hide DownOk;
    hide SharedOk;
    hide SharedDown;
    hide BootOk;
    var level := t.own[f].level;
    UpExtends(m, t, t, g, level - 1);
    UpStep(t, g, level - 1 - t.own[g].level);
    assert UpOk(m.pages, t, Ancestor(t, g, level - 1));
  }

  /** Entry `i` of `f` and the table that hangs on it determine each other. */
  lemma EntryIsChild(m: Memory, t: Tables, f: nat, i: nat)
    requires Forest(m, t) && f in t.own && t.own[f].level > 1 && i < 512 && !(t.own[f].level == 4 && i == KERNEL_SLOT)
    ensures var e := Load(m.pages, f, i);
            && (Present(e) ==>
                  !PageSize(e) && FrameOf(e) in t.own && t.own[FrameOf(e)] == Node(t.own[f].level - 1, f, i))
            && forall c :: c in t.own && t.own[c] == Node(t.own[f].level - 1, f, i) ==> Present(e) && c == FrameOf(e)
  {
    hide Allocated;
    hide Load;
    var e := Load(m.pages, f, i);
    assert DownOk(m.pages, t, f, i);
    if Present(e) { FrameOfTable(FrameOf(e)); }
    hide FrameOf;
    hide Present;
    hide PageSize;
    forall c | c in t.own && t.own[c] == Node(t.own[f].level - 1, f, i)
      ensures Present(e) && c == FrameOf(e)
    {
      assert UpOk(m.pages, t, c) && Allocated(m, c);
      AllocatedAligned(m, c);
      FrameOfTable(c);
    }
  }

  /** The tables below one entry are the subtree it points to, or nothing. */
  lemma BranchSplit(m: Memory, t: Tables, f: nat, i: nat, hi: nat)
    requires Forest(m, t) && f in t.own && t.own[f].level > 1 && i < hi <= 512
    requires t.own[f].level == 4 ==> hi <= KERNEL_SLOT
    ensures var e := Load(m.pages, f, i);
            && (!Present(e) ==> Branches(t, f, i, hi) == Branches(t, f, i + 1, hi))
            && (Present(e) ==>
                  && !PageSize(e)
                  && FrameOf(e) in t.own && t.own[FrameOf(e)].level == t.own[f].level - 1
                  && Branches(t, f, i, hi) == Subtree(t, FrameOf(e)) + Branches(t, f, i + 1, hi)
                  && Subtree(t, FrameOf(e)) !! Branches(t, f, i + 1, hi)
                  && f !in Subtree(t, FrameOf(e)))
  {
    hide *;
    EntryIsChild(m, t, f, i);
    var e := Load(m.pages, f, i);
    forall g
      ensures g in Branches(t, f, i, hi) <==>
                g in Branches(t, f, i + 1, hi) || (Present(e) && g in Subtree(t, FrameOf(e)))
      ensures Present(e) ==> !(g in Subtree(t, FrameOf(e)) && g in Branches(t, f, i + 1, hi))
    {
      BranchMember(t, f, i, hi, g, e);
    }
    SubtreeLevels(t, FrameOf(e), f);
  }

  lemma SubtreeLevels(t: Tables, c: nat, f: nat)
    ensures f in t.own && c in t.own && t.own[c].level < t.own[f].level ==> f !in Subtree(t, c)
  {
  }

  lemma BranchMember(t: Tables, f: nat, i: nat, hi: nat, g: nat, e: nat)
    requires f in t.own && t.own[f].level > 1 && i < hi
    requires Present(e) ==> FrameOf(e) in t.own && t.own[FrameOf(e)] == Node(t.own[f].level - 1, f, i)
    requires forall c :: c in t.own && t.own[c] == Node(t.own[f].level - 1, f, i) ==> Present(e) && c == FrameOf(e)
    ensures g in Branches(t, f, i, hi) <==>
              g in Branches(t, f, i + 1, hi) || (Present(e) && g in Subtree(t, FrameOf(e)))
    ensures Present(e) ==> !(g in Subtree(t, FrameOf(e)) && g in Branches(t, f, i + 1, hi))
  {
    hide Ancestor;
    hide FrameOf;
  }

  lemma AllocatedAligned(m: Memory, f: nat)
    requires Allocated(m, f)
    ensures Aligned(f)
  {
  }

  /** Exactly the frames in `s` went from allocated to the free list, each of them once, and
      nothing outside them was written. */
  ghost predicate Freed(m: Memory, free: seq<nat>, n: Memory, gone: seq<nat>, s: set<nat>) {
    && Consistent(n, gone + free)
    && (forall g: nat :: g in gone <==> g in s)
    && (forall g: nat :: Allocated(n, g) == (Allocated(m, g) && g !in s))
    && (forall p: nat :: p in m.pages && p !in s ==> p in n.pages && n.pages[p] == m.pages[p])
    && n.poolStart == m.poolStart && n.poolEnd == m.poolEnd && n.nextFrame == m.nextFrame
  }

  lemma FreedTransitive(a: Memory, free: seq<nat>, b: Memory, g1: seq<nat>, s1: set<nat>,
                        c: Memory, g2: seq<nat>, s2: set<nat>)
    requires Freed(a, free, b, g1, s1) && Freed(b, g1 + free, c, g2, s2)
    ensures Freed(a, free, c, g2 + g1, s1 + s2)
  {
    hide Allocated;
    assert g2 + (g1 + free) == (g2 + g1) + free;
    hide Consistent;
  }

  lemma ReleaseFrees(m: Memory, free: seq<nat>, f: nat)
    requires Consistent(m, free) && Allocated(m, f)
    ensures Freed(m, free, Release(m, f), [f], {f})
  {
    hide Release;
    var free' := ReleaseOk(m, free, f);
    hide Allocated;
    hide Consistent;
  }

  /** The tables in `s` are still allocated and still hold what they held in `m0`. */
  ghost predicate Intact(m0: Memory, m: Memory, s: set<nat>) {
    forall g :: g in s ==> Allocated(m, g) && forall j: nat :: Load(m.pages, g, j) == Load(m0.pages, g, j)
  }

  lemma IntactAfter(m0: Memory, m: Memory, free: seq<nat>, n: Memory, gone: seq<nat>, s: set<nat>, rest: set<nat>)
    requires Consistent(m, free) && Freed(m, free, n, gone, s) && Intact(m0, m, rest) && rest !! s
    ensures Intact(m0, n, rest)
  {
    forall g | g in rest
      ensures Allocated(n, g) && forall j: nat :: Load(n.pages, g, j) == Load(m0.pages, g, j)
    {
      MappedWhenAllocated(m, free, g);
      hide Allocated;
      hide Consistent;
    }
  }

  lemma {:induction false} DestroyTableOk(m0: Memory, t: Tables, m: Memory, free: seq<nat>, f: nat, level: nat)
    returns (gone: seq<nat>)
    requires Forest(m0, t) && LevelOf(t, f) == level && 1 <= level <= 3
    requires Consistent(m, free) && Intact(m0, m, Subtree(t, f))
    ensures Freed(m, free, DestroyTable(m, f, level), gone, Subtree(t, f))
    decreases level, 513
  {
    hide Release;
    hide DestroyEntries;
    hide DestroyTable;
    hide Ancestor;
    hide Allocated;
    hide Consistent;
    hide Subtree;
    hide Branches;
    hide Forest;
    hide Freed;
    TableStep(m, f, level);
    SubtreeSplit(m0, t, f);
    if level > 1 {
      var below := Branches(t, f, 0, 512);
      gone := DestroyEntriesOk(m0, t, m, free, f, level, 512, 0);
      var a := DestroyEntries(m, f, level, 512, 0);
      ReleaseLast(m, free, a, gone, below, f);
      gone := [f] + gone;
      assert below + {f} == Subtree(t, f);
    } else {
      ReleaseFrees(m, free, f);
      gone := [f];
    }
  }

  /** Releasing a table after everything below it. */
  lemma ReleaseLast(m: Memory, free: seq<nat>, a: Memory, gone: seq<nat>, below: set<nat>, f: nat)
    requires Freed(m, free, a, gone, below) && Allocated(m, f) && f !in below
    ensures Freed(m, free, Release(a, f), [f] + gone, below + {f})
  {
    FreedConsistent(m, free, a, gone, below, f);
    hide Allocated;
    hide Consistent;
    hide Freed;
    ReleaseFrees(a, gone + free, f);
    FreedTransitive(m, free, a, gone, below, Release(a, f), [f], {f});
  }

  lemma FreedConsistent(m: Memory, free: seq<nat>, n: Memory, gone: seq<nat>, s: set<nat>, f: nat)
    requires Freed(m, free, n, gone, s)
    ensures Consistent(n, gone + free)
    ensures Allocated(m, f) && f !in s ==> Allocated(n, f)
  {
  }

  lemma {:induction false} DestroyEntriesOk(m0: Memory, t: Tables, m: Memory, free: seq<nat>,
                                            f: nat, level: nat, limit: nat, i: nat)
    returns (gone: seq<nat>)
    requires Forest(m0, t) && LevelOf(t, f) == level > 1 && i <= limit <= 512
    requires level == 4 ==> limit <= KERNEL_SLOT
    requires Consistent(m, free) && Intact(m0, m, Branches(t, f, i, limit)) && Intact(m0, m, {f})
    ensures Freed(m, free, DestroyEntries(m, f, level, limit, i), gone, Branches(t, f, i, limit))
    decreases level, limit - i
  {
    hide Allocated;
    hide Consistent;
    hide Subtree;
    hide Branches;
    hide FrameOf;
    hide Load;
    hide Forest;
    hide Freed;
    hide Intact;
    EntriesStep(m, f, level, limit, i);
    hide DestroyEntries;
    hide DestroyTable;
    if i == limit {
      gone := [];
      NothingFreed(m, free);
      NoBranches(t, f, i);
    } else {
      LevelAtMostFour(m0, t, f);
      BranchSplit(m0, t, f, i, limit);
      IntactLoad(m0, m, f, i);
      var e := Load(m0.pages, f, i);
      if Present(e) {
        gone := DestroyBranch(m0, t, m, free, f, level, limit, i, FrameOf(e));
      } else {
        gone := DestroyEntriesOk(m0, t, m, free, f, level, limit, i + 1);
      }
    }
  }

  lemma NoBranches(t: Tables, f: nat, i: nat)
    ensures Branches(t, f, i, i) == {}
  {
  }

  lemma {:induction false} DestroyBranch(m0: Memory, t: Tables, m: Memory, free: seq<nat>,
                                         f: nat, level: nat, limit: nat, i: nat, c: nat)
    returns (gone: seq<nat>)
    requires Forest(m0, t) && LevelOf(t, f) == level && 1 < level <= 4 && i < limit <= 512
    requires level == 4 ==> limit <= KERNEL_SLOT
    requires LevelOf(t, c) == level - 1
    requires Branches(t, f, i, limit) == Subtree(t, c) + Branches(t, f, i + 1, limit)
    requires Subtree(t, c) !! Branches(t, f, i + 1, limit) && f !in Subtree(t, c)
    requires Consistent(m, free) && Intact(m0, m, Branches(t, f, i, limit)) && Intact(m0, m, {f})
    ensures Freed(m, free, DestroyEntries(DestroyTable(m, c, level - 1), f, level, limit, i + 1), gone,
                  Branches(t, f, i, limit))
    decreases level, limit - i, 0
  {
    hide Allocated;
    hide Consistent;
    hide Subtree;
    hide Branches;
    hide Forest;
    hide Freed;
    hide LevelOf;
    hide DestroyEntries;
    hide DestroyTable;
    var sub, rest := Subtree(t, c), Branches(t, f, i + 1, limit);
    IntactSubset(m0, m, sub + rest, sub);
    IntactSubset(m0, m, sub + rest, rest);
    hide Intact;
    var g1 := DestroyTableOk(m0, t, m, free, c, level - 1);
    var a := DestroyTable(m, c, level - 1);
    FreedConsistent(m, free, a, g1, sub, f);
    IntactAfter(m0, m, free, a, g1, sub, rest);
    IntactAfter(m0, m, free, a, g1, sub, {f});
    var g2 := DestroyEntriesOk(m0, t, a, g1 + free, f, level, limit, i + 1);
    FreedTransitive(m, free, a, g1, sub, DestroyEntries(a, f, level, limit, i + 1), g2, rest);
    gone := g2 + g1;
  }

  lemma IntactLoad(m0: Memory, m: Memory, f: nat, i: nat)
    requires Intact(m0, m, {f})
    ensures Load(m.pages, f, i) == Load(m0.pages, f, i)
  {
    assert f in {f};
  }

  lemma NothingFreed(m: Memory, free: seq<nat>)
    requires Consistent(m, free)
    ensures Freed(m, free, m, [], {})
  {
    assert [] + free == free;
  }

  lemma EntriesStep(m: Memory, f: nat, level: nat, limit: nat, i: nat)
    requires level > 1 && i <= limit <= 512
    ensures i == limit ==> DestroyEntries(m, f, level, limit, i) == m
    ensures i < limit ==>
              var e := Load(m.pages, f, i);
              DestroyEntries(m, f, level, limit, i) == DestroyEntries(
                if Present(e) && !(level < 4 && PageSize(e)) then DestroyTable(m, FrameOf(e), level - 1) else m,
                f, level, limit, i + 1)
  {
  }

  lemma TableStep(m: Memory, f: nat, level: nat)
    ensures DestroyTable(m, f, level) == Release(if level > 1 then DestroyEntries(m, f, level, 512, 0) else m, f)
  {
  }

  lemma LevelAtMostFour(m: Memory, t: Tables, f: nat)
    requires Forest(m, t) && f in t.own
    ensures t.own[f].level <= 4
  {
  }

  lemma IntactSubset(m0: Memory, m: Memory, s: set<nat>, part: set<nat>)
    requires Intact(m0, m, s) && part <= s
    ensures Intact(m0, m, part)
  {
  }

  // ---------------------------------------------------------------------------------------------
  // The whole space
  // ---------------------------------------------------------------------------------------------

  ghost function Without(t: Tables, gone: set<nat>): Tables {
    t.(own := map f | f in t.own && f !in gone :: t.own[f])
  }

  lemma SubtreeClosed(m: Memory, t: Tables, root: nat, g: nat)
    requires Forest(m, t) && IsRoot(t, root) && g in t.own && t.own[g].level < 4
    ensures g in Subtree(t, root) <==> t.own[g].parent in Subtree(t, root)
  {
    hide Allocated;
    hide Load;
    assert UpOk(m.pages, t, g);
  }

  /** `n` holds what `m` holds outside `s`, with `s` released. */
  ghost predicate Emptied(m: Memory, n: Memory, s: set<nat>) {
    && (forall g, j: nat :: g !in s ==> Load(n.pages, g, j) == Load(m.pages, g, j))
    && (forall g: nat :: Allocated(n, g) == (Allocated(m, g) && g !in s))
    && n.poolStart == m.poolStart && n.poolEnd == m.poolEnd
  }

  lemma TeardownUp(m: Memory, t: Tables, root: nat, n: Memory, f: nat)
    requires Forest(m, t) && IsRoot(t, root) && Emptied(m, n, Subtree(t, root))
    requires f in Without(t, Subtree(t, root)).own
    ensures UpOk(n.pages, Without(t, Subtree(t, root)), f)
  {
    assert UpOk(m.pages, t, f);
    if t.own[f].level < 4 { SubtreeClosed(m, t, root, f); }
    hide Allocated;
    hide Load;
    hide Forest;
    hide Subtree;
  }

  lemma TeardownDown(m: Memory, t: Tables, root: nat, n: Memory, f: nat, j: nat)
    requires Forest(m, t) && IsRoot(t, root) && Emptied(m, n, Subtree(t, root))
    requires f in Without(t, Subtree(t, root)).own && j < 512
    ensures DownOk(n.pages, Without(t, Subtree(t, root)), f, j)
  {
    hide Allocated;
    hide Load;
    hide FrameOf;
    hide Subtree;
    hide Present;
    assert DownOk(m.pages, t, f, j);
    LevelAtMostFour(m, t, f);
    hide Forest;
    var e := Load(m.pages, f, j);
    if Present(e) && t.own[f].level >= 2 && !(t.own[f].level == 4 && j == KERNEL_SLOT) {
      SubtreeClosed(m, t, root, FrameOf(e));
    }
  }

  lemma TeardownShared(m: Memory, t: Tables, n: Memory, s: set<nat>)
    requires Forest(m, t) && s <= t.own.Keys && Emptied(m, n, s) && BOOT_PML4 !in s
    ensures SharedOk(n, Without(t, s)) && SharedDown(n.pages, Without(t, s)) && BootOk(n.pages, Without(t, s))
    ensures OwnedOk(n, Without(t, s))
  {
    hide Allocated;
    hide Load;
    hide FrameOf;
    forall k, j | k in t.kernel && j < 512
      ensures KernelOk(n.pages, Without(t, s), k, j)
    {
      assert KernelOk(m.pages, t, k, j);
    }
  }

  lemma TeardownKeepsForest(m: Memory, free: seq<nat>, t: Tables, root: nat, n: Memory, gone: seq<nat>)
    requires Consistent(m, free) && Forest(m, t) && IsRoot(t, root) && Freed(m, free, n, gone, Subtree(t, root))
    ensures Forest(n, Without(t, Subtree(t, root)))
    ensures SameTables(m.pages, n.pages, Without(t, Subtree(t, root)))
  {
    hide Consistent;
    hide Freed;
    hide Allocated;
    hide Forest;
    hide Emptied;
    hide Subtree;
    hide UpOk;
    hide DownOk;
    var s := Subtree(t, root);
    var t' := Without(t, s);
    PoolOkWhenConsistent(m, free);
    SubtreeInside(m, t, root);
    OutsideSame(m, free, n, gone, s);
    TeardownShared(m, t, n, s);
    TablesStay(m, t, n, s);
    forall f | f in t'.own
      ensures UpOk(n.pages, t', f)
    {
      TeardownUp(m, t, root, n, f);
    }
    forall f, j | f in t'.own && j < 512
      ensures DownOk(n.pages, t', f, j)
    {
      TeardownDown(m, t, root, n, f, j);
    }
    assert LinksUp(n.pages, t') && LinksDown(n.pages, t');
    AllParts(n, t');
  }

  lemma SubtreeInside(m: Memory, t: Tables, root: nat)
    requires Forest(m, t) && PoolOk(m)
    ensures BOOT_PML4 !in Subtree(t, root) && Subtree(t, root) <= t.own.Keys
    ensures forall k :: k in t.kernel ==> k !in Subtree(t, root)
  {
    hide Ancestor;
    hide LinksUp;
    hide LinksDown;
    hide SharedDown;
    hide BootOk;
  }

  lemma TablesStay(m: Memory, t: Tables, n: Memory, s: set<nat>)
    requires Emptied(m, n, s) && BOOT_PML4 !in s && forall k :: k in t.kernel ==> k !in s
    ensures SameTables(m.pages, n.pages, Without(t, s))
  {
    hide Allocated;
    hide Load;
  }

  lemma AllParts(m: Memory, t: Tables)
    requires OwnedOk(m, t) && LinksUp(m.pages, t) && LinksDown(m.pages, t)
    requires SharedOk(m, t) && SharedDown(m.pages, t) && BootOk(m.pages, t)
    ensures Forest(m, t)
  {
  }

  lemma OutsideSame(m: Memory, free: seq<nat>, n: Memory, gone: seq<nat>, s: set<nat>)
    requires Consistent(m, free) && Freed(m, free, n, gone, s)
    ensures Emptied(m, n, s)
  {
    assert MemoryMapped(m.pages) && MemoryMapped(n.pages);
    hide Allocated;
    hide Consistent;
    hide Aligned;
  }

  lemma RootAllocated(m: Memory, t: Tables, root: nat)
    requires Forest(m, t) && IsRoot(t, root)
    ensures Allocated(m, root)
  {
  }

  lemma RootInSubtree(t: Tables, root: nat)
    requires IsRoot(t, root)
    ensures root in Subtree(t, root) && Subtree(t, root) <= t.own.Keys
  {
  }

  /** Destroying an inactive space releases each of its table frames exactly once and no other
      frame (no leaf, no shared kernel table, no table of another space), and leaves every other
      space's translations unchanged. */
  lemma DestroySpaceOk(m: Memory, free: seq<nat>, t: Tables, root: nat, active: nat)
    returns (gone: seq<nat>, t': Tables)
    requires Consistent(m, free) && Forest(m, t) && IsRoot(t, root) && FrameOf(active) != root
    ensures var n := DestroySpace(m, root, active);
            && Freed(m, free, n, gone, Subtree(t, root))
            && t' == Without(t, Subtree(t, root))
            && Forest(n, t')
            && SameTranslations(m, n, t')
  {
    hide Allocated;
    hide DestroyEntries;
    hide Intact;
    hide FrameOf;
    hide Consistent;
    hide Freed;
    hide Forest;
    hide Subtree;
    hide Branches;
    hide SameTables;
    hide SameTranslations;
    RootAllocated(m, t, root);
    SubtreeSplit(m, t, root);
    RootInSubtree(t, root);
    IntactNow(m, t, Branches(t, root, 0, KERNEL_SLOT));
    IntactNow(m, t, {root});
    var s := Subtree(t, root);
    t' := Without(t, s);
    hide Without;
    var g1 := DestroyEntriesOk(m, t, m, free, root, 4, KERNEL_SLOT, 0);
    var a := DestroyEntries(m, root, 4, KERNEL_SLOT, 0);
    ReleaseLast(m, free, a, g1, Branches(t, root, 0, KERNEL_SLOT), root);
    gone := [root] + g1;
    var n := DestroySpace(m, root, active);
    assert n == Release(a, root);
    hide Release;
    hide DestroySpace;
    assert Branches(t, root, 0, KERNEL_SLOT) + {root} == s;
    TeardownKeepsForest(m, free, t, root, n, gone);
    DestroyedTranslations(m, t, t', n, s);
  }

  lemma IntactNow(m: Memory, t: Tables, s: set<nat>)
    requires Forest(m, t) && s <= t.own.Keys
    ensures Intact(m, m, s)
  {
  }

  lemma DestroyedTranslations(m: Memory, t: Tables, t': Tables, n: Memory, s: set<nat>)
    requires Forest(m, t) && t' == Without(t, s) && Forest(n, t') && SameTables(m.pages, n.pages, t')
    ensures SameTranslations(m, n, t')
  {
    hide Allocated;
    hide Load;
    forall r, va: nat | IsRoot(t', r)
      ensures Translate(n, r, va) == Translate(m, r, va)
    {
      WalkSame(n, m.pages, t', r, va);
    }
  }
}
