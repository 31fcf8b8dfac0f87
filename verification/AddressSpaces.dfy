/** Properties of kernel/mm/memory.c over whole lives of address spaces and whole runs. */
module AddressSpaces {
  import opened Bits
  import opened Frames
  import opened Paging
  import opened Teardown

  datatype Request = Request(va: nat, pa: nat, flags: nat)

  predicate UserHalf(requests: seq<Request>) {
    forall i :: 0 <= i < |requests| ==> Index(requests[i].va, 4) != KERNEL_SLOT
  }

  /** A sequence of `quanta_map_page` calls on one root, up to a halt. */
  function MapAll(m: Memory, root: nat, requests: seq<Request>): (Memory, bool)
    decreases |requests|
  {
    if requests == [] then (m, true)
    else
      var (n, done) := MapPage(m, root, requests[0].va, requests[0].pa, requests[0].flags);
      if done then MapAll(n, root, requests[1..]) else (n, false)
  }

  /** The reference: a map from pages to leaf entries, updated by each request in turn. */
  function Updated(requests: seq<Request>, before: Mapping, vb: nat): Mapping {
    if requests == [] then before
    else
      var r := requests[0];
      Updated(requests[1..], if SamePage(r.va, vb) then Leaf(Or(FrameOf(r.pa), r.flags), 1) else before, vb)
  }

  lemma GrownTablesTransitive(a: Memory, ta: Tables, b: Memory, tb: Tables, c: Memory, tc: Tables, root: nat)
    requires GrownTables(a, ta, b, tb) && GrownTables(b, tb, c, tc)
    requires RootsKept(ta, tb, root) && RootsKept(tb, tc, root)
    ensures GrownTables(a, ta, c, tc) && RootsKept(ta, tc, root)
  {
    hide Allocated;
    hide RootOf;
  }

  /** Any sequence of maps refines the same sequence of map updates: the space translates every
      page as the updated map says, and every other space translates as before. */
  lemma {:induction false} MapAllOk(m: Memory, free: seq<nat>, t: Tables, root: nat, requests: seq<Request>)
    returns (free': seq<nat>, t': Tables)
    requires Consistent(m, free) && Forest(m, t) && IsRoot(t, root) && UserHalf(requests)
    ensures var (n, done) := MapAll(m, root, requests);
            && Consistent(n, free') && Forest(n, t') && GrownTables(m, t, n, t') && RootsKept(t, t', root)
            && (!done ==> free' == [] && n.nextFrame == n.poolEnd)
            && (forall r, vb: nat :: IsRoot(t, r) && r != root ==> Translate(n, r, vb) == Translate(m, r, vb))
            && (done ==> forall vb: nat :: Translate(n, root, vb) == Updated(requests, Translate(m, root, vb), vb))
    decreases |requests|
  {
    hide Consistent;
    hide Forest;
    hide Allocated;
    hide RootOf;
    hide Translate;
    hide SamePage;
    hide MapPage;
    hide Or;
    hide FrameOf;
    if requests == [] {
      free', t' := free, t;
    } else {
      var q := requests[0];
      assert Index(q.va, 4) != KERNEL_SLOT;
      hide Index;
      var f1, t1 := MapPageOk(m, free, t, root, q.va, q.pa, q.flags);
      var (a, done) := MapPage(m, root, q.va, q.pa, q.flags);
      hide PagesKept;
      free', t' := f1, t1;
      if done {
        free', t' := MapAllOk(a, f1, t1, root, requests[1..]);
        var n := MapAll(a, root, requests[1..]).0;
        GrownTablesTransitive(m, t, a, t1, n, t', root);
        hide RootsKept;
        forall r, vb: nat | IsRoot(t, r) && r != root
          ensures Translate(n, r, vb) == Translate(m, r, vb)
        {
          assert IsRoot(t1, r);
        }
      }
    }
  }

  /** Below a new root hang exactly the tables added since it was created. */
  lemma NewSubtree(m: Memory, t: Tables, root: nat, t': Tables)
    requires Forest(m, t) && root !in t.own
    requires RootsKept(AddRoot(t, root), t', root)
    requires forall g :: g in AddRoot(t, root).own ==> g in t'.own && t'.own[g] == AddRoot(t, root).own[g]
    requires forall g :: g in t'.own ==> t'.own[g].level <= 4
    ensures Subtree(t', root) == t'.own.Keys - t.own.Keys
  {
    var t1 := AddRoot(t, root);
    forall g | g in t'.own
      ensures RootOf(t', g) == root <==> g !in t.own
    {
      if g in t.own {
        assert t.own[g].level <= 4;
        UpExtends(m, t, t1, g, 4);
      }
    }
    hide Forest;
  }

  lemma LifeEnds(m: Memory, t: Tables, root: nat, m1: Memory, m2: Memory, t2: Tables, n: Memory)
    requires forall g :: g in t.own ==> Allocated(m, g)
    requires !Allocated(m, root)
    requires forall g: nat :: Allocated(m1, g) == (g == root || Allocated(m, g))
    requires GrownTables(m1, AddRoot(t, root), m2, t2)
    requires Subtree(t2, root) == t2.own.Keys - t.own.Keys
    requires forall g: nat :: Allocated(n, g) == (Allocated(m2, g) && g !in Subtree(t2, root))
    ensures forall g: nat :: Allocated(n, g) == Allocated(m, g)
    ensures Without(t2, Subtree(t2, root)) == t
  {
    hide Allocated;
    hide Subtree;
    assert root !in t.own;
    assert Without(t2, Subtree(t2, root)).own == t.own;
  }

  lemma LifeTranslations(m: Memory, t: Tables, root: nat, m1: Memory, m2: Memory, n: Memory)
    requires root !in t.own
    requires SameTranslations(m, m1, t) && SameTranslations(m2, n, t)
    requires forall r, vb: nat :: IsRoot(AddRoot(t, root), r) && r != root ==>
               Translate(m2, r, vb) == Translate(m1, r, vb)
    ensures SameTranslations(m, n, t)
  {
    hide Translate;
    forall r, va: nat | IsRoot(t, r)
      ensures Translate(n, r, va) == Translate(m, r, va)
    {
      assert IsRoot(AddRoot(t, root), r) && r != root;
    }
  }

  /** Create a space, map any pages into it, destroy it: the set of allocated frames is what it was
      before, and every other space translates as before. */
  lemma CreateMapDestroy(m: Memory, free: seq<nat>, t: Tables, requests: seq<Request>, active: nat)
    returns (free': seq<nat>)
    requires Consistent(m, free) && Forest(m, t) && UserHalf(requests)
    requires CreateSpace(m).1.Some?
    requires MapAll(CreateSpace(m).0, CreateSpace(m).1.value, requests).1
    requires FrameOf(active) != CreateSpace(m).1.value
    ensures var (m1, root) := CreateSpace(m);
            var n := DestroySpace(MapAll(m1, root.value, requests).0, root.value, active);
            && Consistent(n, free') && Forest(n, t)
            && (forall g: nat :: Allocated(n, g) == Allocated(m, g))
            && SameTranslations(m, n, t)
  {
    var (m1, ro) := CreateSpace(m);
    var root := ro.value;
    hide CreateSpace;
    hide MapAll;
    hide DestroySpace;
    hide Allocated;
    hide Consistent;
    hide PagesKept;
    hide Translate;
    hide FrameOf;
    hide RootOf;
    var f1, t1 := CreateSpaceOk(m, free, t);
    assert root !in t.own;
    var f2, t2 := MapAllOk(m1, f1, t1, root, requests);
    var m2 := MapAll(m1, root, requests).0;
    assert IsRoot(t2, root);
    NewSubtree(m, t, root, t2);
    var gone, t3 := DestroySpaceOk(m2, f2, t2, root, active);
    var n := DestroySpace(m2, root, active);
    FreedConsistent(m2, f2, n, gone, Subtree(t2, root), root);
    free' := gone + f2;
    LifeEnds(m, t, root, m1, m2, t2, n);
    LifeTranslations(m, t, root, m1, m2, n);
  }

  // ---------------------------------------------------------------------------------------------
  // Whole runs
  // ---------------------------------------------------------------------------------------------

  /** The memory, the roots of the live spaces, the frames handed to callers and not yet given
      back, and the frames of shared kernel tables, which stay allocated for ever. */
  datatype System = System(mem: Memory, roots: set<nat>, held: set<nat>, pinned: set<nat>)

  datatype Op =
    | TakeFrame
    | GiveBack(frame: nat)
    | NewSpace
    | Map(root: nat, va: nat, pa: nat, flags: nat)
    | Destroy(root: nat, active: nat)
    | Write(frame: nat, index: nat, word: nat)

  /** What the module asks of its callers: give back only what was handed out (giving back a frame
      that is not allocated does nothing), map into the user half of live spaces, and write only
      to frames they hold. */
  predicate Legal(s: System, op: Op) {
    match op
    case TakeFrame => true
    case GiveBack(frame) => frame in s.held || !Allocated(s.mem, frame)
    case NewSpace => true
    case Map(root, va, _, _) => root in s.roots && Index(va, 4) != KERNEL_SLOT
    case Destroy(root, _) => root in s.roots || !Allocated(s.mem, root)
    case Write(frame, _, _) => frame in s.held
  }

  function Apply(s: System, op: Op): System {
    match op
    case TakeFrame =>
      var (n, r) := Allocate(s.mem);
      s.(mem := n, held := if r.Some? then s.held + {r.value} else s.held)
    case GiveBack(frame) => s.(mem := Release(s.mem, frame), held := s.held - {frame})
    case NewSpace =>
      var (n, r) := CreateSpace(s.mem);
      s.(mem := n, roots := if r.Some? then s.roots + {r.value} else s.roots)
    case Map(root, va, pa, flags) => s.(mem := MapPage(s.mem, root, va, pa, flags).0)
    case Destroy(root, active) =>
      s.(mem := DestroySpace(s.mem, root, active),
         roots := if FrameOf(active) == root then s.roots else s.roots - {root})
    case Write(frame, index, word) => s.(mem := s.mem.(pages := Store(s.mem.pages, frame, index, word)))
  }

  function Run(s: System, ops: seq<Op>): System
    decreases |ops|
  {
    if ops == [] then s else Run(Apply(s, ops[0]), ops[1..])
  }

  predicate AllLegal(s: System, ops: seq<Op>)
    decreases |ops|
  {
    ops == [] || (Legal(s, ops[0]) && AllLegal(Apply(s, ops[0]), ops[1..]))
  }

  /** The invariant with its witnesses: the free list and the tables. */
  ghost predicate Sound(s: System, free: seq<nat>, t: Tables) {
    && Consistent(s.mem, free)
    && Forest(s.mem, t)
    && (forall f: nat :: f in s.roots <==> IsRoot(t, f))
    && (forall f: nat :: Allocated(s.mem, f) <==> f in t.own || f in s.held || f in s.pinned)
    && (forall f :: f in t.own ==> f !in s.held && f !in s.pinned)
    && (forall f :: f in s.held ==> f !in s.pinned && f !in t.kernel)
    && (forall f :: f in s.held ==> f != BOOT_PML4)
  }

  lemma ForestStable(m: Memory, n: Memory, t: Tables)
    requires Forest(m, t) && SameTables(m.pages, n.pages, t)
    requires forall f :: f in t.own ==> Allocated(n, f)
    requires forall k :: k in t.kernel ==> NeverHandedOut(n, k)
    requires Load(n.pages, BOOT_PML4, KERNEL_SLOT) == Load(m.pages, BOOT_PML4, KERNEL_SLOT)
    ensures Forest(n, t)
    ensures SameTranslations(m, n, t)
  {
    forall r, va: nat | IsRoot(t, r)
      ensures Translate(n, r, va) == Translate(m, r, va)
    {
      WalkSame(m, n.pages, t, r, va);
    }
    hide Allocated;
    hide Load;
    hide FrameOf;
    forall f | f in t.own
      ensures UpOk(n.pages, t, f)
    {
      assert UpOk(m.pages, t, f);
    }
    forall f, j | f in t.own && j < 512
      ensures DownOk(n.pages, t, f, j)
    {
      assert DownOk(m.pages, t, f, j);
    }
    forall k, j | k in t.kernel && j < 512
      ensures KernelOk(n.pages, t, k, j)
    {
      assert KernelOk(m.pages, t, k, j);
    }
  }

  /** Writing one page that is neither a table nor the boot root disturbs no table. */
  lemma ForeignPage(pages: map<nat, Page>, after: map<nat, Page>, t: Tables, f: nat)
    requires f !in t.own && f !in t.kernel && f != BOOT_PML4
    requires forall p: nat :: p != f ==> (p in after <==> p in pages) && (p in pages ==> after[p] == pages[p])
    ensures SameTables(pages, after, t)
    ensures Load(after, BOOT_PML4, KERNEL_SLOT) == Load(pages, BOOT_PML4, KERNEL_SLOT)
  {
  }

  /** Translations that an operation must leave alone. */
  ghost predicate OthersTranslateSame(s: System, op: Op, n: System) {
    forall r, va: nat :: r in s.roots && r in n.roots && !(op.Map? && op.root == r && SamePage(op.va, va))
                         ==> Translate(n.mem, r, va) == Translate(s.mem, r, va)
  }

  lemma TakeFrameSound(s: System, free: seq<nat>, t: Tables) returns (free': seq<nat>)
    requires Sound(s, free, t)
    ensures Sound(Apply(s, TakeFrame), free', t)
    ensures OthersTranslateSame(s, TakeFrame, Apply(s, TakeFrame))
  {
    hide Allocate;
    hide Consistent;
    hide SamePage;
    hide Allocated;
    hide Translate;
    hide LinksUp;
    hide LinksDown;
    hide SharedDown;
    hide BootOk;
    hide Load;
    var m := s.mem;
    free' := AllocateOk(m, free);
    var (n, r) := Allocate(m);
    PoolOkWhenConsistent(m, free);
    if r.Some? {
      FreshIsForeign(m, t, r.value);
      ForeignPage(m.pages, n.pages, t, r.value);
      ForestStable(m, n, t);
      hide Forest;
    }
  }

  lemma GiveBackSound(s: System, free: seq<nat>, t: Tables, f: nat) returns (free': seq<nat>)
    requires Sound(s, free, t) && Legal(s, GiveBack(f))
    ensures Sound(Apply(s, GiveBack(f)), free', t)
    ensures OthersTranslateSame(s, GiveBack(f), Apply(s, GiveBack(f)))
  {
    hide Release;
    hide Consistent;
    hide SamePage;
    hide Allocated;
    hide Translate;
    hide LinksUp;
    hide LinksDown;
    hide SharedDown;
    hide BootOk;
    hide Load;
    var m := s.mem;
    free' := ReleaseOk(m, free, f);
    var n := Release(m, f);
    if Allocated(m, f) {
      ForeignPage(m.pages, n.pages, t, f);
      ForestStable(m, n, t);
    }
    hide Forest;
  }

  lemma WriteSound(s: System, free: seq<nat>, t: Tables, f: nat, i: nat, w: nat)
    requires Sound(s, free, t) && f in s.held
    ensures Sound(Apply(s, Write(f, i, w)), free, t)
    ensures OthersTranslateSame(s, Write(f, i, w), Apply(s, Write(f, i, w)))
  {
    var m := s.mem;
    var n := m.(pages := Store(m.pages, f, i, w));
    MappedWhenAllocated(m, free, f);
    StoreOk(m, free, f, i, w);
    hide Consistent;
    hide SamePage;
    hide Allocated;
    hide Translate;
    ForeignPage(m.pages, n.pages, t, f);
    ForestStable(m, n, t);
    hide Forest;
  }

  lemma NewSpaceSound(s: System, free: seq<nat>, t: Tables) returns (free': seq<nat>, t': Tables)
    requires Sound(s, free, t)
    ensures Sound(Apply(s, NewSpace), free', t') && t'.kernel == t.kernel
    ensures OthersTranslateSame(s, NewSpace, Apply(s, NewSpace))
  {
    hide CreateSpace;
    hide Consistent;
    hide SamePage;
    hide Allocated;
    hide Translate;
    hide PagesKept;
    free', t' := CreateSpaceOk(s.mem, free, t);
    hide Forest;
  }

  lemma MapSound(s: System, free: seq<nat>, t: Tables, op: Op) returns (free': seq<nat>, t': Tables)
    requires Sound(s, free, t) && op.Map? && Legal(s, op)
    ensures Sound(Apply(s, op), free', t') && t'.kernel == t.kernel
    ensures OthersTranslateSame(s, op, Apply(s, op))
    ensures var (n, done) := MapPage(s.mem, op.root, op.va, op.pa, op.flags);
            Apply(s, op).mem == n &&
            (done ==> forall vb: nat :: SamePage(op.va, vb) ==>
               Translate(n, op.root, vb) == Leaf(Or(FrameOf(op.pa), op.flags), 1))
  {
    hide Consistent;
    hide SamePage;
    hide Allocated;
    hide Translate;
    hide PagesKept;
    hide MapPage;
    hide Or;
    hide FrameOf;
    hide RootsKept;
    hide Index;
    hide Forest;
    free', t' := MapPageOk(s.mem, free, t, op.root, op.va, op.pa, op.flags);
    assert forall f: nat :: f in t'.own && f !in t.own ==> !IsRoot(t', f);
  }

  lemma DestroySound(s: System, free: seq<nat>, t: Tables, op: Op) returns (free': seq<nat>, t': Tables)
    requires Sound(s, free, t) && op.Destroy? && Legal(s, op)
    ensures Sound(Apply(s, op), free', t') && t'.kernel == t.kernel
    ensures OthersTranslateSame(s, op, Apply(s, op))
  {
    free', t' := free, t;
    var m, root := s.mem, op.root;
    hide Consistent;
    hide Forest;
    hide SamePage;
    hide Translate;
    hide FrameOf;
    hide Allocated;
    if root in s.roots && FrameOf(op.active) != root {
      var gone;
      gone, t' := DestroySpaceOk(m, free, t, root, op.active);
      free' := gone + free;
      var n := DestroySpace(m, root, op.active);
      FreedConsistent(m, free, n, gone, Subtree(t, root), root);
      DestroySets(s, free, t, root, n, free');
      hide DestroySpace;
      hide Sound;
      hide Freed;
      DestroyOthers(s, t, root, Apply(s, op), op);
    } else {
      NothingDestroyed(m, root, op.active);
      hide DestroySpace;
      if root in s.roots {
        assert Apply(s, op) == s;
      } else {
        assert s.roots - {root} == s.roots;
      }
    }
  }

  lemma NothingDestroyed(m: Memory, root: nat, active: nat)
    requires !Allocated(m, root) || FrameOf(active) == root
    ensures DestroySpace(m, root, active) == m
  {
  }

  lemma DestroyOthers(s: System, t: Tables, root: nat, n: System, op: Op)
    requires root in s.roots && forall f :: f in s.roots ==> IsRoot(t, f)
    requires n.roots == s.roots - {root}
    requires SameTranslations(s.mem, n.mem, Without(t, Subtree(t, root)))
    ensures OthersTranslateSame(s, op, n)
  {
    hide Translate;
    hide SamePage;
    forall r | r in n.roots
      ensures IsRoot(Without(t, Subtree(t, root)), r)
    {
      RootOutside(t, root, r);
    }
    hide Subtree;
  }

  lemma RootOutside(t: Tables, root: nat, r: nat)
    requires IsRoot(t, r) && IsRoot(t, root) && r != root
    ensures IsRoot(Without(t, Subtree(t, root)), r)
  {
    OnlyRoot(t, root);
    hide Subtree;
  }

  lemma DestroySets(s: System, free: seq<nat>, t: Tables, root: nat, n: Memory, free': seq<nat>)
    requires Sound(s, free, t) && root in s.roots
    requires Consistent(n, free') && Forest(n, Without(t, Subtree(t, root)))
    requires forall g: nat :: Allocated(n, g) == (Allocated(s.mem, g) && g !in Subtree(t, root))
    ensures Sound(s.(mem := n, roots := s.roots - {root}), free', Without(t, Subtree(t, root)))
  {
    hide Consistent;
    hide Forest;
    hide Allocated;
    OnlyRoot(t, root);
    hide Subtree;
  }

  lemma OnlyRoot(t: Tables, root: nat)
    requires IsRoot(t, root)
    ensures forall f :: f in Subtree(t, root) && IsRoot(t, f) ==> f == root
    ensures root in Subtree(t, root)
    ensures forall f :: f in Subtree(t, root) ==> f in t.own
  {
  }

  /** Every operation keeps the invariant, and changes no translation except that of the page it
      maps or of the space it destroys. */
  lemma StepSound(s: System, free: seq<nat>, t: Tables, op: Op) returns (free': seq<nat>, t': Tables)
    requires Sound(s, free, t) && Legal(s, op)
    ensures Sound(Apply(s, op), free', t') && t'.kernel == t.kernel
    ensures OthersTranslateSame(s, op, Apply(s, op))
  {
    free', t' := free, t;
    match op
    case TakeFrame => free' := TakeFrameSound(s, free, t);
    case GiveBack(frame) => free' := GiveBackSound(s, free, t, frame);
    case NewSpace => free', t' := NewSpaceSound(s, free, t);
    case Map(_, _, _, _) => free', t' := MapSound(s, free, t, op);
    case Destroy(_, _) => free', t' := DestroySound(s, free, t, op);
    case Write(frame, index, word) => WriteSound(s, free, t, frame, index, word);
  }

  /** The invariant holds along every run of legal operations. */
  lemma {:induction false} RunSound(s: System, free: seq<nat>, t: Tables, ops: seq<Op>)
    returns (free': seq<nat>, t': Tables)
    requires Sound(s, free, t) && AllLegal(s, ops)
    ensures Sound(Run(s, ops), free', t')
    decreases |ops|
  {
    hide Sound;
    hide Legal;
    hide Apply;
    free', t' := free, t;
    if ops != [] {
      free', t' := StepSound(s, free, t, ops[0]);
      free', t' := RunSound(Apply(s, ops[0]), free', t', ops[1..]);
    }
  }

  /** No leak: in any run, once every space has been destroyed, the allocated frames are exactly
      those callers still hold and the pinned ones. */
  lemma NoLeak(s: System, free: seq<nat>, t: Tables, ops: seq<Op>)
    requires Sound(s, free, t) && AllLegal(s, ops) && Run(s, ops).roots == {}
    ensures forall f: nat :: Allocated(Run(s, ops).mem, f) <==> f in Run(s, ops).held || f in Run(s, ops).pinned
  {
    var free', t' := RunSound(s, free, t, ops);
    var n := Run(s, ops);
    hide Run;
    hide AllLegal;
    hide Allocated;
    hide Sound;
    if t'.own.Keys != {} {
      var f :| f in t'.own.Keys;
      OwnedHasRoot(n, free', t', f);
    }
    NothingOwned(n, free', t');
  }

  lemma OwnedHasRoot(s: System, free: seq<nat>, t: Tables, f: nat)
    requires Sound(s, free, t) && f in t.own
    ensures RootOf(t, f) in s.roots
  {
    assert t.own[f].level <= 4;
    UpExtends(s.mem, t, t, f, 4);
  }

  lemma NothingOwned(s: System, free: seq<nat>, t: Tables)
    requires Sound(s, free, t) && t.own.Keys == {}
    ensures forall f: nat :: Allocated(s.mem, f) <==> f in s.held || f in s.pinned
  {
    hide Consistent;
    hide Forest;
    hide Allocated;
    assert forall f :: f in t.own ==> f in t.own.Keys;
  }

  /** After `quanta_memory_initialize` the invariant holds with no spaces and no frames handed
      out, provided the boot loader's shared tables lie outside the pool. */
  lemma BootSound(m: Memory, kernel: map<nat, nat>)
    requires Consistent(m, []) && AllocatedSet(m) == {}
    requires forall k :: k in kernel ==> !(m.poolStart <= k < m.poolEnd) && 1 <= kernel[k] <= 3
    requires SharedDown(m.pages, Tables(map[], kernel)) && BootOk(m.pages, Tables(map[], kernel))
    ensures Sound(System(m, {}, {}, {}), [], Tables(map[], kernel))
  {
    assert forall f: nat :: Allocated(m, f) ==> f in AllocatedSet(m);
  }
}
