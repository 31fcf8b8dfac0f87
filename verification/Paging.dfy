/** Value-level specification of the 4-level page tables of kernel/mm/memory.c, and of the walk
    the processor makes through them (Intel SDM volume 3A, section 4.5). */
module Paging {
  import opened Bits
  import opened Options
  import opened Frames

  const KERNEL_SLOT: nat := 511
  const BOOT_PML4: nat := 0x100000

  predicate Present(e: nat) { e % 2 == 1 }
  predicate Writable(e: nat) { e / 2 % 2 == 1 }
  predicate User(e: nat) { e / 4 % 2 == 1 }
  predicate PageSize(e: nat) { e / 128 % 2 == 1 }

  /** `e & ~0xfff` */
  function FrameOf(e: nat): nat { e / PAGE_SIZE * PAGE_SIZE }

  /** The nine bits of a virtual address that select an entry of a level-`level` table. */
  function Index(va: nat, level: nat): (i: nat)
    ensures i < 512
  {
    if level == 4 then va / 0x8000000000 % 512
    else if level == 3 then va / 0x40000000 % 512
    else if level == 2 then va / 0x200000 % 512
    else va / 0x1000 % 512
  }

  predicate SamePage(a: nat, b: nat) {
    Index(a, 4) == Index(b, 4) && Index(a, 3) == Index(b, 3) && Index(a, 2) == Index(b, 2) && Index(a, 1) == Index(b, 1)
  }

  /** Equal indices mean equal bits 12 to 47 of the address. */
  lemma SamePageIsSameNumber(a: nat, b: nat)
    ensures SamePage(a, b) <==> a / PAGE_SIZE % 0x1000000000 == b / PAGE_SIZE % 0x1000000000
  {
    hide Index;
    PageNumberSplit(a);
    PageNumberSplit(b);
    var a3, b3 := Index(a, 2) * 0x200 + Index(a, 1), Index(b, 2) * 0x200 + Index(b, 1);
    TopDigit(Index(a, 4), Index(b, 4), Index(a, 3) * 0x40000 + a3, Index(b, 3) * 0x40000 + b3);
    MiddleDigit(Index(a, 3), Index(b, 3), a3, b3);
    LowDigits(Index(a, 2), Index(b, 2), Index(a, 1), Index(b, 1));
  }

  lemma TopDigit(x: nat, y: nat, r: nat, s: nat)
    requires r < 0x8000000 && s < 0x8000000
    ensures x * 0x8000000 + r == y * 0x8000000 + s <==> x == y && r == s
  {
  }

  lemma MiddleDigit(x: nat, y: nat, r: nat, s: nat)
    requires r < 0x40000 && s < 0x40000
    ensures x * 0x40000 + r == y * 0x40000 + s <==> x == y && r == s
  {
  }

  lemma LowDigits(x: nat, y: nat, r: nat, s: nat)
    requires r < 0x200 && s < 0x200
    ensures x * 0x200 + r == y * 0x200 + s <==> x == y && r == s
  {
  }

  lemma PageNumberSplit(a: nat)
    ensures a / PAGE_SIZE % 0x1000000000
            == Index(a, 4) * 0x8000000 + Index(a, 3) * 0x40000 + Index(a, 2) * 0x200 + Index(a, 1)
  {
    var n := a / PAGE_SIZE;
    assert a / 0x200000 == n / 512;
    assert a / 0x40000000 == n / 512 / 512;
    assert a / 0x8000000000 == n / 512 / 512 / 512;
  }

  lemma PageQuotient(q: nat, low: nat)
    requires low < PAGE_SIZE
    ensures (PAGE_SIZE * q + low) / PAGE_SIZE == q
  {
  }

  /** What a walk finds: the leaf entry, its level, and the rights all entries on the way grant. */
  datatype Mapping =
    | NotPresent
    | Mapped(entry: nat, level: nat, writable: bool, user: bool)

  function Leaf(e: nat, level: nat): Mapping {
    if Present(e) then Mapped(e, level, Writable(e), User(e)) else NotPresent
  }

  function Restrict(e: nat, inner: Mapping): Mapping {
    match inner
    case NotPresent => NotPresent
    case Mapped(l, k, w, u) => Mapped(l, k, w && Writable(e), u && User(e))
  }

  /** The processor's walk from a table of the given level. */
  function Walk(pages: map<nat, Page>, table: nat, level: nat, va: nat): Mapping
    decreases level
  {
    var e := Load(pages, table, Index(va, level));
    if !Present(e) then NotPresent
    else if level <= 1 || (level <= 3 && PageSize(e)) then Leaf(e, level)
    else Restrict(e, Walk(pages, FrameOf(e), level - 1, va))
  }

  function Translate(m: Memory, root: nat, va: nat): Mapping {
    Walk(m.pages, root, 4, va)
  }

  /** The level-`stop` table that the walk passes through. */
  function Descend(pages: map<nat, Page>, table: nat, level: nat, va: nat, stop: nat): Option<nat>
    decreases level
  {
    if level <= stop then Some(table)
    else
      var e := Load(pages, table, Index(va, level));
      if Present(e) then Descend(pages, FrameOf(e), level - 1, va, stop) else None
  }

  /** `table_for`: the table an entry points to, allocated on demand. */
  function TableFor(m: Memory, table: nat, index: nat): (Memory, Option<nat>) {
    var e := Load(m.pages, table, index);
    if Present(e) then (m, Some(FrameOf(e)))
    else
      var (n, r) := Allocate(m);
      match r
      case None => (n, None)
      case Some(f) =>
        (n.(pages := Store(n.pages, table, index, Or(Or(Or(f, 1), 2), 4))), Some(FrameOf(Or(Or(Or(f, 1), 2), 4))))
  }

  /** The three `table_for` steps of `quanta_map_page`, from the root to the page table. */
  function PageTableFor(m: Memory, root: nat, va: nat): (Memory, Option<nat>) {
    var (m1, pdpt) := TableFor(m, root, Index(va, 4));
    if pdpt == None then (m1, None) else
    var (m2, pd) := TableFor(m1, pdpt.value, Index(va, 3));
    if pd == None then (m2, None) else
    TableFor(m2, pd.value, Index(va, 2))
  }

  /** `quanta_map_page`; the flag is false when the allocator ran dry and the machine halted. */
  function MapPage(m: Memory, root: nat, va: nat, pa: nat, flags: nat): (Memory, bool) {
    var (n, pt) := PageTableFor(m, root, va);
    if pt == None then (n, false)
    else (n.(pages := Store(n.pages, pt.value, Index(va, 1), Or(FrameOf(pa), flags))), true)
  }

  /** `quanta_address_space_create`: a fresh root sharing the kernel's half. */
  function CreateSpace(m: Memory): (Memory, Option<nat>) {
    var (n, r) := Allocate(m);
    match r
    case None => (n, None)
    case Some(root) =>
      (n.(pages := Store(n.pages, root, KERNEL_SLOT, Load(n.pages, BOOT_PML4, KERNEL_SLOT))), Some(root))
  }

  // ---------------------------------------------------------------------------------------------
  // The shape of the tables
  // ---------------------------------------------------------------------------------------------

  /** Where a table hangs: its level, and the entry of its parent that points to it. */
  datatype Node = Node(level: nat, parent: nat, slot: nat)

  /** The tables of all address spaces, and the shared tables below the kernel slot by level. */
  datatype Tables = Tables(own: map<nat, Node>, kernel: map<nat, nat>)

  predicate IsRoot(t: Tables, f: nat) { f in t.own && t.own[f].level == 4 }

  /** The level of a table, zero for a frame that is none. */
  function LevelOf(t: Tables, f: nat): nat { if f in t.own then t.own[f].level else 0 }

  ghost predicate DownOk(pages: map<nat, Page>, t: Tables, f: nat, i: nat)
    requires f in t.own
  {
    var n, e := t.own[f], Load(pages, f, i);
    Present(e) && n.level >= 2 ==>
      if n.level == 4 && i == KERNEL_SLOT then KernelTable(t, FrameOf(e), 3)
      else
        && e == FrameOf(e) + 7
        && FrameOf(e) in t.own
        && t.own[FrameOf(e)] == Node(n.level - 1, f, i)
  }

  ghost predicate UpOk(pages: map<nat, Page>, t: Tables, f: nat)
    requires f in t.own
  {
    var n := t.own[f];
    n.level < 4 ==>
      && n.slot < 512
      && n.parent in t.own
      && t.own[n.parent].level == n.level + 1
      && !(n.level == 3 && n.slot == KERNEL_SLOT)
      && Load(pages, n.parent, n.slot) == f + 7
  }

  ghost predicate KernelTable(t: Tables, k: nat, level: nat) {
    k in t.kernel && t.kernel[k] == level
  }

  ghost predicate KernelOk(pages: map<nat, Page>, t: Tables, k: nat, i: nat)
    requires k in t.kernel
  {
    var e := Load(pages, k, i);
    Present(e) && t.kernel[k] >= 2 && !PageSize(e) ==> KernelTable(t, FrameOf(e), t.kernel[k] - 1)
  }

  ghost predicate NeverHandedOut(m: Memory, k: nat) {
    m.poolStart <= k < m.poolEnd ==> Allocated(m, k)
  }

  ghost predicate OwnedOk(m: Memory, t: Tables) {
    forall f :: f in t.own ==> Allocated(m, f) && 1 <= t.own[f].level <= 4
  }

  ghost predicate LinksUp(pages: map<nat, Page>, t: Tables) {
    forall f :: f in t.own ==> UpOk(pages, t, f)
  }

  ghost predicate LinksDown(pages: map<nat, Page>, t: Tables) {
    forall f, i :: f in t.own && i < 512 ==> DownOk(pages, t, f, i)
  }

  ghost predicate SharedOk(m: Memory, t: Tables) {
    forall k :: k in t.kernel ==> k !in t.own && NeverHandedOut(m, k) && 1 <= t.kernel[k] <= 3
  }

  ghost predicate SharedDown(pages: map<nat, Page>, t: Tables) {
    forall k, i :: k in t.kernel && i < 512 ==> KernelOk(pages, t, k, i)
  }

  ghost predicate BootOk(pages: map<nat, Page>, t: Tables) {
    var e := Load(pages, BOOT_PML4, KERNEL_SLOT);
    Present(e) ==> KernelTable(t, FrameOf(e), 3)
  }

  /** The tables form a forest: every table is a distinct allocated frame with exactly one entry
      pointing to it, and the kernel slot leads into tables shared by all spaces. */
  ghost predicate Forest(m: Memory, t: Tables) {
    && OwnedOk(m, t)
    && LinksUp(m.pages, t)
    && LinksDown(m.pages, t)
    && SharedOk(m, t)
    && SharedDown(m.pages, t)
    && BootOk(m.pages, t)
  }

  /** `pages` and `after` hold the same words in every table. */
  ghost predicate SameTables(pages: map<nat, Page>, after: map<nat, Page>, t: Tables) {
    && (forall f, i :: f in t.own ==> Load(after, f, i) == Load(pages, f, i))
    && (forall k, i :: k in t.kernel ==> Load(after, k, i) == Load(pages, k, i))
  }

  /** All translations of all spaces are the same in `m` and `n`. */
  ghost predicate SameTranslations(m: Memory, n: Memory, t: Tables) {
    forall r, va: nat :: IsRoot(t, r) ==> Translate(n, r, va) == Translate(m, r, va)
  }

  lemma EntryWord(f: nat)
    requires Aligned(f)
    ensures Or(Or(Or(f, 1), 2), 4) == f + 7
    ensures FrameOf(f + 7) == f
  {
    FrameOfTable(f);
    hide FrameOf;
    hide Or;
    var q := f / 8;
    assert f == 8 * q;
    OrSeven(q);
  }

  lemma OrSeven(q: nat)
    ensures Or(Or(Or(8 * q, 1), 2), 4) == 8 * q + 7
  {
    assert Shl1(1) == 2 && Shl1(2) == 4 && Shl1(3) == 8;
    assert Shl(q, 3) == 8 * q && Shl(q, 2) == 4 * q && Shl(q, 1) == 2 * q;
    OrDisjoint(q, 1, 3);
    OrDisjoint(q, 1, 2);
    OrDisjoint(q, 1, 1);
    hide Shl;
    assert (8 * q + 1) / 2 == 4 * q && (8 * q + 3) / 2 == 4 * q + 1 && (4 * q + 1) / 2 == 2 * q;
    assert Or(8 * q + 1, 2) == 1 + 2 * Or(4 * q, 1);
    assert Or(8 * q + 3, 4) == 1 + 2 * Or(4 * q + 1, 2);
    assert Or(4 * q + 1, 2) == 1 + 2 * Or(2 * q, 1);
  }

  lemma FrameOfTable(f: nat)
    requires Aligned(f)
    ensures Present(f + 7) && Writable(f + 7) && User(f + 7) && !PageSize(f + 7) && FrameOf(f + 7) == f
  {
    var q := f / PAGE_SIZE;
    assert f == PAGE_SIZE * q;
    TableBits(q);
  }

  lemma TableBits(q: nat)
    ensures var e := PAGE_SIZE * q + 7;
            Present(e) && Writable(e) && User(e) && !PageSize(e) && FrameOf(e) == PAGE_SIZE * q
  {
    var e := PAGE_SIZE * q + 7;
    assert e == 2 * (2048 * q + 3) + 1 && e / 2 == 2048 * q + 3;
    assert e == 4 * (1024 * q + 1) + 3 && e / 4 == 1024 * q + 1;
    assert e == 128 * (32 * q) + 7 && e / 128 == 32 * q;
    assert e / PAGE_SIZE == q;
  }

  /** The kernel half of a walk depends on the shared tables only. */
  lemma {:induction false} WalkKernelSame(m: Memory, after: map<nat, Page>, t: Tables, k: nat, level: nat, va: nat)
    requires Forest(m, t) && KernelTable(t, k, level)
    requires forall k, i :: k in t.kernel ==> Load(after, k, i) == Load(m.pages, k, i)
    ensures Walk(after, k, level, va) == Walk(m.pages, k, level, va)
    decreases level
  {
    hide Allocated;
    hide Load;
    hide FrameOf;
    hide Index;
    var e := Load(m.pages, k, Index(va, level));
    assert KernelOk(m.pages, t, k, Index(va, level));
    if Present(e) && level >= 2 && !PageSize(e) {
      WalkKernelSame(m, after, t, FrameOf(e), level - 1, va);
    }
  }

  /** A walk depends on the words of the tables only. */
  lemma {:induction false} WalkSame(m: Memory, after: map<nat, Page>, t: Tables, f: nat, va: nat)
    requires Forest(m, t) && f in t.own && SameTables(m.pages, after, t)
    ensures Walk(after, f, t.own[f].level, va) == Walk(m.pages, f, t.own[f].level, va)
    decreases t.own[f].level
  {
    hide Allocated;
    hide Load;
    hide FrameOf;
    hide Index;
    var level := t.own[f].level;
    var e := Load(m.pages, f, Index(va, level));
    assert DownOk(m.pages, t, f, Index(va, level));
    if Present(e) && level >= 2 {
      if level == 4 && Index(va, 4) == KERNEL_SLOT {
        WalkKernelSame(m, after, t, FrameOf(e), 3, va);
      } else {
        WalkSame(m, after, t, FrameOf(e), va);
      }
    }
  }

  /** In the user half every table on the way is an owned one. */
  lemma {:induction false} DescendOwned(m: Memory, t: Tables, f: nat, va: nat, stop: nat)
    requires Forest(m, t) && f in t.own && 1 <= stop <= t.own[f].level
    requires t.own[f].level == 4 ==> Index(va, 4) != KERNEL_SLOT
    ensures var d := Descend(m.pages, f, t.own[f].level, va, stop);
            d.Some? ==> d.value in t.own && t.own[d.value].level == stop
    decreases t.own[f].level
  {
    hide Allocated;
    hide Load;
    hide FrameOf;
    hide Index;
    var level := t.own[f].level;
    if stop < level {
      var e := Load(m.pages, f, Index(va, level));
      assert DownOk(m.pages, t, f, Index(va, level));
      if Present(e) { DescendOwned(m, t, FrameOf(e), va, stop); }
    }
  }

  /** In the user half a walk is the leaf entry of the page table it descends to. */
  lemma {:induction false} WalkIsLeaf(m: Memory, t: Tables, f: nat, va: nat)
    requires Forest(m, t) && f in t.own
    requires t.own[f].level == 4 ==> Index(va, 4) != KERNEL_SLOT
    ensures Walk(m.pages, f, t.own[f].level, va)
            == match Descend(m.pages, f, t.own[f].level, va, 1)
               case None => NotPresent
               case Some(pt) => Leaf(Load(m.pages, pt, Index(va, 1)), 1)
    decreases t.own[f].level
  {
    hide Allocated;
    hide Load;
    hide Index;
    var level := t.own[f].level;
    if 1 < level {
      var e := Load(m.pages, f, Index(va, level));
      assert DownOk(m.pages, t, f, Index(va, level));
      if Present(e) {
        assert Aligned(FrameOf(e));
        FrameOfTable(FrameOf(e));
        WalkIsLeaf(m, t, FrameOf(e), va);
      }
    }
  }

  /** Two walks that meet in a table came from the same table through the same entries. */
  lemma {:induction false} DescendUnique(m: Memory, t: Tables, f: nat, va: nat, g: nat, vb: nat, stop: nat)
    requires Forest(m, t) && f in t.own && g in t.own && t.own[f].level == t.own[g].level && 1 <= stop <= t.own[f].level
    requires t.own[f].level == 4 ==> Index(va, 4) != KERNEL_SLOT && Index(vb, 4) != KERNEL_SLOT
    requires Descend(m.pages, f, t.own[f].level, va, stop).Some?
    requires Descend(m.pages, f, t.own[f].level, va, stop) == Descend(m.pages, g, t.own[g].level, vb, stop)
    ensures f == g
    ensures forall l :: stop < l <= t.own[f].level ==> Index(va, l) == Index(vb, l)
    decreases t.own[f].level
  {
    hide Allocated;
    hide Load;
    hide FrameOf;
    hide Index;
    var level := t.own[f].level;
    if stop < level {
      var e, d := Load(m.pages, f, Index(va, level)), Load(m.pages, g, Index(vb, level));
      assert DownOk(m.pages, t, f, Index(va, level)) && DownOk(m.pages, t, g, Index(vb, level));
      DescendUnique(m, t, FrameOf(e), va, FrameOf(d), vb, stop);
    }
  }

  // ---------------------------------------------------------------------------------------------
  // Inserting a table
  // ---------------------------------------------------------------------------------------------

  /** `after` is `pages` with the empty table `x` hung on entry `i` of table `f`. */
  ghost predicate Inserted(pages: map<nat, Page>, after: map<nat, Page>, f: nat, i: nat, x: nat) {
    forall g, j: nat ::
      Load(after, g, j) == if g == f && j == i then x + 7 else if g == x then 0 else Load(pages, g, j)
  }

  ghost predicate CanInsert(m: Memory, t: Tables, f: nat, i: nat, x: nat) {
    && f in t.own && t.own[f].level >= 2 && i < 512 && !(t.own[f].level == 4 && i == KERNEL_SLOT)
    && !Present(Load(m.pages, f, i))
    && Aligned(x) && m.poolStart <= x < m.poolEnd && !Allocated(m, x)
  }

  function Insert(t: Tables, f: nat, i: nat, x: nat): Tables
    requires f in t.own && t.own[f].level >= 2
  {
    t.(own := t.own[x := Node(t.own[f].level - 1, f, i)])
  }

  lemma FreshIsForeign(m: Memory, t: Tables, x: nat)
    requires Forest(m, t) && m.poolStart <= x < m.poolEnd && !Allocated(m, x) && POOL_FLOOR <= m.poolStart
    ensures x !in t.own && x !in t.kernel && x != BOOT_PML4
    ensures forall g :: g in t.own ==> g != BOOT_PML4
  {
  }

  lemma InsertUp(m: Memory, n: Memory, t: Tables, f: nat, i: nat, x: nat, g: nat)
    requires PoolOk(m) && Forest(m, t) && CanInsert(m, t, f, i, x) && Inserted(m.pages, n.pages, f, i, x)
    requires g in Insert(t, f, i, x).own
    ensures UpOk(n.pages, Insert(t, f, i, x), g)
  {
    hide BitmapHas;
    hide Load;
    FreshIsForeign(m, t, x);
    if g in t.own {
      assert UpOk(m.pages, t, g);
      FrameOfTable(g);
    }
  }

  lemma ForestDown(m: Memory, t: Tables, f: nat, i: nat)
    requires Forest(m, t) && f in t.own && i < 512
    ensures DownOk(m.pages, t, f, i)
  {
    hide OwnedOk;
    hide LinksUp;
    hide SharedOk;
    hide SharedDown;
    hide BootOk;
    hide DownOk;
  }

  lemma InsertDown(m: Memory, n: Memory, t: Tables, f: nat, i: nat, x: nat, g: nat, j: nat)
    requires PoolOk(m) && Forest(m, t) && CanInsert(m, t, f, i, x) && Inserted(m.pages, n.pages, f, i, x)
    requires g in Insert(t, f, i, x).own && j < 512
    ensures DownOk(n.pages, Insert(t, f, i, x), g, j)
  {
    hide BitmapHas;
    hide Load;
    hide Forest;
    FreshIsForeign(m, t, x);
    FrameOfTable(x);
    if g in t.own { ForestDown(m, t, g, j); }
  }

  lemma InsertShared(m: Memory, n: Memory, t: Tables, f: nat, i: nat, x: nat)
    requires PoolOk(m) && Forest(m, t) && CanInsert(m, t, f, i, x) && Inserted(m.pages, n.pages, f, i, x)
    requires n.poolStart == m.poolStart && n.poolEnd == m.poolEnd
    requires forall g: nat :: Allocated(n, g) == (g == x || Allocated(m, g))
    ensures SharedOk(n, Insert(t, f, i, x)) && SharedDown(n.pages, Insert(t, f, i, x))
            && BootOk(n.pages, Insert(t, f, i, x))
  {
    FreshIsForeign(m, t, x);
    hide Allocated;
    hide Load;
    hide FrameOf;
    var t' := Insert(t, f, i, x);
    assert forall k, j :: k in t.kernel ==> Load(n.pages, k, j) == Load(m.pages, k, j);
    forall k, j | k in t.kernel && j < 512
      ensures KernelOk(n.pages, t', k, j)
    {
      assert KernelOk(m.pages, t, k, j);
    }
    assert Load(n.pages, BOOT_PML4, KERNEL_SLOT) == Load(m.pages, BOOT_PML4, KERNEL_SLOT);
  }

  lemma InsertKeepsForest(m: Memory, n: Memory, t: Tables, f: nat, i: nat, x: nat)
    requires PoolOk(m) && Forest(m, t) && CanInsert(m, t, f, i, x) && Inserted(m.pages, n.pages, f, i, x)
    requires n.poolStart == m.poolStart && n.poolEnd == m.poolEnd
    requires forall g: nat :: Allocated(n, g) == (g == x || Allocated(m, g))
    ensures Forest(n, Insert(t, f, i, x))
  {
    hide Allocated;
    hide Load;
    hide UpOk;
    hide DownOk;
    InsertShared(m, n, t, f, i, x);
    hide SharedOk;
    hide SharedDown;
    hide BootOk;
    var t' := Insert(t, f, i, x);
    forall g | g in t'.own
      ensures UpOk(n.pages, t', g)
    {
      InsertUp(m, n, t, f, i, x, g);
    }
    assert LinksUp(n.pages, t');
    assert LinksDown(n.pages, t') by {
      forall g, j | g in t'.own && j < 512
        ensures DownOk(n.pages, t', g, j)
      {
        InsertDown(m, n, t, f, i, x, g, j);
      }
    }
  }

  /** Hanging an empty table on an absent entry changes no translation. */
  lemma {:induction false} InsertWalk(m: Memory, after: map<nat, Page>, t: Tables, f: nat, i: nat, x: nat, g: nat,
                                      va: nat)
    requires PoolOk(m) && Forest(m, t) && CanInsert(m, t, f, i, x) && Inserted(m.pages, after, f, i, x)
    requires g in t.own
    ensures Walk(after, g, t.own[g].level, va) == Walk(m.pages, g, t.own[g].level, va)
    decreases t.own[g].level
  {
    hide Allocated;
    hide Load;
    hide Index;
    FreshIsForeign(m, t, x);
    var level := t.own[g].level;
    var e := Load(m.pages, g, Index(va, level));
    assert DownOk(m.pages, t, g, Index(va, level));
    if g == f && Index(va, level) == i {
      FrameOfTable(x);
      assert Walk(after, x, level - 1, va) == NotPresent;
    } else if Present(e) && level >= 2 {
      if level == 4 && Index(va, 4) == KERNEL_SLOT {
        WalkKernelSame(m, after, t, FrameOf(e), 3, va);
      } else {
        InsertWalk(m, after, t, f, i, x, FrameOf(e), va);
      }
    }
  }

  /** Every page that is not a table holds what it held. */
  ghost predicate PagesKept(pages: map<nat, Page>, after: map<nat, Page>, t: Tables) {
    forall p: nat :: p in pages && p !in t.own ==> p in after && after[p] == pages[p]
  }

  /** Every table entry but one holds what it held. */
  ghost predicate OthersKept(pages: map<nat, Page>, after: map<nat, Page>, t: Tables, f: nat, i: nat) {
    forall g, j: nat :: g in t.own && j < 512 && (g != f || j != i) ==> Load(after, g, j) == Load(pages, g, j)
  }

  /** What holds between the states before and after an operation that may add tables. */
  ghost predicate Grown(m: Memory, t: Tables, n: Memory, t': Tables) {
    && GrownTables(m, t, n, t')
    && SameTranslations(m, n, t)
    && PagesKept(m.pages, n.pages, t')
    && n.poolStart == m.poolStart && n.poolEnd == m.poolEnd
  }

  ghost predicate GrownTables(m: Memory, t: Tables, n: Memory, t': Tables) {
    && t'.kernel == t.kernel
    && (forall g :: g in t.own ==> g in t'.own && t'.own[g] == t.own[g])
    && (forall g: nat :: Allocated(n, g) <==> Allocated(m, g) || (g in t'.own && g !in t.own))
    && (forall g: nat :: g in t'.own && g !in t.own ==> !Allocated(m, g) && t'.own[g].level < 4)
  }

  lemma GrownTransitive(a: Memory, ta: Tables, b: Memory, tb: Tables, c: Memory, tc: Tables)
    requires Grown(a, ta, b, tb) && Grown(b, tb, c, tc)
    ensures Grown(a, ta, c, tc)
  {
    hide Allocated;
    hide Translate;
    forall r, va: nat | IsRoot(ta, r)
      ensures Translate(c, r, va) == Translate(a, r, va)
    {
      assert IsRoot(tb, r);
    }
  }

  lemma StoreInserts(pages: map<nat, Page>, f: nat, i: nat, x: nat)
    requires f in pages && x in pages && f != x && i < 512
    ensures Inserted(pages, Store(pages[x := ZeroPage()], f, i, x + 7), f, i, x)
  {
  }

  /** The memory side of an insertion: a fresh zeroed frame, and one entry pointing to it. */
  lemma TableForStores(m: Memory, free: seq<nat>, f: nat, i: nat) returns (free': seq<nat>)
    requires Consistent(m, free) && Allocated(m, f) && i < 512
    requires !Present(Load(m.pages, f, i))
    requires Allocate(m).1.Some?
    ensures var (n, r) := TableFor(m, f, i);
            && Consistent(n, free') && r.Some?
            && Aligned(r.value) && m.poolStart <= r.value < m.poolEnd && !Allocated(m, r.value)
            && n.poolStart == m.poolStart && n.poolEnd == m.poolEnd
            && (forall g: nat :: Allocated(n, g) == (g == r.value || Allocated(m, g)))
            && Inserted(m.pages, n.pages, f, i, r.value)
            && (forall p: nat :: p in m.pages && p != f && p != r.value ==> p in n.pages && n.pages[p] == m.pages[p])
  {
    hide Allocated;
    hide Allocate;
    hide Consistent;
    hide Aligned;
    hide Load;
    hide Inserted;
    hide Or;
    free' := AllocateOk(m, free);
    var (a, xo) := Allocate(m);
    var x := xo.value;
    EntryWord(x);
    MappedWhenAllocated(a, free', f);
    MappedWhenAllocated(m, free, f);
    MappedInPool(m, free, x);
    StoreOk(a, free', f, i, x + 7);
    StoreInserts(m.pages, f, i, x);
  }

  lemma MappedInPool(m: Memory, free: seq<nat>, f: nat)
    requires Consistent(m, free) && m.poolStart <= f < m.poolEnd && Aligned(f)
    ensures f in m.pages
  {
  }

  lemma MappedWhenAllocated(m: Memory, free: seq<nat>, f: nat)
    requires Consistent(m, free) && Allocated(m, f)
    ensures f in m.pages && f !in free
  {
  }

  lemma InsertTables(m: Memory, n: Memory, t: Tables, f: nat, i: nat, x: nat)
    requires PoolOk(m) && Forest(m, t) && CanInsert(m, t, f, i, x)
    requires forall g: nat :: Allocated(n, g) == (g == x || Allocated(m, g))
    ensures GrownTables(m, t, n, Insert(t, f, i, x))
  {
    FreshIsForeign(m, t, x);
    assert t.own[f].level <= 4;
    hide Allocated;
    hide Forest;
  }

  lemma InsertGrows(m: Memory, n: Memory, t: Tables, f: nat, i: nat, x: nat)
    requires PoolOk(m) && Forest(m, t) && CanInsert(m, t, f, i, x) && Inserted(m.pages, n.pages, f, i, x)
    requires n.poolStart == m.poolStart && n.poolEnd == m.poolEnd
    requires forall g: nat :: Allocated(n, g) == (g == x || Allocated(m, g))
    requires forall p: nat :: p in m.pages && p != f && p != x ==> p in n.pages && n.pages[p] == m.pages[p]
    ensures Grown(m, t, n, Insert(t, f, i, x))
  {
    hide Allocated;
    hide Load;
    hide Forest;
    InsertTables(m, n, t, f, i, x);
    hide GrownTables;
    forall r, va: nat | IsRoot(t, r)
      ensures Translate(n, r, va) == Translate(m, r, va)
    {
      InsertWalk(m, n.pages, t, f, i, x, r, va);
    }
  }

  lemma TableForInserts(m: Memory, free: seq<nat>, t: Tables, f: nat, i: nat) returns (free': seq<nat>, t': Tables)
    requires Consistent(m, free) && Forest(m, t)
    requires f in t.own && t.own[f].level >= 2 && i < 512 && !(t.own[f].level == 4 && i == KERNEL_SLOT)
    requires !Present(Load(m.pages, f, i))
    requires Allocate(m).1.Some?
    ensures var (n, r) := TableFor(m, f, i);
            && Consistent(n, free') && Forest(n, t') && Grown(m, t, n, t')
            && r.Some?
            && r.value !in t.own
            && CanInsert(m, t, f, i, r.value) && t' == Insert(t, f, i, r.value)
            && Inserted(m.pages, n.pages, f, i, r.value)
  {
    free' := TableForStores(m, free, f, i);
    assert PoolOk(m);
    hide Allocated;
    hide Consistent;
    hide TableFor;
    hide Load;
    hide Inserted;
    hide Grown;
    hide UpOk;
    hide DownOk;
    hide KernelOk;
    var (n, r) := TableFor(m, f, i);
    var x := r.value;
    t' := Insert(t, f, i, x);
    FreshIsForeign(m, t, x);
    InsertKeepsForest(m, n, t, f, i, x);
    InsertGrows(m, n, t, f, i, x);
  }

  lemma InsertedKeeps(m: Memory, n: Memory, t: Tables, f: nat, i: nat, x: nat)
    requires Inserted(m.pages, n.pages, f, i, x) && x !in t.own && Aligned(x)
    ensures OthersKept(m.pages, n.pages, t, f, i)
    ensures Present(Load(n.pages, f, i)) && FrameOf(Load(n.pages, f, i)) == x
  {
    FrameOfTable(x);
    assert Load(n.pages, f, i) == x + 7;
  }

  lemma GrownSame(m: Memory, t: Tables)
    ensures Grown(m, t, m, t)
  {
    hide Allocated;
    hide Translate;
  }

  lemma TableThere(m: Memory, free: seq<nat>, t: Tables, f: nat, i: nat)
    requires Consistent(m, free) && Forest(m, t) && Present(Load(m.pages, f, i))
    requires f in t.own && t.own[f].level >= 2 && i < 512 && !(t.own[f].level == 4 && i == KERNEL_SLOT)
    ensures var below := FrameOf(Load(m.pages, f, i));
            below in t.own && t.own[below] == Node(t.own[f].level - 1, f, i)
    ensures Grown(m, t, m, t) && OthersKept(m.pages, m.pages, t, f, i)
  {
    hide Consistent;
    hide Load;
    hide Allocated;
    hide Translate;
    hide FrameOf;
    hide Forest;
    ForestDown(m, t, f, i);
  }

  /** `table_for` returns the table below an entry, adding one table at most and changing no
      translation; it fails only when no frame is left. */
  lemma TableForOk(m: Memory, free: seq<nat>, t: Tables, f: nat, i: nat) returns (free': seq<nat>, t': Tables)
    requires Consistent(m, free) && Forest(m, t)
    requires f in t.own && t.own[f].level >= 2 && i < 512 && !(t.own[f].level == 4 && i == KERNEL_SLOT)
    ensures var (n, r) := TableFor(m, f, i);
            && Consistent(n, free') && Forest(n, t') && Grown(m, t, n, t')
            && (r == None ==> n == m && t' == t && free' == [] && m.nextFrame == m.poolEnd)
            && (r.Some? ==>
                  && r.value in t'.own && t'.own[r.value] == Node(t.own[f].level - 1, f, i)
                  && Present(Load(n.pages, f, i)) && FrameOf(Load(n.pages, f, i)) == r.value
                  && OthersKept(m.pages, n.pages, t, f, i)
                  && (t' == t || t' == Insert(t, f, i, r.value)))
  {
    hide Consistent;
    hide Forest;
    hide Load;
    hide Allocated;
    hide Translate;
    hide Aligned;
    hide OthersKept;
    hide Inserted;
    hide PagesKept;
    hide Grown;
    hide Present;
    hide FrameOf;
    if Present(Load(m.pages, f, i)) {
      free', t' := free, t;
      TableThere(m, free, t, f, i);
    } else {
      free' := AllocateOk(m, free);
      if Allocate(m).1.Some? {
        free', t' := TableForInserts(m, free, t, f, i);
        InsertedKeeps(m, TableFor(m, f, i).0, t, f, i, TableFor(m, f, i).1.value);
      } else {
        t' := t;
        GrownSame(m, t);
      }
    }
  }

  // ---------------------------------------------------------------------------------------------
  // Ancestry
  // ---------------------------------------------------------------------------------------------

  ghost function Up(t: Tables, f: nat, steps: nat): nat
    decreases steps
  {
    if steps == 0 || f !in t.own then f else Up(t, t.own[f].parent, steps - 1)
  }

  /** The level-`level` table that `f` hangs below. */
  ghost function Ancestor(t: Tables, f: nat, level: nat): nat {
    if f in t.own && t.own[f].level <= level then Up(t, f, level - t.own[f].level) else f
  }

  ghost function RootOf(t: Tables, f: nat): nat { Ancestor(t, f, 4) }

  lemma {:induction false} UpExtends(m: Memory, t: Tables, t': Tables, f: nat, level: nat)
    requires Forest(m, t) && f in t.own && t.own[f].level <= level <= 4
    requires forall g :: g in t.own ==> g in t'.own && t'.own[g] == t.own[g]
    ensures Up(t', f, level - t.own[f].level) == Up(t, f, level - t.own[f].level)
    ensures Up(t, f, level - t.own[f].level) in t.own && t.own[Up(t, f, level - t.own[f].level)].level == level
    decreases level - t.own[f].level
  {
    hide Allocated;
    hide Load;
    assert UpOk(m.pages, t, f);
    if t.own[f].level < level { UpExtends(m, t, t', t.own[f].parent, level); }
  }

  lemma InsertRoot(m: Memory, t: Tables, f: nat, i: nat, x: nat, g: nat)
    requires Forest(m, t) && f in t.own && t.own[f].level >= 2 && x !in t.own
    requires g in Insert(t, f, i, x).own
    ensures RootOf(Insert(t, f, i, x), g) == RootOf(t, if g == x then f else g)
  {
    hide Allocated;
    hide Load;
    var t' := Insert(t, f, i, x);
    UpExtends(m, t, t', f, 4);
    if g != x {
      UpExtends(m, t, t', g, 4);
    } else {
      assert Up(t', x, 4 - t'.own[x].level) == Up(t', f, 4 - t.own[f].level);
    }
  }

  /** Tables keep their root, and new ones belong to `root`. */
  ghost predicate RootsKept(t: Tables, t': Tables, root: nat) {
    forall g :: g in t'.own ==> RootOf(t', g) == if g in t.own then RootOf(t, g) else root
  }

  lemma TableForRoots(m: Memory, t: Tables, t': Tables, f: nat, i: nat, x: nat)
    requires Forest(m, t) && f in t.own && t.own[f].level >= 2
    requires t' == t || (x !in t.own && t' == Insert(t, f, i, x))
    ensures RootsKept(t, t', RootOf(t, f))
    ensures x in t'.own && t'.own[x] == Node(t.own[f].level - 1, f, i) ==> RootOf(t', x) == RootOf(t, f)
  {
    assert t.own[f].level <= 4;
    hide Forest;
    if x in t'.own && t'.own[x] == Node(t.own[f].level - 1, f, i) && t' == t {
      assert Up(t, x, 4 - t.own[x].level) == Up(t, f, 4 - t.own[f].level);
    }
    hide RootOf;
    forall g | g in t'.own
      ensures RootOf(t', g) == if g in t.own then RootOf(t, g) else RootOf(t, f)
    {
      if t' != t { InsertRoot(m, t, f, i, x, g); }
    }
    if t' != t { InsertRoot(m, t, f, i, x, x); }
  }

  // ---------------------------------------------------------------------------------------------
  // Mapping a page
  // ---------------------------------------------------------------------------------------------

  lemma {:induction false} DescendSamePage(pages: map<nat, Page>, f: nat, level: nat, va: nat, vb: nat, stop: nat)
    requires SamePage(va, vb) && level <= 4 && 1 <= stop
    ensures Descend(pages, f, level, va, stop) == Descend(pages, f, level, vb, stop)
    decreases level
  {
    hide Load;
    hide FrameOf;
    if stop < level {
      assert level == 4 || level == 3 || level == 2;
      var e := Load(pages, f, Index(va, level));
      if Present(e) { DescendSamePage(pages, FrameOf(e), level - 1, va, vb, stop); }
    }
  }

  /** `after` is `pages` with word `i` of page table `pt` replaced by `e`. */
  ghost predicate LeafStored(pages: map<nat, Page>, after: map<nat, Page>, pt: nat, i: nat, e: nat) {
    forall g, j: nat :: Load(after, g, j) == if g == pt && j == i then e else Load(pages, g, j)
  }

  lemma LeafDown(m: Memory, after: map<nat, Page>, t: Tables, pt: nat, i: nat, e: nat, f: nat, j: nat)
    requires pt in t.own && t.own[pt].level == 1 && LeafStored(m.pages, after, pt, i, e)
    requires f in t.own && DownOk(m.pages, t, f, j)
    ensures DownOk(after, t, f, j)
  {
    hide Load;
    hide FrameOf;
  }

  lemma LeafUp(m: Memory, after: map<nat, Page>, t: Tables, pt: nat, i: nat, e: nat, f: nat)
    requires pt in t.own && t.own[pt].level == 1 && LeafStored(m.pages, after, pt, i, e)
    requires f in t.own && t.own[f].level >= 1 && UpOk(m.pages, t, f)
    ensures UpOk(after, t, f)
  {
    hide Load;
  }

  lemma LeafKeepsShared(m: Memory, n: Memory, t: Tables, pt: nat, i: nat, e: nat)
    requires PoolOk(m) && Forest(m, t) && pt in t.own && LeafStored(m.pages, n.pages, pt, i, e)
    requires n.poolStart == m.poolStart && n.poolEnd == m.poolEnd
    requires forall g: nat :: Allocated(n, g) == Allocated(m, g)
    ensures SharedOk(n, t) && SharedDown(n.pages, t) && BootOk(n.pages, t)
  {
    assert pt != BOOT_PML4;
    hide Allocated;
    hide Load;
    hide FrameOf;
    hide LinksUp;
    hide LinksDown;
    forall k, j | k in t.kernel && j < 512
      ensures KernelOk(n.pages, t, k, j)
    {
      assert KernelOk(m.pages, t, k, j);
    }
  }

  lemma LeafKeepsForest(m: Memory, n: Memory, t: Tables, pt: nat, i: nat, e: nat)
    requires PoolOk(m) && Forest(m, t) && pt in t.own && t.own[pt].level == 1 && LeafStored(m.pages, n.pages, pt, i, e)
    requires n.poolStart == m.poolStart && n.poolEnd == m.poolEnd
    requires forall g: nat :: Allocated(n, g) == Allocated(m, g)
    ensures Forest(n, t)
  {
    hide Allocated;
    hide Load;
    hide FrameOf;
    hide UpOk;
    hide DownOk;
    LeafKeepsShared(m, n, t, pt, i, e);
    hide LeafStored;
    hide KernelOk;
    hide SharedOk;
    hide SharedDown;
    hide BootOk;
    forall f | f in t.own
      ensures UpOk(n.pages, t, f)
    {
      LeafUp(m, n.pages, t, pt, i, e, f);
    }
    forall f, j | f in t.own && j < 512
      ensures DownOk(n.pages, t, f, j)
    {
      LeafDown(m, n.pages, t, pt, i, e, f, j);
    }
  }

  lemma {:induction false} LeafDescend(m: Memory, n: Memory, t: Tables, pt: nat, i: nat, e: nat, f: nat, va: nat)
    requires Forest(m, t) && pt in t.own && t.own[pt].level == 1 && LeafStored(m.pages, n.pages, pt, i, e)
    requires f in t.own
    requires t.own[f].level == 4 ==> Index(va, 4) != KERNEL_SLOT
    ensures Descend(n.pages, f, t.own[f].level, va, 1) == Descend(m.pages, f, t.own[f].level, va, 1)
    decreases t.own[f].level
  {
    hide Allocated;
    hide Load;
    hide FrameOf;
    hide Index;
    var level := t.own[f].level;
    if 1 < level {
      var d := Load(m.pages, f, Index(va, level));
      assert DownOk(m.pages, t, f, Index(va, level));
      if Present(d) { LeafDescend(m, n, t, pt, i, e, FrameOf(d), va); }
    }
  }

  /** Replacing a leaf entry changes the translation of the page that reaches it, and no other. */
  lemma LeafTranslates(m: Memory, n: Memory, t: Tables, pt: nat, i: nat, e: nat, r: nat, va: nat)
    requires Forest(m, t) && Forest(n, t) && pt in t.own && t.own[pt].level == 1
             && LeafStored(m.pages, n.pages, pt, i, e)
    requires IsRoot(t, r)
    ensures Translate(n, r, va) ==
            if Index(va, 4) != KERNEL_SLOT && Descend(m.pages, r, 4, va, 1) == Some(pt) && Index(va, 1) == i
            then Leaf(e, 1) else Translate(m, r, va)
  {
    if Index(va, 4) != KERNEL_SLOT {
      LeafDescend(m, n, t, pt, i, e, r, va);
      WalkIsLeaf(m, t, r, va);
      WalkIsLeaf(n, t, r, va);
    } else {
      hide Allocated;
      hide FrameOf;
      hide Index;
      var d := Load(m.pages, r, KERNEL_SLOT);
      assert DownOk(m.pages, t, r, KERNEL_SLOT);
      if Present(d) { WalkKernelSame(m, n.pages, t, FrameOf(d), 3, va); }
    }
  }

  /** Growth that adds tables below `root` only. */
  ghost predicate GrownBelow(m: Memory, t: Tables, n: Memory, t': Tables, root: nat) {
    Grown(m, t, n, t') && RootsKept(t, t', root)
  }

  lemma GrownBelowTransitive(a: Memory, ta: Tables, b: Memory, tb: Tables, c: Memory, tc: Tables, root: nat)
    requires GrownBelow(a, ta, b, tb, root) && GrownBelow(b, tb, c, tc, root)
    ensures GrownBelow(a, ta, c, tc, root)
  {
    hide Allocated;
    hide Translate;
    hide RootOf;
    GrownTransitive(a, ta, b, tb, c, tc);
    hide SameTranslations;
  }

  lemma NoneAdded(t: Tables, root: nat)
    ensures RootsKept(t, t, root)
  {
  }

  lemma SameOrNew(m: Memory, t: Tables, n: Memory, t': Tables, f: nat, i: nat, x: nat)
    requires Grown(m, t, n, t') && f in t.own && t.own[f].level >= 2 && (t' == t || t' == Insert(t, f, i, x))
    ensures t' == t || (x !in t.own && t' == Insert(t, f, i, x))
  {
    hide SameTranslations;
    hide PagesKept;
    hide Allocated;
    if x in t.own && t' == Insert(t, f, i, x) { assert t'.own == t.own; }
  }

  /** One `table_for` step on a table below `root`. */
  lemma TableForStep(m: Memory, free: seq<nat>, t: Tables, f: nat, i: nat, root: nat)
    returns (free': seq<nat>, t': Tables)
    requires Consistent(m, free) && Forest(m, t)
    requires f in t.own && t.own[f].level >= 2 && i < 512 && !(t.own[f].level == 4 && i == KERNEL_SLOT)
    requires RootOf(t, f) == root
    ensures var (n, r) := TableFor(m, f, i);
            && Consistent(n, free') && Forest(n, t') && GrownBelow(m, t, n, t', root)
            && (r == None ==> free' == [] && n.nextFrame == n.poolEnd)
            && (r.Some? ==>
                  && r.value in t'.own && t'.own[r.value].level == t.own[f].level - 1
                  && RootOf(t', r.value) == root
                  && Present(Load(n.pages, f, i)) && FrameOf(Load(n.pages, f, i)) == r.value
                  && OthersKept(m.pages, n.pages, t, f, i))
  {
    hide Consistent;
    hide Forest;
    hide Grown;
    hide RootOf;
    hide Load;
    hide TableFor;
    hide OthersKept;
    hide RootsKept;
    free', t' := TableForOk(m, free, t, f, i);
    var (n, r) := TableFor(m, f, i);
    if r.Some? {
      SameOrNew(m, t, n, t', f, i, r.value);
      TableForRoots(m, t, t', f, i, r.value);
    } else {
      NoneAdded(t, root);
    }
  }

  /** The three steps reach the page table of `va`, and fail only when no frame is left. */
  lemma PageTableForOk(m: Memory, free: seq<nat>, t: Tables, root: nat, va: nat) returns (free': seq<nat>, t': Tables)
    requires Consistent(m, free) && Forest(m, t) && IsRoot(t, root) && Index(va, 4) != KERNEL_SLOT
    ensures var (n, pt) := PageTableFor(m, root, va);
            && Consistent(n, free') && Forest(n, t') && GrownBelow(m, t, n, t', root)
            && (pt == None ==> free' == [] && n.nextFrame == n.poolEnd)
            && (pt.Some? ==>
                  && pt.value in t'.own && t'.own[pt.value].level == 1
                  && Descend(n.pages, root, 4, va, 1) == pt)
  {
    assert RootOf(t, root) == root;
    hide Consistent;
    hide Forest;
    hide Load;
    hide FrameOf;
    hide Index;
    hide TableFor;
    hide RootOf;
    hide GrownBelow;
    hide OthersKept;
    var f1, t1 := TableForStep(m, free, t, root, Index(va, 4), root);
    var (m1, r1) := TableFor(m, root, Index(va, 4));
    free', t' := f1, t1;
    if r1.Some? {
      var f2, t2 := TableForStep(m1, f1, t1, r1.value, Index(va, 3), root);
      var (m2, r2) := TableFor(m1, r1.value, Index(va, 3));
      GrownBelowTransitive(m, t, m1, t1, m2, t2, root);
      free', t' := f2, t2;
      if r2.Some? {
        var f3, t3 := TableForStep(m2, f2, t2, r2.value, Index(va, 2), root);
        var (m3, r3) := TableFor(m2, r2.value, Index(va, 2));
        GrownBelowTransitive(m, t, m2, t2, m3, t3, root);
        free', t' := f3, t3;
        OwnsStill(m, t, m1, t1, root, root);
        OwnsStill(m1, t1, m2, t2, root, root);
        OwnsStill(m1, t1, m2, t2, r1.value, root);
        if r3.Some? {
          OtherKept(m1.pages, m2.pages, t1, r1.value, Index(va, 3), root, Index(va, 4));
          OtherKept(m2.pages, m3.pages, t2, r2.value, Index(va, 2), root, Index(va, 4));
          OtherKept(m2.pages, m3.pages, t2, r2.value, Index(va, 2), r1.value, Index(va, 3));
          assert Descend(m3.pages, r2.value, 2, va, 1) == r3;
          assert Descend(m3.pages, r1.value, 3, va, 1) == r3;
        }
      }
    }
  }

  lemma OtherKept(pages: map<nat, Page>, after: map<nat, Page>, t: Tables, f: nat, i: nat, g: nat, j: nat)
    requires OthersKept(pages, after, t, f, i) && g in t.own && j < 512 && g != f
    ensures Load(after, g, j) == Load(pages, g, j)
  {
  }

  lemma OwnsStill(m: Memory, t: Tables, n: Memory, t': Tables, f: nat, root: nat)
    requires f in t.own && GrownBelow(m, t, n, t', root)
    ensures f in t'.own && t'.own[f] == t.own[f]
  {
    hide Allocated;
  }

  /** `quanta_map_page` updates one page of one address space: after it, that page translates to
      the new leaf entry, every other page of this and every other space translates as before, the
      tables are still a forest of distinct allocated frames, and the only frames taken are the
      tables added below this root.  It halts only when the pool is exhausted, and even then it has
      changed no translation. */
  lemma MapPageOk(m: Memory, free: seq<nat>, t: Tables, root: nat, va: nat, pa: nat, flags: nat)
    returns (free': seq<nat>, t': Tables)
    requires Consistent(m, free) && Forest(m, t) && IsRoot(t, root) && Index(va, 4) != KERNEL_SLOT
    ensures var (n, done) := MapPage(m, root, va, pa, flags);
            && Consistent(n, free') && Forest(n, t') && GrownTables(m, t, n, t') && RootsKept(t, t', root)
            && n.poolStart == m.poolStart && n.poolEnd == m.poolEnd
            && (!done ==> free' == [] && n.nextFrame == n.poolEnd)
            && (forall r, vb: nat :: IsRoot(t, r) ==>
                  Translate(n, r, vb) ==
                  if done && r == root && SamePage(va, vb) then Leaf(Or(FrameOf(pa), flags), 1)
                  else Translate(m, r, vb))
            && PagesKept(m.pages, n.pages, t')
  {
    hide PageTableFor;
    hide Or;
    hide Consistent;
    hide Forest;
    hide Allocated;
    hide Load;
    hide FrameOf;
    hide LeafStored;
    hide PagesKept;
    hide Descend;
    hide Translate;
    hide SamePage;
    hide RootsKept;
    hide Store;
    free', t' := PageTableForOk(m, free, t, root, va);
    var (a, pt) := PageTableFor(m, root, va);
    if pt.Some? {
      var n := MapPage(m, root, va, pa, flags).0;
      var e, i := Or(FrameOf(pa), flags), Index(va, 1);
      LeafStoreOk(a, free', t', pt.value, i, e);
      PagesKeptTransitive(m.pages, a.pages, n.pages, t');
      forall r, vb: nat | IsRoot(t, r)
        ensures Translate(n, r, vb) == if r == root && SamePage(va, vb) then Leaf(e, 1) else Translate(m, r, vb)
      {
        assert Translate(a, r, vb) == Translate(m, r, vb);
        MappedTranslates(a, n, t', pt.value, root, va, e, r, vb);
      }
    }
  }

  lemma PagesKeptTransitive(a: map<nat, Page>, b: map<nat, Page>, c: map<nat, Page>, t: Tables)
    requires PagesKept(a, b, t) && PagesKept(b, c, t)
    ensures PagesKept(a, c, t)
  {
  }

  lemma LeafStoreOk(m: Memory, free: seq<nat>, t: Tables, pt: nat, i: nat, e: nat)
    requires Consistent(m, free) && Forest(m, t) && pt in t.own && t.own[pt].level == 1 && i < 512
    ensures var n := m.(pages := Store(m.pages, pt, i, e));
            && Consistent(n, free) && Forest(n, t) && LeafStored(m.pages, n.pages, pt, i, e)
            && (forall g: nat :: Allocated(n, g) == Allocated(m, g))
            && PagesKept(m.pages, n.pages, t)
  {
    hide Consistent;
    hide Forest;
    hide Allocated;
    hide LeafStored;
    var n := m.(pages := Store(m.pages, pt, i, e));
    OwnedAllocated(m, free, t, pt);
    MappedWhenAllocated(m, free, pt);
    StoreOk(m, free, pt, i, e);
    StoredLeaf(m.pages, pt, i, e);
    LeafKeepsForest(m, n, t, pt, i, e);
  }

  lemma OwnedAllocated(m: Memory, free: seq<nat>, t: Tables, f: nat)
    requires Consistent(m, free) && Forest(m, t) && f in t.own
    ensures Allocated(m, f) && PoolOk(m)
  {
    hide Allocated;
  }

  lemma StoredLeaf(pages: map<nat, Page>, pt: nat, i: nat, e: nat)
    requires pt in pages && i < 512
    ensures LeafStored(pages, Store(pages, pt, i, e), pt, i, e)
  {
  }

  lemma MappedTranslates(m: Memory, n: Memory, t: Tables, pt: nat, root: nat, va: nat, e: nat, r: nat, vb: nat)
    requires Forest(m, t) && Forest(n, t) && pt in t.own && t.own[pt].level == 1
    requires LeafStored(m.pages, n.pages, pt, Index(va, 1), e)
    requires IsRoot(t, root) && IsRoot(t, r) && Index(va, 4) != KERNEL_SLOT
    requires Descend(m.pages, root, 4, va, 1) == Some(pt)
    ensures Translate(n, r, vb) == if r == root && SamePage(va, vb) then Leaf(e, 1) else Translate(m, r, vb)
  {
    hide Forest;
    hide Index;
    hide Load;
    LeafTranslates(m, n, t, pt, Index(va, 1), e, r, vb);
    if r == root && SamePage(va, vb) {
      DescendSamePage(m.pages, root, 4, va, vb, 1);
    } else if Index(vb, 4) != KERNEL_SLOT && Descend(m.pages, r, 4, vb, 1) == Some(pt) && Index(vb, 1) == Index(va, 1) {
      DescendUnique(m, t, root, va, r, vb, 1);
    }
  }

  // ---------------------------------------------------------------------------------------------
  // Creating an address space
  // ---------------------------------------------------------------------------------------------

  function AddRoot(t: Tables, root: nat): Tables {
    t.(own := t.own[root := Node(4, 0, 0)])
  }

  /** `after` is `pages` with a fresh root whose kernel slot holds `e`. */
  ghost predicate RootAdded(pages: map<nat, Page>, after: map<nat, Page>, root: nat, e: nat) {
    forall g, j: nat ::
      Load(after, g, j) == if g == root then (if j == KERNEL_SLOT then e else 0) else Load(pages, g, j)
  }

  lemma StoreAddsRoot(pages: map<nat, Page>, root: nat, e: nat)
    requires root in pages
    ensures var after := Store(pages[root := ZeroPage()], root, KERNEL_SLOT, e);
            RootAdded(pages, after, root, e) && forall p :: p in pages && p != root ==>
              p in after && after[p] == pages[p]
  {
  }

  lemma RootKeepsShared(m: Memory, n: Memory, t: Tables, root: nat)
    requires PoolOk(m) && Forest(m, t) && Aligned(root) && m.poolStart <= root < m.poolEnd && !Allocated(m, root)
    requires RootAdded(m.pages, n.pages, root, Load(m.pages, BOOT_PML4, KERNEL_SLOT))
    requires n.poolStart == m.poolStart && n.poolEnd == m.poolEnd
    requires forall g: nat :: Allocated(n, g) == (g == root || Allocated(m, g))
    ensures SharedOk(n, AddRoot(t, root)) && SharedDown(n.pages, AddRoot(t, root)) && BootOk(n.pages, AddRoot(t, root))
  {
    FreshIsForeign(m, t, root);
    hide Allocated;
    hide Load;
    hide FrameOf;
    forall k, j | k in t.kernel && j < 512
      ensures KernelOk(n.pages, AddRoot(t, root), k, j)
    {
      assert KernelOk(m.pages, t, k, j);
    }
  }

  lemma RootDownOld(m: Memory, n: Memory, t: Tables, root: nat, f: nat, j: nat)
    requires f in t.own && root !in t.own && j < 512 && DownOk(m.pages, t, f, j)
    requires RootAdded(m.pages, n.pages, root, Load(m.pages, BOOT_PML4, KERNEL_SLOT))
    ensures DownOk(n.pages, AddRoot(t, root), f, j)
  {
    hide Load;
    hide FrameOf;
  }

  lemma RootDown(m: Memory, n: Memory, t: Tables, root: nat, j: nat)
    requires BootOk(m.pages, t) && j < 512
    requires RootAdded(m.pages, n.pages, root, Load(m.pages, BOOT_PML4, KERNEL_SLOT))
    ensures DownOk(n.pages, AddRoot(t, root), root, j)
  {
    hide Load;
    hide FrameOf;
  }

  lemma RootKeepsForest(m: Memory, n: Memory, t: Tables, root: nat)
    requires PoolOk(m) && Forest(m, t) && Aligned(root) && m.poolStart <= root < m.poolEnd && !Allocated(m, root)
    requires RootAdded(m.pages, n.pages, root, Load(m.pages, BOOT_PML4, KERNEL_SLOT))
    requires n.poolStart == m.poolStart && n.poolEnd == m.poolEnd
    requires forall g: nat :: Allocated(n, g) == (g == root || Allocated(m, g))
    ensures Forest(n, AddRoot(t, root))
  {
    hide Allocated;
    hide Load;
    hide FrameOf;
    hide SharedOk;
    hide SharedDown;
    hide BootOk;
    hide DownOk;
    hide Aligned;
    hide Present;
    RootKeepsShared(m, n, t, root);
    FreshIsForeign(m, t, root);
    var t' := AddRoot(t, root);
    forall f | f in t'.own
      ensures UpOk(n.pages, t', f)
    {
      if f in t.own { assert UpOk(m.pages, t, f); }
    }
    hide UpOk;
    hide RootAdded;
    forall f, j | f in t'.own && j < 512
      ensures DownOk(n.pages, t', f, j)
    {
      if f in t.own { RootDownOld(m, n, t, root, f, j); } else { RootDown(m, n, t, root, j); }
    }
  }

  lemma RootTranslates(m: Memory, n: Memory, t: Tables, root: nat, va: nat)
    requires Forest(m, t) && root !in t.kernel && root !in t.own
    requires RootAdded(m.pages, n.pages, root, Load(m.pages, BOOT_PML4, KERNEL_SLOT))
    ensures Translate(n, root, va) == if Index(va, 4) == KERNEL_SLOT then Translate(m, BOOT_PML4, va) else NotPresent
    ensures forall r :: IsRoot(t, r) ==> Translate(n, r, va) == Translate(m, r, va)
  {
    hide Allocated;
    hide Load;
    hide FrameOf;
    hide Index;
    var e := Load(m.pages, BOOT_PML4, KERNEL_SLOT);
    if Index(va, 4) == KERNEL_SLOT && Present(e) {
      WalkKernelSame(m, n.pages, t, FrameOf(e), 3, va);
    }
    forall r | IsRoot(t, r)
      ensures Translate(n, r, va) == Translate(m, r, va)
    {
      WalkSame(m, n.pages, t, r, va);
    }
  }

  /** A new address space has an empty user half and the boot tables' kernel half; it takes one
      frame and changes no other space. */
  lemma CreateSpaceOk(m: Memory, free: seq<nat>, t: Tables) returns (free': seq<nat>, t': Tables)
    requires Consistent(m, free) && Forest(m, t)
    ensures var (n, r) := CreateSpace(m);
            && Consistent(n, free') && Forest(n, t')
            && (r == None <==> free == [] && m.nextFrame == m.poolEnd)
            && (r == None ==> n == m && t' == t)
            && (r.Some? ==>
                  && !Allocated(m, r.value) && t' == AddRoot(t, r.value)
                  && (forall g: nat :: Allocated(n, g) == (g == r.value || Allocated(m, g)))
                  && SameTranslations(m, n, t)
                  && PagesKept(m.pages, n.pages, t')
                  && forall va: nat :: Translate(n, r.value, va)
                                       == if Index(va, 4) == KERNEL_SLOT then Translate(m, BOOT_PML4, va)
                                          else NotPresent)
  {
    hide Allocated;
    hide Consistent;
    hide Forest;
    hide Load;
    hide Allocate;
    hide Translate;
    hide RootAdded;
    hide Index;
    free' := AllocateOk(m, free);
    t' := t;
    var (a, r) := Allocate(m);
    if r.Some? {
      var root := r.value;
      var n := CreateSpace(m).0;
      t' := AddRoot(t, root);
      PoolOkWhenConsistent(m, free);
      FreshIsForeign(m, t, root);
      MappedWhenAllocated(a, free', root);
      MappedInPool(m, free, root);
      var e := Load(m.pages, BOOT_PML4, KERNEL_SLOT);
      assert Load(a.pages, BOOT_PML4, KERNEL_SLOT) == e by { LoadOther(m.pages, root, BOOT_PML4, KERNEL_SLOT); }
      StoreOk(a, free', root, KERNEL_SLOT, e);
      StoreAddsRoot(m.pages, root, e);
      RootKeepsForest(m, n, t, root);
      forall va: nat
        ensures Translate(n, root, va) == if Index(va, 4) == KERNEL_SLOT then Translate(m, BOOT_PML4, va)
                                          else NotPresent
      {
        RootTranslates(m, n, t, root, va);
      }
      forall r, va: nat | IsRoot(t, r)
        ensures Translate(n, r, va) == Translate(m, r, va)
      {
        RootTranslates(m, n, t, root, va);
      }
    }
  }

  lemma LoadOther(pages: map<nat, Page>, f: nat, g: nat, j: nat)
    requires f != g
    ensures Load(pages[f := ZeroPage()], g, j) == Load(pages, g, j)
  {
  }

  lemma PoolOkWhenConsistent(m: Memory, free: seq<nat>)
    requires Consistent(m, free)
    ensures PoolOk(m)
  {
  }
}
