/** The tables that the boot loader leaves (bootloader/uefi/loader.c) are what the kernel's memory module
    (kernel/mm/memory.c) relies on. */
module BootTables {
  import opened Bytes
  import opened Frames
  import opened Paging
  import opened AddressSpaces
  import opened KernelMaps
  import Loader = KernelLoader

  /** The five tables below the root, by level. */
  const SHARED: map<nat, nat> := map[0x101000 := 3, 0x102000 := 2, 0x103000 := 2, 0x104000 := 1, 0x105000 := 1]

  function BootTree(): Tables { Tables(map[], SHARED) }

  /** The memory holds the loader's tables at the root that the kernel copies its half from. */
  ghost predicate LeftByLoader(memory: seq<byte>, kernel: nat, words: seq<nat>) {
    Loader.Tables(memory, BOOT_PML4, words) && Loader.Built(words, BOOT_PML4, kernel)
  }

  lemma PointsTo(next: nat)
    requires next < 6
    ensures var e := BOOT_PML4 + next * PAGE_SIZE + 3; Present(e) && FrameOf(e) == BOOT_PML4 + next * PAGE_SIZE
  {
    Loader.TableAt(BOOT_PML4, next);
  }

  lemma NoEntry()
    ensures !Present(0)
  {
  }

  lemma SharedEntry(memory: seq<byte>, kernel: nat, words: seq<nat>, page: nat, i: nat)
    requires LeftByLoader(memory, kernel, words) && 1 <= page <= 5 && i < 512
    ensures BOOT_PML4 + page * PAGE_SIZE in SHARED
    ensures KernelOk(Loader.PagesOf(memory), BootTree(), BOOT_PML4 + page * PAGE_SIZE, i)
  {
    Loader.LoadEntry(memory, BOOT_PML4, kernel, words, page, i);
    hide Load;
    hide Loader.PagesOf;
    hide LeftByLoader;
    NoEntry();
    if page == 1 {
      PointsTo(2);
      PointsTo(3);
    } else if page == 2 {
      Loader.LargeEntry(i);
    } else if page == 3 {
      PointsTo(4);
      PointsTo(5);
    }
    hide Present;
    hide FrameOf;
    hide PageSize;
  }

  /** The kernel slot and everything below it lead only into those tables, by level. */
  lemma LoaderTablesShared(memory: seq<byte>, kernel: nat, words: seq<nat>)
    requires LeftByLoader(memory, kernel, words)
    ensures SharedDown(Loader.PagesOf(memory), BootTree()) && BootOk(Loader.PagesOf(memory), BootTree())
  {
    var pages := Loader.PagesOf(memory);
    forall k, i | k in BootTree().kernel && i < 512
      ensures KernelOk(pages, BootTree(), k, i)
    {
      var page := (k - BOOT_PML4) / PAGE_SIZE;
      assert 1 <= page <= 5 && k == BOOT_PML4 + page * PAGE_SIZE;
      SharedEntry(memory, kernel, words, page, i);
    }
    Loader.LoadEntry(memory, BOOT_PML4, kernel, words, 0, 511);
    PointsTo(1);
    hide Load;
    hide Loader.PagesOf;
    hide KernelOk;
  }

  /** After `build_tables` and `quanta_memory_initialize`, the joint invariant of the allocator and the page
      tables holds: every run of the memory module starts from a sound state. */
  lemma BootStartsSound(memory: seq<byte>, kernel: nat, words: seq<nat>, m: Memory)
    requires LeftByLoader(memory, kernel, words) && m.pages == Loader.PagesOf(memory)
    requires Consistent(m, []) && AllocatedSet(m) == {}
    ensures Sound(System(m, {}, {}, {}), [], BootTree())
  {
    LoaderTablesShared(memory, kernel, words);
    PoolOkWhenConsistent(m, []);
    hide Consistent;
    hide LeftByLoader;
    hide SharedDown;
    hide BootOk;
    hide Loader.PagesOf;
    BootSound(m, SHARED);
  }

  /** An entry of the loader's tables that leads to a table. */
  lemma LoaderPoints(memory: seq<byte>, kernel: nat, words: seq<nat>, k: nat, i: nat)
    requires LeftByLoader(memory, kernel, words) && k in SHARED && Points(Loader.PagesOf(memory), BootTree(), k, i)
    ensures var target := FrameOf(Load(Loader.PagesOf(memory), k, i));
            || (k == 0x101000 && i == 0 && target == 0x102000) || (k == 0x101000 && i == 510 && target == 0x103000)
            || (k == 0x103000 && i == 0 && target == 0x104000) || (k == 0x103000 && i == 1 && target == 0x105000)
  {
    var page := (k - BOOT_PML4) / PAGE_SIZE;
    assert 1 <= page <= 5 && k == BOOT_PML4 + page * PAGE_SIZE;
    Loader.LoadEntry(memory, BOOT_PML4, kernel, words, page, i);
    hide Load;
    hide Loader.PagesOf;
    hide LeftByLoader;
    NoEntry();
    if page == 1 {
      PointsTo(2);
      PointsTo(3);
    } else if page == 2 {
      Loader.LargeEntry(i);
    } else if page == 3 {
      PointsTo(4);
      PointsTo(5);
    }
    hide Present;
    hide FrameOf;
    hide PageSize;
  }

  /** The loader's tables are ready for the maps of the display, whose gigabyte they leave empty. */
  lemma LoaderReady(memory: seq<byte>, kernel: nat, words: seq<nat>, m: Memory)
    requires LeftByLoader(memory, kernel, words) && m.pages == Loader.PagesOf(memory) && MemoryMapped(m.pages)
    ensures Ready(m, BootTree()) && DisplayFree(m)
  {
    Loader.LoadEntry(memory, BOOT_PML4, kernel, words, 0, 511);
    Loader.LoadEntry(memory, BOOT_PML4, kernel, words, 1, 511);
    PointsTo(1);
    NoEntry();
    hide Load;
    hide Loader.PagesOf;
    hide LeftByLoader;
    hide Points;
    hide FrameOf;
    hide Present;
    hide Index;
    var pages, t := m.pages, BootTree();
    forall k, i, l, j: nat | k in t.kernel && l in t.kernel && Points(pages, t, k, i) && Points(pages, t, l, j)
                             && FrameOf(Load(pages, k, i)) == FrameOf(Load(pages, l, j))
      ensures k == l && i == j
    {
      LoaderPoints(memory, kernel, words, k, i);
      LoaderPoints(memory, kernel, words, l, j);
    }
  }

  /** From the loader's tables on: setting up the display, in any order of handing out back-buffer pages and
      mapping pages of the display's gigabyte, leaves a sound state in which exactly the tables it added
      are pinned; and in every later run every address space sees the kernel slot, and so the display, as
      it was left. */
  lemma DisplayShared(memory: seq<byte>, kernel: nat, words: seq<nat>, m: Memory, ops: seq<DisplayOp>, later: seq<Op>)
    returns (free: seq<nat>, t: Tables)
    requires LeftByLoader(memory, kernel, words) && m.pages == Loader.PagesOf(memory)
    requires Consistent(m, []) && AllocatedSet(m) == {} && DisplayOps(ops)
    ensures var s := SetUpAll(System(m, {}, {}, {}), ops);
            && Sound(s, free, t) && (forall f: nat :: f in s.pinned <==> f in t.kernel && f !in SHARED)
            && (AllLegal(s, later) ==> SharesKernel(Run(s, later), s.mem))
  {
    BootStartsSound(memory, kernel, words, m);
    LoaderReady(memory, kernel, words, m);
    hide Sound;
    hide Consistent;
    hide Ready;
    hide DisplayFree;
    hide LeftByLoader;
    hide Loader.PagesOf;
    hide SetUpAll;
    hide DisplayOps;
    hide Run;
    hide AllLegal;
    hide SharesKernel;
    var s0 := System(m, {}, {}, {});
    free, t := SetUpSound(s0, [], BootTree(), ops);
    var s := SetUpAll(s0, ops);
    NoSpacesShare(s);
    if AllLegal(s, later) { RunShares(s, free, t, later, s.mem); }
  }
}
