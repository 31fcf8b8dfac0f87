/** The kernel's driver (kernel/core/qfs2.c) on a volume of the host's formatter (tools/qfs2.py), and the
    sectors that the formatter's bitmap marks. */
module HostAgreement {
  import opened Bits
  import opened Bytes
  import opened Options
  import opened Qfs2Format
  import opened Qfs2Volume
  import opened Qfs2Path
  import opened Qfs2Image
  import opened Qfs2Query
  import opened HostPaths
  import opened HostTool
  import opened HostFormat
  import opened HostTree
  import opened HostImage
  import opened HostBuild
  import opened HostReadBack
  import opened PathResolve

  lemma RecordExtent(pl: Plan, total: nat, n: nat)
    requires Fits(pl, total) && 1 <= n <= Nodes(pl) + 1
    ensures ExtentOk(Super(GeometryOf(pl), total), InodeRecord(pl, GeometryOf(pl).dataLba, n))
  {
    hide GeometryOf;
    hide PlanOk;
    hide FirstSector;
    hide SectorsOf;
    if n > |pl.dirs| { FileInside(pl, total, n - 1 - |pl.dirs|); }
  }

  lemma TreeExtents(pl: Plan, total: nat)
    requires Fits(pl, total)
    ensures PlanOk(pl) && ExtentsOk(Tree(pl), Super(GeometryOf(pl), total))
  {
    hide GeometryOf;
    hide PlanOk;
    hide GeometryFits;
    hide InodeRecord;
    hide BuiltVolume;
    hide ExtentOk;
    hide Super;
    var v, sb := Tree(pl), Super(GeometryOf(pl), total);
    SlotsSuffice(pl);
    forall n | Live(v, n)
      ensures ExtentOk(sb, v.inodes[n - 1])
    {
      BuiltLive(pl, GeometryOf(pl).dataLba, InodeSlots(pl), EntrySlots(pl), n);
      RecordExtent(pl, total, n);
    }
  }

  lemma SuperLayout(img: Image, pl: Plan, total: nat)
    requires Fits(pl, total) && (SUPER_LBA + total) * SECTOR <= |img|
    ensures Layout(img, Super(GeometryOf(pl), total)) && TablesAt(Super(GeometryOf(pl), total), GeometryOf(pl))
  {
    hide GeometryOf;
    hide PlanOk;
  }

  /** A full disk with a formatted volume is sound for the kernel, and holds the plan's tree. */
  lemma SoundBuilt(img: Image, pl: Plan, total: nat)
    requires Holds(img, pl, total) && (SUPER_LBA + total) * SECTOR <= |img|
    ensures PlanOk(pl) && GeometryFits(GeometryOf(pl), total)
    ensures var sb := Super(GeometryOf(pl), total); Sound(img, sb) && View(img, sb) == Tree(pl)
  {
    hide Holds;
    hide GeometryOf;
    hide GeometryFits;
    hide PlanOk;
    hide Super;
    hide LoadSuper;
    hide Layout;
    hide View;
    hide Tree;
    hide WellFormed;
    hide ExtentsOk;
    HoldsPlan(img, pl, total);
    SuperLoads(img, pl, total);
    SuperLayout(img, pl, total);
    ViewBuilt(img, pl, total, Super(GeometryOf(pl), total));
    TreeIsTree(pl);
    TreeExtents(pl, total);
  }

  // ---------------------------------------------------------------------------------------------
  // What is at a path
  // ---------------------------------------------------------------------------------------------

  lemma TreeDirectory(pl: Plan, i: nat)
    requires PlanOk(pl) && i < |pl.dirs|
    ensures var v, n := Tree(pl), i + 1;
            && Resolve(v, ROOT_INODE, pl.dirs[i]) == Some(n) && Live(v, n)
            && v.inodes[n - 1] == NewInode(n, KIND_DIRECTORY)
  {
    hide PlanOk;
    hide Resolve;
    hide BuiltVolume;
    hide GeometryOf;
    hide FirstSector;
    HasRoot(pl);
    SlotsSuffice(pl);
    ParentPath(pl, i + 1);
    BuiltResolves(pl, GeometryOf(pl).dataLba, InodeSlots(pl), EntrySlots(pl), i + 1);
    BuiltLive(pl, GeometryOf(pl).dataLba, InodeSlots(pl), EntrySlots(pl), i + 1);
  }

  lemma LookupFile(img: Image, pl: Plan, total: nat, sb: Superblock, i: nat)
    requires Holds(img, pl, total) && Layout(img, sb) && PlanOk(pl) && View(img, sb) == Tree(pl) && i < |pl.files|
    ensures pl.dirs != [] && Lookup(img, sb, pl.files[i].path) == Some(Node(FileRecord(pl, i), pl.files[i].data))
  {
    hide Holds;
    hide PlanOk;
    hide Tree;
    hide Layout;
    hide View;
    hide FileRecord;
    hide Contents;
    hide Resolve;
    hide Lookup;
    TreeFile(pl, i);
    FileRecordIs(pl, i);
    FileContents(img, pl, total, i);
    LookupIs(img, sb, pl.files[i].path, |pl.dirs| + 1 + i);
  }

  lemma LookupDirectory(img: Image, pl: Plan, sb: Superblock, i: nat)
    requires Layout(img, sb) && PlanOk(pl) && View(img, sb) == Tree(pl) && i < |pl.dirs|
    ensures Lookup(img, sb, pl.dirs[i]) == Some(Node(NewInode(i + 1, KIND_DIRECTORY), []))
  {
    hide PlanOk;
    hide Tree;
    hide Layout;
    hide View;
    hide Resolve;
    hide Lookup;
    TreeDirectory(pl, i);
    LookupIs(img, sb, pl.dirs[i], i + 1);
  }

  lemma LookupNothing(img: Image, pl: Plan, sb: Superblock, p: seq<Name>)
    requires Layout(img, sb) && PlanOk(pl) && View(img, sb) == Tree(pl) && Lookup(img, sb, p).Some?
    ensures p in pl.dirs || exists f :: f in pl.files && f.path == p
  {
    hide PlanOk;
    hide Tree;
    hide Layout;
    hide View;
    hide Resolve;
    TreeFound(pl, p);
    var n := Resolve(Tree(pl), ROOT_INODE, p).value;
    if n > |pl.dirs| { assert pl.files[n - 1 - |pl.dirs|] in pl.files; }
  }

  /** What a set of files has at a path. */
  datatype Thing = File(data: seq<byte>) | Directory | Nothing

  ghost predicate HasFile(files: seq<HostFile>, p: seq<Name>, data: seq<byte>) {
    exists f :: f in files && f.path == p && f.data == data
  }

  /** `t` is what the files have at `p`: a file, a directory on the way to one, or nothing. */
  ghost predicate Stands(files: seq<HostFile>, p: seq<Name>, t: Thing) {
    match t
    case File(data) => HasFile(files, p, data)
    case Directory => Leads(p, files)
    case Nothing => !Leads(p, files) && forall f :: f in files ==> f.path != p
  }

  lemma LeadsSame(a: seq<HostFile>, b: seq<HostFile>, d: seq<Name>)
    requires (forall f :: f in a <==> f in b) && Leads(d, a)
    ensures Leads(d, b)
  {
    if d != [] {
      var i :| 0 <= i < |a| && IsPrefix(d, a[i].path);
      assert a[i] in b by { assert a[i] in a; }
      var k :| 0 <= k < |b| && b[k] == a[i];
    }
  }

  predicate Shows(node: Option<Node>, t: Thing) {
    match t
    case File(data) => node.Some? && node.value.record.kind == KIND_FILE && node.value.record.size == |data|
                       && node.value.bytes == data
    case Directory => node.Some? && node.value.record.kind == KIND_DIRECTORY && node.value.record.size == 0
    case Nothing => node == None
  }

  /** The kernel finds at every path exactly what the files have there. */
  lemma LookupShows(img: Image, pl: Plan, total: nat, sb: Superblock, p: seq<Name>, t: Thing)
    requires Holds(img, pl, total) && Layout(img, sb) && PlanOk(pl) && View(img, sb) == Tree(pl)
             && Stands(pl.files, p, t)
    ensures Shows(Lookup(img, sb, p), t)
  {
    match t
    case File(data) =>
      hide PlanOk;
      hide Lookup;
      hide Holds;
      hide Tree;
      hide FileRecord;
      var f :| f in pl.files && f.path == p && f.data == data;
      var i :| 0 <= i < |pl.files| && pl.files[i] == f;
      LookupFile(img, pl, total, sb, i);
      FileRecordIs(pl, i);
    case Directory =>
      hide Lookup;
      hide Holds;
      hide Tree;
      hide Leads;
      assert p in pl.dirs;
      var i :| 0 <= i < |pl.dirs| && pl.dirs[i] == p;
      LookupDirectory(img, pl, sb, i);
    case Nothing =>
      hide Lookup;
      hide Holds;
      hide Tree;
      hide Leads;
      if Lookup(img, sb, p).Some? { LookupNothing(img, pl, sb, p); }
  }

  lemma StandsSame(a: seq<HostFile>, b: seq<HostFile>, p: seq<Name>, t: Thing)
    requires (forall f :: f in a <==> f in b) && Stands(a, p, t)
    ensures Stands(b, p, t)
  {
    hide Leads;
    if Leads(p, a) { LeadsSame(a, b, p); }
    if Leads(p, b) { LeadsSame(b, a, p); }
  }

  /** A disk of full size with a formatted volume. */
  ghost predicate FormattedDisk(img: Image, files: seq<HostFile>, total: nat) {
    Formatted(img, files, total) && (SUPER_LBA + total) * SECTOR <= |img|
  }

  lemma DiskIs(img: Image, files: seq<HostFile>, total: nat) returns (pl: Plan, sb: Superblock)
    requires FormattedDisk(img, files, total)
    ensures Holds(img, pl, total) && Sound(img, sb) && PlanOk(pl) && View(img, sb) == Tree(pl)
    ensures forall f :: f in pl.files <==> f in files
  {
    hide PartOf;
    hide Holds;
    hide GeometryOf;
    hide GeometryFits;
    hide PlanOk;
    hide PlanOf;
    hide VolumeBytes;
    hide Super;
    hide Sound;
    hide View;
    pl := BuildIs(files, total);
    VolumeOnDisk(img, pl, total);
    SoundBuilt(img, pl, total);
    sb := Super(GeometryOf(pl), total);
  }

  /** The kernel reads what the host wrote: a path to a file gives its bytes when they fit with a
      terminating zero; anything else, and every path that names no file, gives -1. */
  lemma KernelReads(img: Image, files: seq<HostFile>, total: nat, path: Text, capacity: nat, p: seq<Name>, t: Thing)
    requires FormattedDisk(img, files, total) && Parse(path) == Some(p) && Stands(files, p, t)
    ensures LoadSuper(img).Some? && Layout(img, LoadSuper(img).value)
    ensures ReadFile(img, path, capacity) == if t.File? && |t.data| < capacity then Some(t.data) else None
  {
    hide FormattedDisk;
    hide Holds;
    hide PlanOk;
    hide Parse;
    hide Stands;
    hide View;
    hide LoadSuper;
    hide Layout;
    hide WellFormed;
    hide ExtentsOk;
    hide Lookup;
    hide ReadFile;
    hide Tree;
    var pl, sb := DiskIs(img, files, total);
    StandsSame(files, pl.files, p, t);
    LookupShows(img, pl, total, sb, p, t);
    ReadIsContents(img, sb, path, capacity);
  }

  /** Host and kernel, each with its own spelling of the path, find the same bytes: the dictionary of
      `parse_volume` under `/a/b`, and the kernel's read of `prime:a>b`. */
  lemma SameBytes(img: Image, files: seq<HostFile>, total: nat, f: HostFile, capacity: nat)
    requires FormattedDisk(img, files, total) && f in files && PartsOk(f.path) && |f.data| < capacity
    ensures LoadSuper(img).Some? && Layout(img, LoadSuper(img).value)
    ensures ReadFile(img, Join(PRIME, f.path), capacity) == Some(f.data)
    ensures ParseVolume(img).Some? && HostText(f.path) in ParseVolume(img).value
            && ParseVolume(img).value[HostText(f.path)] == f.data
  {
    hide Formatted;
    hide Parse;
    hide Join;
    hide ReadFile;
    hide Layout;
    hide LoadSuper;
    hide PartsOk;
    hide HostText;
    hide ParseVolume;
    RoundTrip(img, files, total);
    JoinParses(PRIME, f.path);
    assert HasFile(files, f.path, f.data);
    KernelReads(img, files, total, Join(PRIME, f.path), capacity, f.path, File(f.data));
  }

  /** `stat` reports the kind and the size. */
  lemma KernelStats(img: Image, files: seq<HostFile>, total: nat, path: Text, p: seq<Name>, t: Thing)
    requires FormattedDisk(img, files, total) && Parse(path) == Some(p) && Stands(files, p, t)
    ensures LoadSuper(img).Some? && Layout(img, LoadSuper(img).value)
    ensures match Stat(img, path)
            case None => t.Nothing?
            case Some(r) => (t.File? && r.kind == KIND_FILE && r.size == |t.data|)
                            || (t.Directory? && r.kind == KIND_DIRECTORY && r.size == 0)
  {
    hide FormattedDisk;
    hide Holds;
    hide PlanOk;
    hide Parse;
    hide Stands;
    hide View;
    hide LoadSuper;
    hide Layout;
    hide WellFormed;
    hide ExtentsOk;
    hide Lookup;
    hide Find;
    hide Tree;
    hide NodeOf;
    var pl, sb := DiskIs(img, files, total);
    StandsSame(files, pl.files, p, t);
    LookupShows(img, pl, total, sb, p, t);
    FindIsLookup(img, sb, path);
  }

  ghost predicate Present(files: seq<HostFile>, p: seq<Name>) {
    Leads(p, files) || exists f :: f in files && f.path == p
  }

  lemma PresentStands(files: seq<HostFile>, p: seq<Name>) returns (t: Thing)
    ensures Stands(files, p, t) && (t.Nothing? <==> !Present(files, p))
  {
    hide Leads;
    if Leads(p, files) {
      t := Directory;
    } else if f :| f in files && f.path == p {
      t := File(f.data);
      assert HasFile(files, p, f.data);
    } else {
      t := Nothing;
    }
  }

  lemma PresentIsFound(img: Image, pl: Plan, total: nat, sb: Superblock, files: seq<HostFile>, p: seq<Name>)
    requires Holds(img, pl, total) && Layout(img, sb) && PlanOk(pl) && View(img, sb) == Tree(pl)
    requires forall f :: f in pl.files <==> f in files
    ensures Lookup(img, sb, p).Some? <==> Present(files, p)
  {
    hide Holds;
    hide Layout;
    hide View;
    hide PlanOk;
    hide Tree;
    hide Lookup;
    hide Present;
    hide Stands;
    var t := PresentStands(files, p);
    StandsSame(files, pl.files, p, t);
    LookupShows(img, pl, total, sb, p, t);
  }

  /** Listing a directory with enough room gives exactly the names of the files and directories in it. */
  lemma KernelLists(img: Image, files: seq<HostFile>, total: nat, path: Text, p: seq<Name>, capacity: nat)
    returns (names: seq<Name>)
    requires FormattedDisk(img, files, total) && Parse(path) == Some(p) && Leads(p, files) && 2 <= capacity
    ensures LoadSuper(img).Some? && Layout(img, LoadSuper(img).value)
    ensures forall name :: name in names <==> Present(files, p + [name])
    ensures |Joined(names)| + 1 < capacity ==>
              List(img, path, capacity)
                == Some(if names == [] then [] else Joined(names)[..|Joined(names)| - 1] + [NEWLINE])
  {
    hide FormattedDisk;
    hide Holds;
    hide PlanOk;
    hide Parse;
    hide View;
    hide LoadSuper;
    hide Layout;
    hide WellFormed;
    hide ExtentsOk;
    hide Lookup;
    hide List;
    hide Joined;
    hide Tree;
    hide Leads;
    hide Present;
    var pl, sb := DiskIs(img, files, total);
    StandsSame(files, pl.files, p, Directory);
    LookupShows(img, pl, total, sb, p, Directory);
    names := ListIsChildren(img, sb, path, p, capacity);
    forall name
      ensures name in names <==> Present(files, p + [name])
    {
      PresentIsFound(img, pl, total, sb, files, p + [name]);
    }
  }

  // ---------------------------------------------------------------------------------------------
  // The bitmap
  // ---------------------------------------------------------------------------------------------

  /** Sector `k` belongs to the first `n` files. */
  predicate InExtent(files: seq<HostFile>, n: nat, lba: nat, k: nat)
    requires n <= |files|
  {
    exists i :: 0 <= i < n && OfFile(files, i, lba, k)
  }

  predicate OfFile(files: seq<HostFile>, i: nat, lba: nat, k: nat)
    requires i < |files|
  {
    FirstSector(files, i, lba) <= k < FirstSector(files, i, lba) + SectorsOf(files[i])
  }

  lemma {:induction false} ExtentsFill(files: seq<HostFile>, n: nat, lba: nat, k: nat)
    requires n <= |files|
    ensures InExtent(files, n, lba, k) <==> lba <= k < FirstSector(files, n, lba)
  {
    if n > 0 {
      ExtentsFill(files, n - 1, lba, k);
      FirstSectorGrows(files, n - 1, n - 1, lba);
      if OfFile(files, n - 1, lba, k) { assert InExtent(files, n, lba, k); }
    }
  }

  /** The bitmap on the disk marks exactly the sectors of the superblock, the bitmap, the two tables and
      the files, and no two files share one. */
  lemma BitmapIsUse(img: Image, pl: Plan, total: nat, k: nat)
    requires Holds(img, pl, total) && k < BITMAP_BITS
    ensures var g := GeometryOf(pl);
            && (SUPER_LBA + 2) * SECTOR <= |img|
            && (Bit(img[(SUPER_LBA + 1) * SECTOR + k / 8], k % 8) <==>
                 SUPER_LBA <= k < g.dataLba || InExtent(pl.files, |pl.files|, g.dataLba, k))
  {
    hide PlanOk;
    hide Bitmap;
    hide SuperPart;
    hide InodePart;
    hide EntryPart;
    hide Payload;
    hide InExtent;
    hide FirstSector;
    hide Bit;
    var g := GeometryOf(pl);
    ExtentsFill(pl.files, |pl.files|, g.dataLba, k);
    FirstSectorGrows(pl.files, |pl.files|, |pl.files|, g.dataLba);
    BitmapMarks(SUPER_LBA, g.endLba, k);
    PartAt(img, (SUPER_LBA + 1) * SECTOR, Bitmap(SUPER_LBA, g.endLba), k / 8);
  }

  lemma PartAt(img: seq<byte>, at: nat, x: seq<byte>, i: nat)
    requires PartOf(img, at, x) && i < |x|
    ensures img[at + i] == x[i]
  {
    assert img[at..at + |x|][i] == x[i];
  }
}
