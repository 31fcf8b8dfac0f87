/** What the host's parser and the kernel's driver read back from a volume of the host's formatter
    (tools/qfs2.py, `build_volume`, `parse_volume`; kernel/core/qfs2.c). */
module HostReadBack {
  import opened Bytes
  import opened Options
  import opened Crc32
  import opened Qfs2Format
  import opened Qfs2Volume
  import opened Qfs2Path
  import opened Qfs2Image
  import opened HostPaths
  import opened HostTool
  import opened HostFormat
  import opened HostTree
  import opened HostImage
  import opened HostBuild

  // ---------------------------------------------------------------------------------------------
  // The tables
  // ---------------------------------------------------------------------------------------------

  /** A superblock with the tables where the formatter put them. */
  predicate TablesAt(sb: Superblock, g: Geometry) {
    && sb.inodeLba == INODE_LBA && sb.inodeSectors == g.inodeSectors
    && sb.entryLba == g.entryLba && sb.entrySectors == g.entrySectors
  }

  /** The tree of a plan, in tables of the volume's size. */
  ghost function Tree(pl: Plan): (v: Volume)
    requires PlanOk(pl)
    ensures |v.inodes| == InodeSlots(pl) && |v.entries| == EntrySlots(pl)
  {
    SlotsSuffice(pl);
    BuiltVolume(pl, GeometryOf(pl).dataLba, InodeSlots(pl), EntrySlots(pl))
  }

  lemma HasRoot(pl: Plan)
    requires PlanOk(pl)
    ensures pl.dirs != [] && pl.dirs[0] == []
  {
  }

  lemma HoldsPlan(img: Image, pl: Plan, total: nat)
    requires Holds(img, pl, total)
    ensures Fits(pl, total) && PlanOk(pl) && pl.dirs != [] && GeometryFits(GeometryOf(pl), total)
  {
  }

  lemma TreeInode(pl: Plan, i: nat)
    requires PlanOk(pl) && i < InodeSlots(pl)
    ensures Tree(pl).inodes[i] == if i < |Inodes(pl)| then Inodes(pl)[i] else EMPTY_INODE
  {
    hide PlanOk;
    hide InodeRecord;
    hide GeometryOf;
    HasRoot(pl);
    SlotsSuffice(pl);
  }

  lemma TreeEntry(pl: Plan, j: nat)
    requires PlanOk(pl) && j < EntrySlots(pl)
    ensures Tree(pl).entries[j] == if j < |Entries(pl)| then Entries(pl)[j] else EmptyEntry()
  {
    hide PlanOk;
    hide EntryRecord;
    hide GeometryOf;
    hide EmptyEntry;
    HasRoot(pl);
    SlotsSuffice(pl);
  }

  lemma ReadInode(img: Image, pl: Plan, total: nat, sb: Superblock, i: nat)
    requires Holds(img, pl, total) && TablesAt(sb, GeometryOf(pl)) && Layout(img, sb) && i < InodeSlots(pl)
    ensures InodeCount(sb) == InodeSlots(pl) && InodeAt(img, sb, i + 1) == Tree(pl).inodes[i]
  {
    hide DecodeInode;
    hide Tree;
    hide Inodes;
    hide Bitmap;
    hide SuperPart;
    hide EntryPart;
    hide PlanOk;
    hide Payload;
    hide GeometryOf;
    hide InodeRegion;
    var g := GeometryOf(pl);
    InodesFit(pl, total);
    NodesBounded(pl, total);
    RegionInode(Inodes(pl), g.inodeSectors, i);
    SliceOfSlice(img, INODE_LBA * SECTOR, g.entryLba * SECTOR, i * INODE_SIZE, i * INODE_SIZE + INODE_SIZE);
    TreeInode(pl, i);
  }

  lemma ReadEntry(img: Image, pl: Plan, total: nat, sb: Superblock, j: nat)
    requires Holds(img, pl, total) && TablesAt(sb, GeometryOf(pl)) && Layout(img, sb) && j < EntrySlots(pl)
    ensures EntryCount(sb) == EntrySlots(pl) && EntryAt(img, sb, j) == Tree(pl).entries[j]
  {
    hide DecodeDentry;
    hide Tree;
    hide Entries;
    hide Bitmap;
    hide SuperPart;
    hide InodePart;
    hide PlanOk;
    hide Payload;
    hide GeometryOf;
    hide EntryRegion;
    hide EmptyEntry;
    var g := GeometryOf(pl);
    EntriesFit(pl, total);
    NodesBounded(pl, total);
    RegionEntry(Entries(pl), g.entrySectors, j);
    SliceOfSlice(img, g.entryLba * SECTOR, g.dataLba * SECTOR, j * DENTRY_SIZE, j * DENTRY_SIZE + DENTRY_SIZE);
    TreeEntry(pl, j);
  }

  /** The tables on the disk are those of the plan. */
  lemma ViewBuilt(img: Image, pl: Plan, total: nat, sb: Superblock)
    requires Holds(img, pl, total) && TablesAt(sb, GeometryOf(pl)) && Layout(img, sb)
    ensures View(img, sb) == Tree(pl)
  {
    hide Holds;
    hide Tree;
    hide Layout;
    hide GeometryOf;
    hide View;
    hide InodeAt;
    hide EntryAt;
    HoldsPlan(img, pl, total);
    var v := Tree(pl);
    assert InodeCount(sb) == InodeSlots(pl) && EntryCount(sb) == EntrySlots(pl);
    forall i | 0 <= i < InodeCount(sb)
      ensures v.inodes[i] == InodeAt(img, sb, i + 1)
    {
      ReadInode(img, pl, total, sb, i);
    }
    forall j | 0 <= j < EntryCount(sb)
      ensures v.entries[j] == EntryAt(img, sb, j)
    {
      ReadEntry(img, pl, total, sb, j);
    }
    ViewIs(img, sb, v);
  }

  // ---------------------------------------------------------------------------------------------
  // The superblock
  // ---------------------------------------------------------------------------------------------

  lemma SuperReads(g: Geometry, total: nat)
    requires GeometryFits(g, total)
    ensures var raw := SuperPart(g, total)[..SUPER_SIZE];
            DecodeSuper(raw) == Super(g, total) && SuperOk(Super(g, total), raw)
  {
    hide DecodeSuper;
    hide EncodeSuper;
    hide SuperFields;
    hide Crc;
    var s := Super(g, total);
    SuperRoundTrip(s);
    SuperSlices(s);
    SameFields(Unsealed(g, total), s.checksum);
    ConcatPrefix(EncodeSuper(s), Zeros(SECTOR - SUPER_SIZE), 0, SUPER_SIZE);
    assert HOST_MAGIC[..5] == MAGIC;
  }

  lemma SameFields(s: Superblock, checksum: nat)
    requires SuperFits(s) && checksum < B32
    ensures SuperFields(s.(checksum := checksum)) == SuperFields(s)
  {
    hide Le16;
    hide Le32;
  }

  lemma SuperLoads(img: Image, pl: Plan, total: nat)
    requires Holds(img, pl, total)
    ensures LoadSuper(img) == Some(Super(GeometryOf(pl), total))
  {
    hide DecodeSuper;
    hide SuperOk;
    hide Super;
    hide SuperPart;
    hide GeometryOf;
    hide PlanOk;
    hide Bitmap;
    hide InodePart;
    hide EntryPart;
    hide Payload;
    SuperReads(GeometryOf(pl), total);
    SliceOfSlice(img, SUPER_LBA * SECTOR, (SUPER_LBA + 1) * SECTOR, 0, SUPER_SIZE);
  }

  // ---------------------------------------------------------------------------------------------
  // The files
  // ---------------------------------------------------------------------------------------------

  /** The record of file `i`. */
  function FileRecord(pl: Plan, i: nat): Inode
    requires pl.dirs != [] && i < |pl.files|
  {
    InodeRecord(pl, GeometryOf(pl).dataLba, |pl.dirs| + 1 + i)
  }

  lemma FileRecordIs(pl: Plan, i: nat)
    requires pl.dirs != [] && i < |pl.files|
    ensures var r, f := FileRecord(pl, i), pl.files[i];
            && r.kind == KIND_FILE && r.size == |f.data|
            && r.firstSector == FirstSector(pl.files, i, GeometryOf(pl).dataLba)
            && r.sectors == SectorsOf(f)
  {
    hide GeometryOf;
    hide FirstSector;
  }

  lemma FileOnDisk(img: Image, pl: Plan, total: nat, i: nat)
    requires Holds(img, pl, total) && i < |pl.files|
    ensures var r := FileRecord(pl, i);
            && r.firstSector * SECTOR + r.size <= GeometryOf(pl).endLba * SECTOR <= |img|
            && img[r.firstSector * SECTOR..r.firstSector * SECTOR + r.size] == pl.files[i].data
  {
    hide GeometryOf;
    hide PlanOk;
    hide FirstSector;
    hide InodePart;
    hide EntryPart;
    hide SuperPart;
    hide Bitmap;
    hide Payload;
    hide FileRecord;
    var lba := GeometryOf(pl).dataLba;
    FileRecordIs(pl, i);
    FileInside(pl, total, i);
    VolumeSize(pl, total);
    PayloadAt(pl.files, i, lba);
    PartIn(img, lba * SECTOR, Payload(pl.files), (FirstSector(pl.files, i, lba) - lba) * SECTOR, pl.files[i].data);
  }

  lemma FileContents(img: Image, pl: Plan, total: nat, i: nat)
    requires Holds(img, pl, total) && i < |pl.files|
    ensures pl.dirs != [] && Contents(img, FileRecord(pl, i)) == pl.files[i].data
    ensures FileBytes(img, FileRecord(pl, i)) == pl.files[i].data
  {
    hide Holds;
    hide GeometryOf;
    hide FileRecord;
    HoldsPlan(img, pl, total);
    FileOnDisk(img, pl, total, i);
  }

  /** Each file is found in the tree at its path, with its record. */
  lemma TreeFile(pl: Plan, i: nat)
    requires PlanOk(pl) && i < |pl.files|
    ensures var v, n := Tree(pl), |pl.dirs| + 1 + i;
            && Resolve(v, ROOT_INODE, pl.files[i].path) == Some(n) && Live(v, n)
            && pl.dirs != [] && v.inodes[n - 1] == FileRecord(pl, i)
  {
    hide PlanOk;
    hide Resolve;
    hide BuiltVolume;
    hide InodeRecord;
    hide GeometryOf;
    HasRoot(pl);
    SlotsSuffice(pl);
    BuiltFile(pl, GeometryOf(pl).dataLba, InodeSlots(pl), EntrySlots(pl), i);
    BuiltLive(pl, GeometryOf(pl).dataLba, InodeSlots(pl), EntrySlots(pl), |pl.dirs| + 1 + i);
  }

  /** Whatever path leads somewhere is a directory's or a file's. */
  lemma TreeFound(pl: Plan, p: seq<Name>)
    requires PlanOk(pl) && Resolve(Tree(pl), ROOT_INODE, p).Some?
    ensures var v, n := Tree(pl), Resolve(Tree(pl), ROOT_INODE, p).value;
            && NodeAt(pl, n, p) && Live(v, n)
            && v.inodes[n - 1].kind == KindOf(pl, n)
  {
    hide PlanOk;
    hide Resolve;
    hide BuiltVolume;
    hide InodeRecord;
    hide GeometryOf;
    hide NodeAt;
    HasRoot(pl);
    SlotsSuffice(pl);
    var lba, ni, ne := GeometryOf(pl).dataLba, InodeSlots(pl), EntrySlots(pl);
    var n := Resolve(Tree(pl), ROOT_INODE, p).value;
    BuiltFound(pl, lba, ni, ne, p, n);
    NodeInside(pl, n, p);
    BuiltLive(pl, lba, ni, ne, n);
  }

  lemma NodeInside(pl: Plan, n: nat, p: seq<Name>)
    requires NodeAt(pl, n, p)
    ensures 1 <= n <= |pl.dirs| + |pl.files|
  {
  }

  lemma TreeIsTree(pl: Plan)
    requires PlanOk(pl)
    ensures WellFormed(Tree(pl)) && AsciiVolume(Tree(pl))
  {
    hide PlanOk;
    hide BuiltVolume;
    hide GeometryOf;
    hide WellFormed;
    hide AsciiVolume;
    HasRoot(pl);
    SlotsSuffice(pl);
    BuiltWellFormed(pl, GeometryOf(pl).dataLba, InodeSlots(pl), EntrySlots(pl));
    BuiltAscii(pl, GeometryOf(pl).dataLba, InodeSlots(pl), EntrySlots(pl));
  }

  // ---------------------------------------------------------------------------------------------
  // The host's parser
  // ---------------------------------------------------------------------------------------------

  lemma CutLayout(img: Image, pl: Plan, total: nat)
    requires Holds(img, pl, total)
    ensures var g := GeometryOf(pl);
            var cut := Super(g, total).(totalSectors := g.endLba);
            Layout(img, cut) && TablesAt(cut, g)
  {
    hide GeometryOf;
    hide PlanOk;
    hide InodePart;
    hide EntryPart;
    hide SuperPart;
    hide Bitmap;
    hide Payload;
    hide SuperFields;
    VolumeSize(pl, total);
  }

  lemma HostTablesBuilt(img: Image, pl: Plan, total: nat)
    requires Holds(img, pl, total)
    ensures HostTables(img, Super(GeometryOf(pl), total)) == Tree(pl)
  {
    hide Holds;
    hide GeometryOf;
    hide Layout;
    hide Tree;
    hide View;
    hide InodesIn;
    hide EntriesIn;
    hide Super;
    HoldsPlan(img, pl, total);
    var cut := Super(GeometryOf(pl), total).(totalSectors := GeometryOf(pl).endLba);
    CutLayout(img, pl, total);
    HostTablesAreView(img, cut);
    ViewBuilt(img, pl, total, cut);
  }

  lemma HostSuperBuilt(img: Image, pl: Plan, total: nat)
    requires Holds(img, pl, total)
    ensures HostSuper(img) == Some(Super(GeometryOf(pl), total))
  {
    hide Holds;
    hide GeometryOf;
    hide HostSuper;
    hide LoadSuper;
    hide SuperFields;
    HoldsPlan(img, pl, total);
    HostSuperIsKernels(img);
    SuperLoads(img, pl, total);
  }

  /** A dictionary that holds exactly the given files under their paths. */
  ghost predicate IsFileMap(m: map<Text, seq<byte>>, files: seq<HostFile>) {
    && (forall f :: f in files ==> HostText(f.path) in m && m[HostText(f.path)] == f.data)
    && (forall t :: t in m ==> exists f :: f in files && t == HostText(f.path))
  }

  lemma MapHasFile(img: Image, pl: Plan, total: nat, m: map<Text, seq<byte>>, i: nat)
    requires Holds(img, pl, total) && PlanOk(pl) && HoldsFiles(img, Tree(pl), m) && i < |pl.files|
    ensures HostText(pl.files[i].path) in m && m[HostText(pl.files[i].path)] == pl.files[i].data
  {
    hide Holds;
    hide PlanOk;
    hide Tree;
    hide Resolve;
    hide FileBytes;
    hide HostText;
    hide FileRecord;
    TreeFile(pl, i);
    FileRecordIs(pl, i);
    FileContents(img, pl, total, i);
    assert IsFile(Tree(pl), pl.files[i].path);
  }

  lemma MapOnlyFiles(img: Image, pl: Plan, m: map<Text, seq<byte>>, t: Text) returns (f: HostFile)
    requires PlanOk(pl) && HoldsFiles(img, Tree(pl), m) && t in m
    ensures f in pl.files && t == HostText(f.path)
  {
    hide PlanOk;
    hide Tree;
    hide Resolve;
    hide FileBytes;
    hide HostText;
    var p :| IsFile(Tree(pl), p) && t == HostText(p);
    TreeFound(pl, p);
    f := pl.files[Resolve(Tree(pl), ROOT_INODE, p).value - 1 - |pl.dirs|];
  }

  /** The host's parse of a disk with a formatted volume. */
  lemma ParseBuilt(img: Image, pl: Plan, total: nat)
    requires Holds(img, pl, total)
    ensures ParseVolume(img).Some? && IsFileMap(ParseVolume(img).value, pl.files)
  {
    hide Holds;
    hide HostSuper;
    hide HostTables;
    hide WellFormed;
    hide AsciiVolume;
    hide HoldsFiles;
    hide ParseVolume;
    hide Tree;
    hide PlanOk;
    hide GeometryOf;
    hide HostText;
    HoldsPlan(img, pl, total);
    HostSuperBuilt(img, pl, total);
    HostTablesBuilt(img, pl, total);
    TreeIsTree(pl);
    ParseOk(img, Super(GeometryOf(pl), total), Tree(pl));
    var m := ParseVolume(img).value;
    forall f | f in pl.files
      ensures HostText(f.path) in m && m[HostText(f.path)] == f.data
    {
      var i :| 0 <= i < |pl.files| && pl.files[i] == f;
      MapHasFile(img, pl, total, m, i);
    }
    forall t | t in m
      ensures exists f :: f in pl.files && t == HostText(f.path)
    {
      var f := MapOnlyFiles(img, pl, m, t);
    }
  }

  /** A disk that holds, behind its boot area, what `build_volume` returns for the files. */
  ghost predicate Formatted(img: Image, files: seq<HostFile>, total: nat) {
    FilesOk(files) && Build(files, total).Some? && PartOf(img, SUPER_LBA * SECTOR, Build(files, total).value)
  }

  /** `parse_volume` undoes `build_volume`: whatever else is on the disk, it returns exactly the files. */
  lemma RoundTrip(img: Image, files: seq<HostFile>, total: nat)
    requires Formatted(img, files, total)
    ensures ParseVolume(img).Some? && IsFileMap(ParseVolume(img).value, files)
  {
    hide Holds;
    hide ParseVolume;
    hide PlanOk;
    hide PlanOf;
    hide VolumeBytes;
    hide HostText;
    hide PartOf;
    var pl := BuildIs(files, total);
    VolumeOnDisk(img, pl, total);
    ParseBuilt(img, pl, total);
    SameMap(ParseVolume(img).value, pl.files, files);
  }

  lemma BuildIs(files: seq<HostFile>, total: nat) returns (pl: Plan)
    requires FilesOk(files) && Build(files, total).Some?
    ensures Fits(pl, total) && Build(files, total).value == VolumeBytes(pl, total)
    ensures forall f :: f in pl.files <==> f in files
    ensures pl == PlanOf(files)
  {
    hide SortFiles;
    hide Directories;
    hide VolumeBytes;
    hide PlanOk;
    pl := PlanOf(files);
    PlanOfOk(files);
    forall f
      ensures f in pl.files <==> f in files
    {
      SameFiles(files, f);
    }
  }

  lemma SameMap(m: map<Text, seq<byte>>, a: seq<HostFile>, b: seq<HostFile>)
    requires IsFileMap(m, a) && forall f :: f in a <==> f in b
    ensures IsFileMap(m, b)
  {
    hide HostText;
  }
}
