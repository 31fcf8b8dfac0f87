/** Inputs on which the host tool and the kernel's driver differ (tools/qfs2.py, kernel/core/qfs2.c):
    superblocks that only the kernel accepts, and a name that only the kernel creates. */
module HostDifferences {
  import opened Bytes
  import opened Options
  import opened Crc32
  import opened Qfs2Format
  import opened Qfs2Volume
  import opened Qfs2Path
  import opened Qfs2Image
  import opened HostPaths
  import opened HostTool
  import opened HostCreate
  import opened HostFormat
  import opened HostTree
  import opened HostImage
  import opened HostBuild
  import opened HostReadBack
  import opened HostAgreement

  /** A disk with that superblock, sealed with its checksum. */
  lemma SealedLoads(s: Superblock) returns (img: Image)
    requires SuperFits(s) && MAGIC <= s.magic && s.version == 2 && s.sectorSize == SECTOR && s.rootInode == ROOT_INODE
    requires s.totalSectors != 0 && s.inodeSectors != 0 && SUPER_LBA + 1 <= s.bitmapLba < s.inodeLba <= s.entryLba
    requires (s.entryLba + s.entrySectors) % B32 <= s.totalSectors
    ensures LoadSuper(img) == Some(s.(checksum := Crc(SuperFields(s))))
  {
    hide Crc;
    hide DecodeSuper;
    hide SuperFields;
    var t := s.(checksum := Crc(SuperFields(s)));
    assert SuperFields(t) == SuperFields(s) by { SameFields(s, Crc(SuperFields(s))); }
    var raw := EncodeSuper(t);
    SuperSlices(t);
    SuperRoundTrip(t);
    img := Zeros(SUPER_LBA * SECTOR) + (raw + Zeros(SECTOR - SUPER_SIZE));
    ConcatSuffix(Zeros(SUPER_LBA * SECTOR), raw + Zeros(SECTOR - SUPER_SIZE), 0, SUPER_SIZE);
    ConcatPrefix(raw, Zeros(SECTOR - SUPER_SIZE), 0, SUPER_SIZE);
    assert raw[0..SUPER_SIZE] == raw;
  }

  lemma SameFields(s: Superblock, checksum: nat)
    requires SuperFits(s) && checksum < B32
    ensures SuperFields(s.(checksum := checksum)) == SuperFields(s)
  {
    hide Le16;
    hide Le32;
  }

  /** Superblocks that only the kernel accepts: one whose magic goes on after its five letters, and one
      whose table region ends past the volume, at a sector number that wraps to 1. */
  lemma KernelOnlySupers() returns (named: Image, wrapped: Image)
    ensures LoadSuper(named).Some? && LoadSuper(named).value.magic == MAGIC + [0x21, 0, 0] && HostSuper(named) == None
    ensures LoadSuper(wrapped).Some? && LoadSuper(wrapped).value.magic == HOST_MAGIC && HostSuper(wrapped) == None
  {
    hide LoadSuper;
    hide HostSuper;
    var s := Superblock(MAGIC + [0x21, 0, 0], 2, SECTOR, 4096, SUPER_LBA + 1, INODE_LBA, 16, INODE_LBA + 16, 32,
                        ROOT_INODE, 0, 0);
    assert s.magic[..|MAGIC|] == MAGIC && s.magic[5] != HOST_MAGIC[5];
    named := SealedLoads(s);
    HostSuperIsKernels(named);
    var t := s.(magic := HOST_MAGIC, entryLba := B32 - 1, entrySectors := 2);
    assert HOST_MAGIC[..|MAGIC|] == MAGIC;
    wrapped := SealedLoads(t);
    HostSuperIsKernels(wrapped);
  }

  // ---------------------------------------------------------------------------------------------
  // The name `.`
  // ---------------------------------------------------------------------------------------------

  function DotPath(): Text { PRIME + [COLON, DOT] }

  lemma DotSplits()
    ensures Split(DotPath()) == Some((PRIME + [COLON], [DOT])) && Parse(PRIME + [COLON]) == Some([])
    ensures !EntryNameOk([DOT])
  {
    var path := DotPath();
    IndexIs(path, COLON, 5);
    IndexIs(PRIME + [COLON], COLON, 5);
    assert Trimmed(path, 6, 7) == 7;
    assert LastCut(path, 6, 7) == LastCut(path, 6, 6) == 0;
    assert path[..6] == PRIME + [COLON] && path[6..7] == [DOT];
    assert (PRIME + [COLON])[..5] == PRIME && (PRIME + [COLON])[6..] == [];
  }

  lemma RootOnly(dirs: seq<seq<Name>>)
    ensures DistinctPaths(dirs) && (forall d :: d in dirs ==> d == []) ==> |dirs| <= 1
  {
    if |dirs| > 1 { assert dirs[0] in dirs && dirs[1] in dirs; }
  }

  lemma NoFiles(files: seq<HostFile>)
    ensures (forall f :: f !in files) ==> files == []
  {
    if files != [] { assert files[0] in files; }
  }

  /** The tables of a disk without files hold the root only. */
  lemma EmptyTree(pl: Plan)
    requires PlanOk(pl) && pl.files == []
    ensures pl.dirs != [] && Nodes(pl) == 0
    ensures var v := Tree(pl);
            |v.inodes| > 1 && |v.entries| > 0 && v.inodes[1].inode == 0
            && forall j :: 0 <= j < |v.entries| ==> v.entries[j].nameLength == 0
  {
    assert forall d :: d in pl.dirs ==> d == [];
    RootOnly(pl.dirs);
    assert Nodes(pl) == 0;
    assert InodeSectors(0) == 16 && EntrySectors(0) == 32;
    hide PlanOk;
    var v := Tree(pl);
    TreeInode(pl, 1);
    forall j | 0 <= j < |v.entries|
      ensures v.entries[j].nameLength == 0
    {
      TreeEntry(pl, j);
    }
  }

  /** On every disk that the host formats without files, the kernel creates `prime:.` and the host
      refuses `/.`. */
  lemma DotOnlyKernel(img: Image, total: nat, kind: nat)
    requires FormattedDisk(img, [], total) && kind in {KIND_FILE, KIND_DIRECTORY}
    ensures LoadSuper(img).Some? && Layout(img, LoadSuper(img).value)
    ensures Create(img, DotPath(), kind).Some? && HostCreated(img, HostText([[DOT]]), kind) == None
  {
    hide FormattedDisk;
    hide Holds;
    hide PlanOk;
    hide Tree;
    hide View;
    hide Layout;
    hide LoadSuper;
    hide ExtentsOk;
    hide Split;
    hide Parse;
    hide DotPath;
    hide HostText;
    hide HostCreated;
    hide Written;
    hide EntryNameOk;
    var pl, sb := DiskIs(img, [], total);
    NoFiles(pl.files);
    EmptyTree(pl);
    var v := View(img, sb);
    FindFromMisses(v.entries, 0, ROOT_INODE, [DOT]);
    DotSplits();
    CreatorsAgree(img, sb, DotPath(), [], [DOT], kind);
    assert [] + [[DOT]] == [[DOT]];
    assert FindPath(v, PRIME + [COLON]) == Some(ROOT_INODE);
  }

  /** There is such a disk. */
  lemma EmptyDiskExists() returns (img: Image)
    ensures FormattedDisk(img, [], 50)
  {
    var files: seq<HostFile> := [];
    EmptyBuild();
    hide Build;
    hide PartOf;
    var v := Build(files, 50).value;
    var boot, rest := Zeros(SUPER_LBA * SECTOR), Zeros((SUPER_LBA + 50) * SECTOR);
    PartRight(boot, v);
    PartLeft(boot + v, rest, SUPER_LBA * SECTOR, v);
    img := boot + v + rest;
  }

  lemma EmptyBuild()
    ensures FilesOk([]) && Build([], 50).Some?
  {
    var pl := PlanOf([]);
    assert GeometryOf(pl) == Geometry(16, INODE_LBA + 16, 32, INODE_LBA + 48, INODE_LBA + 48);
  }
}
