/** A disk that holds the longest path (kernel/core/task.c, FS_OPEN), formatted by the host. */
module LongestPathDisk {
  import opened Bytes
  import opened Qfs2Format
  import opened Qfs2Volume
  import opened Qfs2Path
  import opened Qfs2Image
  import opened Qfs2Query
  import opened HostCreate
  import opened HostFormat
  import opened HostTree
  import opened HostImage
  import opened HostBuild
  import opened HostAgreement
  import opened FileHandles

  function First(): Name { Repeated(0x61, 44) }
  function Second(): Name { Repeated(0x62, 44) }
  function LongFile(): HostFile { HostFile([First(), Second()], []) }

  lemma LongFileOk()
    ensures FilesOk([LongFile()]) && LegalPaths([LongFile()])
  {
    hide Repeated;
    RepeatedOk(0x61);
    RepeatedOk(0x62);
  }

  lemma RepeatedOk(c: byte)
    requires c in {0x61, 0x62}
    ensures EntryNameOk(Repeated(c, 44))
  {
  }

  lemma LongPlan()
    requires LegalPaths([LongFile()])
    ensures var pl := PlanOf([LongFile()]);
            pl.files == [LongFile()] && |pl.dirs| == 2 && !Conflict(pl)
  {
    LongFileOk();
    hide Repeated;
    hide SortDirectories;
    var files := [LongFile()];
    hide EntryNameOk;
    assert SortFiles([]) == [] && SortFiles(files) == [LongFile()];
    var parents := Parents(files);
    assert files[..0] == [];
    assert LongFile().path[..1] == [First()];
    assert parents == AddPrefixes([[]], LongFile().path, 1) == [[]] + [[First()]];
    SortDirectoriesHas(parents, LongFile().path);
    var pl := PlanOf(files);
    assert LongFile().path !in parents;
  }

  lemma LongGeometry(pl: Plan)
    requires pl.files == [LongFile()] && |pl.dirs| == 2
    ensures GeometryOf(pl) == Geometry(16, INODE_LBA + 16, 32, INODE_LBA + 48, INODE_LBA + 49)
  {
    assert InodeSectors(2) == 16 && EntrySectors(2) == 32;
    var lba := INODE_LBA + 48;
    assert FirstSector(pl.files, 0, lba) == lba;
    assert SectorsOf(LongFile()) == 1;
  }

  /** The formatter accepts this one file on any volume of at least 51 sectors. */
  lemma LongBuild(total: nat)
    requires 51 <= total < B32 - SUPER_LBA
    ensures FilesOk([LongFile()]) && Build([LongFile()], total).Some?
  {
    LongFileOk();
    LongPlan();
    LongGeometry(PlanOf([LongFile()]));
    hide LongFile;
    hide SortFiles;
    hide Directories;
    hide PlanOf;
    hide Conflict;
    hide GeometryOf;
    hide VolumeBytes;
  }

  /** A mounted image on which the longest path names a file, so that FS_OPEN gets as far as the copy. */
  lemma LongestPathExists() returns (img: Image)
    ensures Mounted(img) && Stat(img, LongestPath()).Some? && Openable(img, PRIME, true, LongestPath(), 0)
  {
    hide LongestPath;
    hide LongFile;
    hide Build;
    hide FilesOk;
    hide Stat;
    hide PartOf;
    hide Openable;
    hide Mounted;
    hide Sound;
    hide Parse;
    hide Holds;
    hide PlanOk;
    var files := [LongFile()];
    LongBuild(51);
    var v := Build(files, 51).value;
    var boot, rest := Zeros(SUPER_LBA * SECTOR), Zeros((SUPER_LBA + 51) * SECTOR);
    PartRight(boot, v);
    PartLeft(boot + v, rest, SUPER_LBA * SECTOR, v);
    img := boot + v + rest;
    assert FormattedDisk(img, files, 51);
    var pl, sb := DiskIs(img, files, 51);
    SoundMounted(img, sb);
    LongestPathParses();
    LongStands();
    KernelStats(img, files, 51, LongestPath(), LongFile().path, File([]));
    LongestPathNotOpened(img, true);
  }

  lemma LongStands()
    ensures LongFile().path == [Repeated(0x61, 44), Repeated(0x62, 44)]
            && Stands([LongFile()], LongFile().path, File([]))
  {
    assert LongFile() in [LongFile()];
  }
}
