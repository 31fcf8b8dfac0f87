/** `build_volume` of tools/qfs2.py as it runs: the loops that gather directories, entries, inodes and
    payload, and the bitmap that is marked in place. */
module HostWriter {
  import opened Bits
  import opened Bytes
  import opened Options
  import opened Qfs2Format
  import opened Qfs2Volume
  import opened HostCreate
  import opened HostFormat
  import opened HostTree
  import opened HostImage
  import opened HostBuild

  /** The checks on path texts in `_parents` and on names in `DirectoryEntry.encode`; both raise. */
  method CheckPaths(files: seq<HostFile>) returns (ok: bool)
    ensures ok == LegalPaths(files)
  {
    for i := 0 to |files|
      invariant forall k :: 0 <= k < i ==> HostPathOk(files[k].path)
    {
      var path := files[i].path;
      if path == [] { return false; }
      for k := 0 to |path|
        invariant forall m :: 0 <= m < k ==> EntryNameOk(path[m])
      {
        if !EntryNameOk(path[k]) {
          assert !HostPathOk(files[i].path);
          return false;
        }
      }
    }
    return true;
  }

  /** `_parents` */
  method GatherParents(files: seq<HostFile>) returns (dirs: seq<seq<Name>>)
    requires forall i :: 0 <= i < |files| ==> files[i].path != []
    ensures dirs == Directories(files) && DirectoriesSorted(dirs)
  {
    hide DirectoriesSorted;
    var gathered: seq<seq<Name>> := [[]];
    for i := 0 to |files|
      invariant gathered == Parents(files[..i])
    {
      var path := files[i].path;
      for index := 1 to |path|
        invariant gathered == AddPrefixes(Parents(files[..i]), path, index - 1)
      {
        var d := path[..index];
        if d !in gathered { gathered := gathered + [d]; }
      }
      assert files[..i + 1][..i] == files[..i];
    }
    assert files[..|files|] == files;
    dirs := SortDirectories(gathered);
    SortDirectoriesSorted(gathered);
  }

  /** No path may be both a file and a directory. */
  method FindConflict(pl: Plan) returns (found: bool)
    ensures found == Conflict(pl)
  {
    for i := 0 to |pl.files|
      invariant forall k :: 0 <= k < i ==> pl.files[k].path !in pl.dirs
    {
      if pl.files[i].path in pl.dirs { return true; }
    }
    return false;
  }

  lemma EntryStep(pl: Plan, j: nat)
    requires PlanOk(pl) && j < Nodes(pl)
    ensures NodeOk(pl, NodePath(pl, j)) && Entries(pl)[j] == EntryRecord(pl, j)
  {
    NodesOk(pl, j);
    hide PlanOk;
    hide NodePath;
    hide EntryRecord;
  }

  /** The entries of the directories below the root, then those of the files. */
  method ListEntries(pl: Plan) returns (entries: seq<Dentry>)
    requires PlanOk(pl)
    ensures entries == Entries(pl)
  {
    hide PlanOk;
    hide Entries;
    hide Position;
    hide EntryNameOk;
    HasDirs(pl);
    entries := [];
    for i := 1 to |pl.dirs|
      invariant |entries| == i - 1 && entries == Entries(pl)[..i - 1]
    {
      EntryStep(pl, i - 1);
      var path := pl.dirs[i];
      entries := entries + [NewEntry(Position(pl.dirs, path[..|path| - 1]) + 1, i + 1, KIND_DIRECTORY,
                                     path[|path| - 1])];
    }
    var number := |pl.dirs| + 1;
    for i := 0 to |pl.files|
      invariant number == |pl.dirs| + 1 + i
      invariant |entries| == |pl.dirs| - 1 + i && entries == Entries(pl)[..|pl.dirs| - 1 + i]
    {
      EntryStep(pl, |pl.dirs| - 1 + i);
      var path := pl.files[i].path;
      entries := entries + [NewEntry(Position(pl.dirs, path[..|path| - 1]) + 1, number, KIND_FILE, path[|path| - 1])];
      number := number + 1;
    }
  }

  lemma HasDirs(pl: Plan)
    requires PlanOk(pl)
    ensures pl.dirs != []
  {
  }

  lemma {:induction false} FirstSectorOf(files: seq<HostFile>, i: nat, n: nat, lba: nat)
    requires i <= n <= |files|
    ensures FirstSector(files[..n], i, lba) == FirstSector(files, i, lba)
  {
    if i > 0 { FirstSectorOf(files, i - 1, n, lba); }
  }

  /** The inodes of the directories and the files, and the files' bytes in whole sectors. */
  method PlaceFiles(pl: Plan, lba: nat) returns (inodes: seq<Inode>, payload: seq<byte>, current: nat)
    requires pl.dirs != []
    ensures inodes == InodeTable(pl, lba, Nodes(pl) + 1)
    ensures payload == Payload(pl.files) && current == FirstSector(pl.files, |pl.files|, lba)
  {
    hide FirstSector;
    hide Payload;
    hide FilePart;
    hide SectorsOf;
    hide InodeTable;
    TableInode(pl, lba, 0);
    inodes := [];
    for i := 0 to |pl.dirs|
      invariant inodes == InodeTable(pl, lba, Nodes(pl) + 1)[..i]
    {
      TableInode(pl, lba, i);
      inodes := inodes + [NewInode(i + 1, KIND_DIRECTORY)];
    }
    payload, current := [], lba;
    NothingPlaced(pl.files, lba);
    for i := 0 to |pl.files|
      invariant inodes == InodeTable(pl, lba, Nodes(pl) + 1)[..|pl.dirs| + i]
      invariant payload == Payload(pl.files[..i]) && current == FirstSector(pl.files, i, lba)
    {
      var f, number := pl.files[i], |pl.dirs| + 1 + i;
      TableInode(pl, lba, |pl.dirs| + i);
      NextPlaced(pl.files, i, lba);
      var sectors := SectorsOf(f);
      PartFits(f);
      inodes := inodes + [Inode(number, KIND_FILE, Mode(f.path), 1000, 1000, |f.data|, current, sectors, 1, 0, 0)];
      payload := payload + f.data;
      payload := payload + Zeros(sectors * SECTOR - |f.data|);
      current := current + sectors;
    }
    assert pl.files[..|pl.files|] == pl.files;
  }

  lemma TableInode(pl: Plan, lba: nat, i: nat)
    requires pl.dirs != [] && i < Nodes(pl) + 1
    ensures |InodeTable(pl, lba, Nodes(pl) + 1)| == Nodes(pl) + 1
    ensures InodeTable(pl, lba, Nodes(pl) + 1)[i] == InodeRecord(pl, lba, i + 1)
  {
    hide InodeRecord;
  }

  lemma NothingPlaced(files: seq<HostFile>, lba: nat)
    ensures Payload(files[..0]) == [] && FirstSector(files, 0, lba) == lba
  {
  }

  lemma NextPlaced(files: seq<HostFile>, i: nat, lba: nat)
    requires i < |files|
    ensures FirstSector(files, i + 1, lba) == FirstSector(files, i, lba) + SectorsOf(files[i])
    ensures |files[i].data| <= SectorsOf(files[i]) * SECTOR
    ensures Payload(files[..i + 1]) == Payload(files[..i]) + files[i].data
              + Zeros(SectorsOf(files[i]) * SECTOR - |files[i].data|)
  {
    hide SectorsOf;
    PartFits(files[i]);
    assert files[..i + 1][..i] == files[..i];
    var a, b, c := Payload(files[..i]), files[i].data, Zeros(SectorsOf(files[i]) * SECTOR - |files[i].data|);
    assert a + b + c == a + (b + c);
  }

  /** The bitmap, marked bit by bit. */
  method MarkBitmap(start: nat, end: nat) returns (b: seq<byte>)
    requires start <= end <= BITMAP_BITS
    ensures b == Bitmap(start, end)
  {
    hide Or;
    hide Shl1;
    var bits := new byte[SECTOR](_ => 0);
    assert bits[..] == Zeros(SECTOR);
    for lba := start to end
      invariant bits[..] == Bitmap(start, lba)
    {
      BitByte(bits[lba / 8], lba % 8);
      bits[lba / 8] := Or(bits[lba / 8], Shl1(lba % 8));
    }
    b := bits[..];
  }

  /** Putting the marked bitmap in the place of the empty one. */
  lemma Replaced(s: seq<byte>, empty: seq<byte>, b: seq<byte>, i: seq<byte>, e: seq<byte>)
    requires |s| == SECTOR && |empty| == SECTOR
    ensures (s + empty + (i + e))[..SECTOR] + b + (s + empty + (i + e))[2 * SECTOR..] == s + b + i + e
  {
    var m := s + empty + (i + e);
    assert m[..SECTOR] == s;
    assert m[2 * SECTOR..] == i + e;
    assert s + b + (i + e) == s + b + i + e;
  }

  /** `build_volume` */
  method BuildVolume(files: seq<HostFile>, total: nat) returns (image: Option<seq<byte>>)
    requires DistinctFiles(files)
    ensures image == Build(files, total)
  {
    hide HostPathOk;
    hide PlanOk;
    hide SortFiles;
    hide Directories;
    hide Conflict;
    hide Bitmap;
    hide InodeRegion;
    hide EntryRegion;
    hide Payload;
    hide FirstSector;
    hide InodeTable;
    hide Entries;
    hide InodeSectors;
    hide EntrySectors;
    hide AllInodesFit;
    hide AllEntriesFit;
    hide DistinctFiles;
    hide EncodeSuper;
    hide SuperFields;
    var legal := CheckPaths(files);
    if !legal { return None; }
    SortedLegal(files);
    var dirs := GatherParents(SortFiles(files));
    var pl := Plan(dirs, SortFiles(files));
    var conflict := FindConflict(pl);
    if conflict { return None; }
    PlanOfOk(files);
    HasDirs(pl);
    var entries := ListEntries(pl);
    var inodeSectors, entrySectors := InodeSectors(Nodes(pl)), EntrySectors(Nodes(pl));
    var entryLba := INODE_LBA + inodeSectors;
    var dataLba := entryLba + entrySectors;
    var inodes, payload, current := PlaceFiles(pl, dataLba);
    var g := Geometry(inodeSectors, entryLba, entrySectors, dataLba, current);
    assert g == GeometryOf(pl);
    // Beyond these bounds the source raises: for want of room, in packing a field, or in marking a bit.
    if current > SUPER_LBA + total || SUPER_LBA + total >= B32 || current > BITMAP_BITS { return None; }
    SectorsEnough(pl, total);
    InodesFit(pl, total);
    EntriesFit(pl, total);
    NodesBounded(pl, total);
    var header := EncodeSuper(Super(g, total));
    var inodeData, entryData := InodeRegion(inodes, inodeSectors), EntryRegion(entries, entrySectors);
    var metadata := header + Zeros(SECTOR - SUPER_SIZE) + Zeros(SECTOR) + (inodeData + entryData);
    var bitmap := MarkBitmap(SUPER_LBA, current);
    image := Some(metadata[..SECTOR] + bitmap + metadata[2 * SECTOR..] + payload);
    Replaced(header + Zeros(SECTOR - SUPER_SIZE), Zeros(SECTOR), bitmap, inodeData, entryData);
  }

  lemma SectorsEnough(pl: Plan, total: nat)
    requires pl.dirs != [] && PlanOk(pl)
    requires var g := GeometryOf(pl); g.endLba <= SUPER_LBA + total < B32 && g.endLba <= BITMAP_BITS
    ensures Fits(pl, total)
  {
    hide PlanOk;
    hide FirstSector;
    hide Ceiling;
    FirstSectorGrows(pl.files, |pl.files|, |pl.files|, GeometryOf(pl).dataLba);
  }
}
