/** The volume that the formatter of tools/qfs2.py returns, and where its parts stand on a disk. */
module HostBuild {
  import opened Bytes
  import opened Options
  import opened Qfs2Format
  import opened Qfs2Image
  import opened HostFormat
  import opened HostTree
  import opened HostImage

  predicate LegalPaths(files: seq<HostFile>) { forall i :: 0 <= i < |files| ==> HostPathOk(files[i].path) }

  lemma SortedLegal(files: seq<HostFile>)
    requires LegalPaths(files)
    ensures forall i :: 0 <= i < |SortFiles(files)| ==> SortFiles(files)[i].path != []
  {
    forall i | 0 <= i < |SortFiles(files)|
      ensures SortFiles(files)[i].path != []
    {
      SortFilesHas(files, SortFiles(files)[i]);
    }
  }

  /** The sorted files and their directories. */
  function PlanOf(files: seq<HostFile>): (pl: Plan)
    requires LegalPaths(files)
  {
    SortedLegal(files);
    Plan(Directories(SortFiles(files)), SortFiles(files))
  }

  predicate Conflict(pl: Plan) { exists i :: 0 <= i < |pl.files| && pl.files[i].path in pl.dirs }

  /** The file sets that `build_volume` accepts: legal paths, no path both a file and a directory, room on
      the volume, and every used sector within reach of the one-sector bitmap. */
  predicate CanBuild(files: seq<HostFile>, total: nat) {
    && LegalPaths(files)
    && var pl := PlanOf(files);
       pl.dirs != [] && !Conflict(pl) && GeometryFits(GeometryOf(pl), total)
  }

  lemma PlanOfOk(files: seq<HostFile>)
    requires FilesOk(files) && !Conflict(PlanOf(files))
    ensures PlanOk(PlanOf(files))
  {
    SortFilesOk(files);
    DirectoriesAre(SortFiles(files));
    hide SortFiles;
    hide Directories;
    hide FilesOk;
  }

  lemma SameFiles(files: seq<HostFile>, f: HostFile)
    requires LegalPaths(files)
    ensures f in PlanOf(files).files <==> f in files
  {
    SortFilesHas(files, f);
  }

  // ---------------------------------------------------------------------------------------------
  // The parts of the image
  // ---------------------------------------------------------------------------------------------

  /** A plan whose volume fits. */
  ghost predicate Fits(pl: Plan, total: nat) { pl.dirs != [] && PlanOk(pl) && GeometryFits(GeometryOf(pl), total) }

  lemma FileInside(pl: Plan, total: nat, i: nat)
    requires Fits(pl, total) && i < |pl.files|
    ensures var g, f := GeometryOf(pl), pl.files[i];
            var first := FirstSector(pl.files, i, g.dataLba);
            && g.dataLba <= first && first + SectorsOf(f) <= g.endLba <= BITMAP_BITS
            && |f.data| <= SectorsOf(f) * SECTOR && SectorsOf(f) != 0
  {
    hide PlanOk;
    hide FirstSector;
    FirstSectorGrows(pl.files, i, |pl.files|, GeometryOf(pl).dataLba);
    PartFits(pl.files[i]);
  }

  lemma NodesBounded(pl: Plan, total: nat)
    requires Fits(pl, total)
    ensures Nodes(pl) + 1 < BITMAP_BITS * SECTOR
    ensures (Nodes(pl) + 1) * INODE_SIZE <= GeometryOf(pl).inodeSectors * SECTOR
    ensures Nodes(pl) * DENTRY_SIZE <= GeometryOf(pl).entrySectors * SECTOR
  {
    hide GeometryOf;
    SlotsSuffice(pl);
  }

  lemma InodeRecordFits(pl: Plan, total: nat, n: nat)
    requires Fits(pl, total) && 1 <= n <= Nodes(pl) + 1
    ensures InodeFits(InodeRecord(pl, GeometryOf(pl).dataLba, n))
  {
    hide GeometryOf;
    hide FirstSector;
    hide SectorsOf;
    NodesBounded(pl, total);
    if n > |pl.dirs| { FileInside(pl, total, n - 1 - |pl.dirs|); }
  }

  lemma EntryRecordFits(pl: Plan, total: nat, j: nat)
    requires Fits(pl, total) && j < Nodes(pl) && NodeOk(pl, NodePath(pl, j))
    ensures DentryFits(EntryRecord(pl, j))
  {
    hide GeometryOf;
    hide NodePath;
    hide Position;
    NodesBounded(pl, total);
  }

  function Inodes(pl: Plan): (s: seq<Inode>)
    requires pl.dirs != []
    ensures |s| == Nodes(pl) + 1
  {
    InodeTable(pl, GeometryOf(pl).dataLba, Nodes(pl) + 1)
  }

  ghost function Entries(pl: Plan): (s: seq<Dentry>)
    requires PlanOk(pl)
    ensures |s| == Nodes(pl)
  {
    EntryTable(pl, Nodes(pl))
  }

  lemma InodesFit(pl: Plan, total: nat)
    requires Fits(pl, total)
    ensures AllInodesFit(Inodes(pl))
  {
    hide PlanOk;
    hide GeometryOf;
    hide InodeFits;
    hide InodeRecord;
    var s := Inodes(pl);
    forall i | 0 <= i < |s|
      ensures InodeFits(s[i])
    {
      InodeRecordFits(pl, total, i + 1);
    }
  }

  lemma EntriesFit(pl: Plan, total: nat)
    requires Fits(pl, total)
    ensures AllEntriesFit(Entries(pl))
  {
    hide GeometryOf;
    hide GeometryFits;
    hide DentryFits;
    hide EntryRecord;
    var s := Entries(pl);
    forall j | 0 <= j < |s|
      ensures DentryFits(s[j])
    {
      NodesOk(pl, j);
      EntryRecordFits(pl, total, j);
    }
  }

  ghost function InodePart(pl: Plan, total: nat): (b: seq<byte>)
    requires Fits(pl, total)
    ensures |b| == GeometryOf(pl).inodeSectors * SECTOR
  {
    InodesFit(pl, total);
    NodesBounded(pl, total);
    InodeRegion(Inodes(pl), GeometryOf(pl).inodeSectors)
  }

  ghost function EntryPart(pl: Plan, total: nat): (b: seq<byte>)
    requires Fits(pl, total)
    ensures |b| == GeometryOf(pl).entrySectors * SECTOR
  {
    EntriesFit(pl, total);
    NodesBounded(pl, total);
    EntryRegion(Entries(pl), GeometryOf(pl).entrySectors)
  }

  function SuperPart(g: Geometry, total: nat): (b: seq<byte>)
    requires GeometryFits(g, total)
    ensures |b| == SECTOR
  {
    EncodeSuper(Super(g, total)) + Zeros(SECTOR - SUPER_SIZE)
  }

  /** The bytes that `build_volume` returns. */
  ghost function VolumeBytes(pl: Plan, total: nat): seq<byte>
    requires Fits(pl, total)
  {
    var g := GeometryOf(pl);
    SuperPart(g, total) + Bitmap(SUPER_LBA, g.endLba) + InodePart(pl, total) + EntryPart(pl, total) + Payload(pl.files)
  }

  /** `build_volume`; `None` stands for its exceptions. */
  ghost function Build(files: seq<HostFile>, total: nat): Option<seq<byte>>
    requires DistinctFiles(files)
  {
    if CanBuild(files, total) then
      PlanOfOk(files);
      Some(VolumeBytes(PlanOf(files), total))
    else None
  }

  // ---------------------------------------------------------------------------------------------
  // The volume on a disk
  // ---------------------------------------------------------------------------------------------

  predicate PartOf(img: seq<byte>, at: nat, x: seq<byte>) { at + |x| <= |img| && img[at..at + |x|] == x }

  lemma PartLeft(a: seq<byte>, b: seq<byte>, at: nat, x: seq<byte>)
    requires PartOf(a, at, x)
    ensures PartOf(a + b, at, x)
  {
    ConcatPrefix(a, b, at, at + |x|);
  }

  lemma PartRight(a: seq<byte>, b: seq<byte>)
    ensures PartOf(a + b, |a|, b)
  {
    ConcatSuffix(a, b, 0, |b|);
    assert b[0..|b|] == b;
  }

  lemma PartIn(img: seq<byte>, at: nat, v: seq<byte>, off: nat, x: seq<byte>)
    requires PartOf(img, at, v) && PartOf(v, off, x)
    ensures PartOf(img, at + off, x)
  {
    SliceOfSlice(img, at, at + |v|, off, off + |x|);
  }

  lemma FiveParts(s: seq<byte>, b: seq<byte>, i: seq<byte>, e: seq<byte>, p: seq<byte>)
    ensures var v := s + b + i + e + p;
            && |v| == |s| + |b| + |i| + |e| + |p|
            && PartOf(v, 0, s) && PartOf(v, |s|, b) && PartOf(v, |s| + |b|, i) && PartOf(v, |s| + |b| + |i|, e)
            && PartOf(v, |s| + |b| + |i| + |e|, p)
  {
    var first, third := s + b, s + b + i;
    var fourth := third + e;
    assert PartOf(s, 0, s);
    hide PartOf;
    PartLeft(s, b, 0, s);
    PartLeft(first, i, 0, s);
    PartLeft(third, e, 0, s);
    PartLeft(fourth, p, 0, s);
    PartRight(s, b);
    PartLeft(first, i, |s|, b);
    PartLeft(third, e, |s|, b);
    PartLeft(fourth, p, |s|, b);
    PartRight(first, i);
    PartLeft(third, e, |first|, i);
    PartLeft(fourth, p, |first|, i);
    PartRight(third, e);
    PartLeft(fourth, p, |third|, e);
    PartRight(fourth, p);
  }

  /** A disk that holds a formatted volume behind the boot area. */
  ghost predicate Holds(img: Image, pl: Plan, total: nat) {
    && Fits(pl, total)
    && var g := GeometryOf(pl);
       && PartOf(img, SUPER_LBA * SECTOR, SuperPart(g, total))
       && PartOf(img, (SUPER_LBA + 1) * SECTOR, Bitmap(SUPER_LBA, g.endLba))
       && PartOf(img, INODE_LBA * SECTOR, InodePart(pl, total))
       && PartOf(img, g.entryLba * SECTOR, EntryPart(pl, total))
       && PartOf(img, g.dataLba * SECTOR, Payload(pl.files))
  }

  lemma VolumeSize(pl: Plan, total: nat)
    requires Fits(pl, total)
    ensures SUPER_LBA * SECTOR + |VolumeBytes(pl, total)| == GeometryOf(pl).endLba * SECTOR
    ensures GeometryOf(pl).dataLba * SECTOR + |Payload(pl.files)| == GeometryOf(pl).endLba * SECTOR
  {
    hide PlanOk;
    hide SuperPart;
    hide Bitmap;
    hide InodePart;
    hide EntryPart;
    hide Payload;
    hide FirstSector;
    PayloadSize(pl.files, GeometryOf(pl).dataLba);
  }

  lemma VolumeOnDisk(img: Image, pl: Plan, total: nat)
    requires Fits(pl, total) && PartOf(img, SUPER_LBA * SECTOR, VolumeBytes(pl, total))
    ensures Holds(img, pl, total)
  {
    hide PlanOk;
    hide SuperPart;
    hide Bitmap;
    hide InodePart;
    hide EntryPart;
    hide Payload;
    hide GeometryOf;
    hide PartOf;
    var g, v, at := GeometryOf(pl), VolumeBytes(pl, total), SUPER_LBA * SECTOR;
    var s, b, i, e, p := SuperPart(g, total), Bitmap(SUPER_LBA, g.endLba), InodePart(pl, total), EntryPart(pl, total),
                           Payload(pl.files);
    FiveParts(s, b, i, e, p);
    PartIn(img, at, v, 0, s);
    PartIn(img, at, v, |s|, b);
    PartIn(img, at, v, |s| + |b|, i);
    PartIn(img, at, v, |s| + |b| + |i|, e);
    PartIn(img, at, v, |s| + |b| + |i| + |e|, p);
  }
}
