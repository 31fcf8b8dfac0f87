/** Reading and changing QFS v2 images on the host (tools/qfs2.py), and its agreement with the kernel's
    driver (kernel/core/qfs2.c). */
module HostTool {
  import opened Bytes
  import opened Options
  import opened Crc32
  import opened Qfs2Format
  import opened Qfs2Volume
  import opened Qfs2Path
  import opened Qfs2Image
  import opened HostPaths

  const HOST_MAGIC: seq<byte> := [0x51, 0x46, 0x53, 0x76, 0x32, 0, 0, 0]

  /** `data[lo:hi]` */
  function Slice(data: seq<byte>, lo: nat, hi: nat): seq<byte>
    requires lo <= hi
  {
    if hi <= |data| then data[lo..hi] else if lo <= |data| then data[lo..] else []
  }

  /** `validate_metadata` on the superblock of a disk image. */
  function HostSuper(img: Image): Option<Superblock> {
    if |img| < (SUPER_LBA + 1) * SECTOR then None
    else
      var raw := SuperBytes(img);
      var sb := DecodeSuper(raw);
      if sb.magic != HOST_MAGIC || sb.version != 2 || sb.sectorSize != SECTOR || sb.rootInode != ROOT_INODE then None
      else if sb.checksum != Crc(raw[..40]) then None
      else if sb.totalSectors == 0 || sb.bitmapLba < SUPER_LBA + 1 || sb.inodeLba <= sb.bitmapLba
              || sb.entryLba < sb.inodeLba then None
      else if (sb.entryLba + sb.entrySectors) * SECTOR > sb.totalSectors * SECTOR || sb.inodeSectors == 0 then None
      else Some(sb)
  }

  lemma TotalFits(raw: seq<byte>)
    requires |raw| == SUPER_SIZE
    ensures DecodeSuper(raw).totalSectors < B32
  {
  }

  /** The host accepts the superblocks that the kernel accepts, except those with other bytes behind the
      five letters of the magic or with a table region that runs past the volume. */
  lemma HostSuperIsKernels(img: Image)
    ensures HostSuper(img) ==
            match LoadSuper(img)
            case None => None
            case Some(sb) => if sb.magic == HOST_MAGIC && sb.entryLba + sb.entrySectors <= sb.totalSectors
                             then Some(sb) else None
  {
    hide DecodeSuper;
    hide Crc;
    if |img| >= (SUPER_LBA + 1) * SECTOR {
      TotalFits(SuperBytes(img));
      assert HOST_MAGIC[..5] == MAGIC;
    }
  }

  function InodesIn(data: seq<byte>): seq<Inode> {
    seq(|data| / INODE_SIZE,
        i requires 0 <= i < |data| / INODE_SIZE => DecodeInode(data[i * INODE_SIZE..i * INODE_SIZE + INODE_SIZE]))
  }

  function EntriesIn(data: seq<byte>): seq<Dentry> {
    seq(|data| / DENTRY_SIZE,
        j requires 0 <= j < |data| / DENTRY_SIZE => DecodeDentry(data[j * DENTRY_SIZE..j * DENTRY_SIZE + DENTRY_SIZE]))
  }

  /** The two tables as the host slices them out of the image. */
  function HostTables(img: Image, sb: Superblock): Volume {
    Volume(InodesIn(InodeData(img, sb)), EntriesIn(EntryData(img, sb)))
  }

  lemma InodeSlice(img: Image, sb: Superblock, i: nat)
    requires Layout(img, sb) && i < InodeCount(sb)
    ensures var data := Slice(img, sb.inodeLba * SECTOR, (sb.inodeLba + sb.inodeSectors) * SECTOR);
            && |data| == sb.inodeSectors * SECTOR
            && i * INODE_SIZE + INODE_SIZE <= |data|
            && DecodeInode(data[i * INODE_SIZE..i * INODE_SIZE + INODE_SIZE]) == InodeAt(img, sb, i + 1)
  {
    hide DecodeInode;
    InodeInside(img, sb, i + 1);
    var lo := sb.inodeLba * SECTOR;
    SliceOfSlice(img, lo, lo + sb.inodeSectors * SECTOR, i * INODE_SIZE, i * INODE_SIZE + INODE_SIZE);
  }

  lemma EntrySlice(img: Image, sb: Superblock, j: nat)
    requires Layout(img, sb) && j < EntryCount(sb)
    ensures var data := Slice(img, sb.entryLba * SECTOR, (sb.entryLba + sb.entrySectors) * SECTOR);
            && |data| == sb.entrySectors * SECTOR
            && j * DENTRY_SIZE + DENTRY_SIZE <= |data|
            && DecodeDentry(data[j * DENTRY_SIZE..j * DENTRY_SIZE + DENTRY_SIZE]) == EntryAt(img, sb, j)
  {
    hide DecodeDentry;
    EntryInside(img, sb, j);
    var lo := sb.entryLba * SECTOR;
    SliceOfSlice(img, lo, lo + sb.entrySectors * SECTOR, j * DENTRY_SIZE, j * DENTRY_SIZE + DENTRY_SIZE);
  }

  lemma SlicesSized(img: Image, sb: Superblock)
    requires Layout(img, sb)
    ensures |Slice(img, sb.inodeLba * SECTOR, (sb.inodeLba + sb.inodeSectors) * SECTOR)| == sb.inodeSectors * SECTOR
    ensures |Slice(img, sb.entryLba * SECTOR, (sb.entryLba + sb.entrySectors) * SECTOR)| == sb.entrySectors * SECTOR
  {
  }

  function InodeData(img: Image, sb: Superblock): seq<byte> {
    Slice(img, sb.inodeLba * SECTOR, (sb.inodeLba + sb.inodeSectors) * SECTOR)
  }

  function EntryData(img: Image, sb: Superblock): seq<byte> {
    Slice(img, sb.entryLba * SECTOR, (sb.entryLba + sb.entrySectors) * SECTOR)
  }

  lemma InodesMatch(img: Image, sb: Superblock, i: nat)
    requires Layout(img, sb) && i < InodeCount(sb)
    ensures |InodesIn(InodeData(img, sb))| == InodeCount(sb)
            && InodesIn(InodeData(img, sb))[i] == InodeAt(img, sb, i + 1)
  {
    hide Slice;
    hide Layout;
    hide InodeAt;
    hide DecodeInode;
    SlicesSized(img, sb);
    InodeSlice(img, sb, i);
  }

  lemma EntriesMatch(img: Image, sb: Superblock, j: nat)
    requires Layout(img, sb) && j < EntryCount(sb)
    ensures |EntriesIn(EntryData(img, sb))| == EntryCount(sb) && EntriesIn(EntryData(img, sb))[j] == EntryAt(img, sb, j)
  {
    hide Slice;
    hide Layout;
    hide EntryAt;
    hide DecodeDentry;
    SlicesSized(img, sb);
    EntrySlice(img, sb, j);
  }

  lemma CountsMatch(img: Image, sb: Superblock)
    requires Layout(img, sb)
    ensures |InodesIn(InodeData(img, sb))| == InodeCount(sb) && |EntriesIn(EntryData(img, sb))| == EntryCount(sb)
  {
    hide Slice;
    hide Layout;
    hide DecodeInode;
    hide DecodeDentry;
    SlicesSized(img, sb);
  }

  /** The host reads the same tables as the kernel. */
  lemma HostTablesAreView(img: Image, sb: Superblock)
    requires Layout(img, sb)
    ensures HostTables(img, sb) == View(img, sb)
  {
    hide Layout;
    hide InodeAt;
    hide EntryAt;
    hide View;
    hide InodesIn;
    hide EntriesIn;
    hide InodeCount;
    hide EntryCount;
    hide InodeData;
    hide EntryData;
    var v := HostTables(img, sb);
    CountsMatch(img, sb);
    forall i | 0 <= i < InodeCount(sb)
      ensures v.inodes[i] == InodeAt(img, sb, i + 1)
    {
      InodesMatch(img, sb, i);
    }
    forall j | 0 <= j < EntryCount(sb)
      ensures v.entries[j] == EntryAt(img, sb, j)
    {
      EntriesMatch(img, sb, j);
    }
    ViewIs(img, sb, v);
  }

  /** The inode dictionary: the last slot with that number wins. */
  function Recorded(inodes: seq<Inode>, n: nat): Option<Inode> {
    if inodes == [] || n == 0 then None
    else if inodes[|inodes| - 1].inode == n then Some(inodes[|inodes| - 1])
    else Recorded(inodes[..|inodes| - 1], n)
  }

  lemma {:induction false} RecordedIs(v: Volume, k: nat, n: nat)
    requires WellFormed(v) && k <= |v.inodes| && 1 <= n
    ensures Recorded(v.inodes[..k], n) == if n <= k && Live(v, n) then Some(v.inodes[n - 1]) else None
  {
    if k > 0 {
      assert v.inodes[..k][..k - 1] == v.inodes[..k - 1];
      assert SlotOk(v, k - 1);
      RecordedIs(v, k - 1, n);
    }
  }

  lemma LiveRecorded(v: Volume, n: nat)
    requires WellFormed(v) && Live(v, n)
    ensures Recorded(v.inodes, n) == Some(v.inodes[n - 1])
  {
    RecordedIs(v, |v.inodes|, n);
    assert v.inodes[..|v.inodes|] == v.inodes;
    hide WellFormed;
    hide Recorded;
  }

  // ---------------------------------------------------------------------------------------------
  // parse_volume
  // ---------------------------------------------------------------------------------------------

  function FileBytes(img: Image, r: Inode): seq<byte> {
    Slice(img, r.firstSector * SECTOR, r.firstSector * SECTOR + r.size)
  }

  /** The result dictionary from the first `n` paths. */
  function Collect(img: Image, inodes: seq<Inode>, paths: Dict, n: nat): map<Text, seq<byte>>
    requires n <= |paths.keys| && KeysOk(paths)
  {
    if n == 0 then map[]
    else
      var before, key := Collect(img, inodes, paths, n - 1), paths.keys[n - 1];
      match Recorded(inodes, key)
      case None => before
      case Some(r) => if r.kind == KIND_FILE then before[paths.at[key] := FileBytes(img, r)] else before
  }

  /** `parse_volume` */
  function ParseVolume(img: Image): Option<map<Text, seq<byte>>> {
    match HostSuper(img)
    case None => None
    case Some(sb) =>
      var v := HostTables(img, sb);
      match PathsOf(v)
      case None => None
      case Some(paths) =>
        PathsKeys(v);
        Some(Collect(img, v.inodes, paths, |paths.keys|))
  }

  /** `parse_volume` as it runs. */
  method ReadFiles(img: Image) returns (result: Option<map<Text, seq<byte>>>)
    ensures result == ParseVolume(img)
  {
    hide HostSuper;
    hide HostTables;
    hide PathsOf;
    hide Recorded;
    hide FileBytes;
    var super := HostSuper(img);
    if super == None { return None; }
    var v := HostTables(img, super.value);
    var ok, paths := FindPaths(v.entries);
    SameEntries(v);
    if !ok { return None; }
    PathsKeys(v);
    var files: map<Text, seq<byte>> := map[];
    for n := 0 to |paths.keys|
      invariant files == Collect(img, v.inodes, paths, n)
    {
      var values := Recorded(v.inodes, paths.keys[n]);
      if values.Some? && values.value.kind == KIND_FILE {
        files := files[paths.at[paths.keys[n]] := FileBytes(img, values.value)];
      }
    }
    result := Some(files);
  }

  lemma SameEntries(v: Volume)
    ensures PathsOf(Volume([], v.entries)) == PathsOf(v)
  {
  }

  /** The files of a tree by host path. */
  ghost predicate HoldsFiles(img: Image, v: Volume, files: map<Text, seq<byte>>) {
    && (forall p :: IsFile(v, p) ==>
          HostText(p) in files && files[HostText(p)] == FileBytes(img, v.inodes[Resolve(v, ROOT_INODE, p).value - 1]))
    && (forall t :: t in files ==> exists p :: IsFile(v, p) && t == HostText(p))
  }

  predicate IsFile(v: Volume, p: seq<Name>) {
    match Resolve(v, ROOT_INODE, p)
    case None => false
    case Some(n) => Live(v, n) && v.inodes[n - 1].kind == KIND_FILE
  }

  /** After the first `n` paths the dictionary holds the files among them. */
  ghost predicate CollectedTo(img: Image, v: Volume, paths: Dict, n: nat, files: map<Text, seq<byte>>)
    requires n <= |paths.keys| && KeysOk(paths)
  {
    && (forall i :: 0 <= i < n && FileKey(v, paths.keys[i]) ==>
          paths.at[paths.keys[i]] in files
          && files[paths.at[paths.keys[i]]] == FileBytes(img, v.inodes[paths.keys[i] - 1]))
    && (forall t :: t in files ==> exists i :: 0 <= i < n && FileKey(v, paths.keys[i]) && t == paths.at[paths.keys[i]])
  }

  predicate FileKey(v: Volume, n: nat) { Live(v, n) && v.inodes[n - 1].kind == KIND_FILE }

  lemma {:induction false} CollectOk(img: Image, v: Volume, paths: Dict, n: nat)
    requires WellFormed(v) && PathsRight(v, paths) && Injective(paths) && n <= |paths.keys|
    ensures CollectedTo(img, v, paths, n, Collect(img, v.inodes, paths, n))
  {
    hide FileBytes;
    hide WellFormed;
    hide Recorded;
    hide PathsRight;
    hide Injective;
    hide CollectedTo;
    RightKeys(v, paths);
    if n > 0 {
      CollectOk(img, v, paths, n - 1);
      LiveRecorded(v, paths.keys[n - 1]);
      CollectStep(img, v, paths, n, Collect(img, v.inodes, paths, n - 1));
    } else {
      CollectNothing(img, v, paths);
    }
  }

  lemma RightKeys(v: Volume, paths: Dict)
    requires PathsRight(v, paths)
    ensures KeysOk(paths) && forall i :: 0 <= i < |paths.keys| ==> Live(v, paths.keys[i])
  {
    hide PathOf;
    hide Live;
  }

  lemma CollectNothing(img: Image, v: Volume, paths: Dict)
    requires KeysOk(paths)
    ensures CollectedTo(img, v, paths, 0, map[])
  {
  }

  /** One more path; paths of different inodes differ. */
  lemma CollectStep(img: Image, v: Volume, paths: Dict, n: nat, before: map<Text, seq<byte>>)
    requires KeysOk(paths) && Injective(paths) && 0 < n <= |paths.keys| && CollectedTo(img, v, paths, n - 1, before)
    requires Live(v, paths.keys[n - 1])
    ensures var key := paths.keys[n - 1];
            CollectedTo(img, v, paths, n,
                        if FileKey(v, key) then before[paths.at[key] := FileBytes(img, v.inodes[key - 1])] else before)
  {
    hide FileBytes;
    hide Live;
  }

  /** The host's parse of a well-formed volume with ASCII names: exactly the files, under their paths. */
  lemma ParseOk(img: Image, sb: Superblock, v: Volume)
    requires HostSuper(img) == Some(sb) && HostTables(img, sb) == v && WellFormed(v) && AsciiVolume(v)
    ensures ParseVolume(img).Some? && HoldsFiles(img, v, ParseVolume(img).value)
  {
    hide HostSuper;
    hide HostTables;
    hide WellFormed;
    hide AsciiVolume;
    hide FileBytes;
    PathsOfOk(v);
    var paths := PathsOf(v).value;
    PathsFind(v, paths, []);
    hide PathsOf;
    hide Injective;
    CollectOk(img, v, paths, |paths.keys|);
    var files := ParseVolume(img).value;
    hide Collect;
    CollectedAll(img, v, paths, files);
  }

  lemma CollectedAll(img: Image, v: Volume, paths: Dict, files: map<Text, seq<byte>>)
    requires WellFormed(v) && PathsRight(v, paths) && CollectedTo(img, v, paths, |paths.keys|, files)
    ensures HoldsFiles(img, v, files)
  {
    hide FileBytes;
    hide WellFormed;
    hide PathsRight;
    hide CollectedTo;
    hide Resolve;
    hide HostText;
    forall p | IsFile(v, p)
      ensures HostText(p) in files
              && files[HostText(p)] == FileBytes(img, v.inodes[Resolve(v, ROOT_INODE, p).value - 1])
    {
      FileCollected(img, v, paths, files, p);
    }
    forall t | t in files
      ensures exists p :: IsFile(v, p) && t == HostText(p)
    {
      var p := CollectedFile(img, v, paths, files, t);
    }
  }

  lemma FileCollected(img: Image, v: Volume, paths: Dict, files: map<Text, seq<byte>>, p: seq<Name>)
    requires WellFormed(v) && PathsRight(v, paths) && CollectedTo(img, v, paths, |paths.keys|, files) && IsFile(v, p)
    ensures HostText(p) in files && files[HostText(p)] == FileBytes(img, v.inodes[Resolve(v, ROOT_INODE, p).value - 1])
  {
    hide FileBytes;
    hide WellFormed;
    hide Resolve;
    hide HostText;
    hide PathOf;
    hide Injective;
    var n := Resolve(v, ROOT_INODE, p).value;
    ResolvedPieces(v, p);
    PathsFind(v, paths, p);
    assert n in paths.keys;
    var i :| 0 <= i < |paths.keys| && paths.keys[i] == n;
  }

  lemma CollectedFile(img: Image, v: Volume, paths: Dict, files: map<Text, seq<byte>>, t: Text) returns (p: seq<Name>)
    requires PathsRight(v, paths) && CollectedTo(img, v, paths, |paths.keys|, files) && t in files
    ensures IsFile(v, p) && t == HostText(p)
  {
    hide FileBytes;
    hide Resolve;
    hide HostText;
    var i :| 0 <= i < |paths.keys| && FileKey(v, paths.keys[i]) && t == paths.at[paths.keys[i]];
    assert PathOf(v, paths.keys[i], t);
    p :| Resolve(v, ROOT_INODE, p) == Some(paths.keys[i]) && t == HostText(p);
  }

  lemma LookupNone(img: Image, sb: Superblock, p: seq<Name>)
    requires Layout(img, sb) && Resolve(View(img, sb), ROOT_INODE, p) == None
    ensures Lookup(img, sb, p) == None
  {
    hide Layout;
    hide View;
    hide Resolve;
  }

  /** The host's parse of a sound disk. */
  lemma ParseSound(img: Image, sb: Superblock)
    requires Sound(img, sb) && sb.magic == HOST_MAGIC && AsciiVolume(View(img, sb))
    ensures ParseVolume(img).Some? && HoldsFiles(img, View(img, sb), ParseVolume(img).value)
  {
    hide View;
    hide LoadSuper;
    hide Layout;
    hide WellFormed;
    hide ExtentsOk;
    hide ParseVolume;
    hide AsciiVolume;
    hide HostTables;
    hide HostSuper;
    hide HoldsFiles;
    HostSuperIsKernels(img);
    TablesInside(img, sb);
    HostTablesAreView(img, sb);
    ParseOk(img, sb, View(img, sb));
  }

  /** What the look-up finds at the end of a path. */
  lemma FoundIs(img: Image, sb: Superblock, p: seq<Name>)
    requires Sound(img, sb) && Resolve(View(img, sb), ROOT_INODE, p).Some?
    ensures var v, n := View(img, sb), Resolve(View(img, sb), ROOT_INODE, p).value;
            && Live(v, n) && Lookup(img, sb, p) == Some(NodeOf(img, v.inodes[n - 1]))
            && (v.inodes[n - 1].kind == KIND_FILE ==> FileBytes(img, v.inodes[n - 1]) == Contents(img, v.inodes[n - 1]))
  {
    hide View;
    hide LoadSuper;
    hide Layout;
    hide WellFormed;
    hide Resolve;
    hide Lookup;
    hide NodeOf;
    hide FileBytes;
    hide Contents;
    hide ExtentOk;
    var v, n := View(img, sb), Resolve(View(img, sb), ROOT_INODE, p).value;
    ResolveLive(v, p);
    LookupIs(img, sb, p, n);
    FileBytesAre(img, sb, v.inodes[n - 1]);
  }

  /** On a sound disk the host's parse agrees with the kernel's look-up on every path. */
  lemma ParseIsLookup(img: Image, sb: Superblock, p: seq<Name>)
    requires Sound(img, sb) && sb.magic == HOST_MAGIC && AsciiVolume(View(img, sb)) && PathPieces(p)
    ensures ParseVolume(img).Some?
    ensures var files := ParseVolume(img).value;
            match Lookup(img, sb, p)
            case None => HostText(p) !in files
            case Some(node) =>
              if node.record.kind == KIND_FILE then HostText(p) in files && files[HostText(p)] == node.bytes
              else HostText(p) !in files
  {
    hide View;
    hide LoadSuper;
    hide Layout;
    hide WellFormed;
    hide ExtentsOk;
    hide ParseVolume;
    hide HostText;
    hide Resolve;
    hide AsciiVolume;
    hide FileBytes;
    hide Contents;
    hide Lookup;
    hide PathPieces;
    var v := View(img, sb);
    ParseSound(img, sb);
    var files := ParseVolume(img).value;
    if HostText(p) in files { OnlyFile(img, v, files, p); }
    if Resolve(v, ROOT_INODE, p).Some? {
      FoundIs(img, sb, p);
    } else {
      LookupNone(img, sb, p);
    }
  }

  lemma TablesInside(img: Image, sb: Superblock)
    requires Layout(img, sb)
    ensures sb.entryLba + sb.entrySectors <= sb.totalSectors
  {
  }

  /** A text in the host's dictionary is the path of a file. */
  lemma OnlyFile(img: Image, v: Volume, files: map<Text, seq<byte>>, p: seq<Name>)
    requires WellFormed(v) && HoldsFiles(img, v, files) && PathPieces(p) && HostText(p) in files
    ensures IsFile(v, p)
  {
    hide FileBytes;
    hide HostText;
    hide Resolve;
    hide WellFormed;
    var q :| IsFile(v, q) && HostText(p) == HostText(q);
    ResolvedPieces(v, q);
    HostTextInjective(p, q);
  }

  lemma FileBytesAre(img: Image, sb: Superblock, r: Inode)
    requires Layout(img, sb) && ExtentOk(sb, r)
    ensures r.kind == KIND_FILE ==> FileBytes(img, r) == Contents(img, r)
  {
    if r.kind == KIND_FILE && r.size == 0 { EmptyContents(img, r); }
    if r.kind == KIND_FILE && r.size > 0 {
      assert r.firstSector * SECTOR + r.size <= sb.totalSectors * SECTOR;
    }
  }
}
