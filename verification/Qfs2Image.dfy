/** QFS v2 on a flat byte image: superblock, the two tables, file contents, and node creation. */
module Qfs2Image {
  import opened Bytes
  import opened Options
  import opened Crc32
  import opened Qfs2Format
  import opened Qfs2Volume
  import opened Qfs2Path

  type Image = seq<byte>

  function SuperBytes(img: Image): seq<byte>
    requires (SUPER_LBA + 1) * SECTOR <= |img|
  {
    img[SUPER_LBA * SECTOR..SUPER_LBA * SECTOR + SUPER_SIZE]
  }

  /** The checks of `load_super`; sums of sector numbers are 32-bit. */
  predicate SuperOk(sb: Superblock, raw: seq<byte>)
    requires |raw| == SUPER_SIZE
  {
    && MAGIC <= sb.magic && sb.version == 2 && sb.sectorSize == SECTOR && sb.rootInode == ROOT_INODE
    && sb.totalSectors != 0 && sb.bitmapLba >= SUPER_LBA + 1 && sb.inodeLba > sb.bitmapLba
    && sb.inodeSectors != 0 && sb.entryLba >= sb.inodeLba
    && (sb.entryLba + sb.entrySectors) % B32 <= sb.totalSectors
    && sb.checksum == Crc(raw[..40])
  }

  /** `load_super` */
  function LoadSuper(img: Image): Option<Superblock> {
    if |img| < (SUPER_LBA + 1) * SECTOR then None
    else
      var sb := DecodeSuper(SuperBytes(img));
      if SuperOk(sb, SuperBytes(img)) then Some(sb) else None
  }

  /** No change within four consecutive bytes of the checked part of a superblock that loads gives
      one that loads. */
  lemma SuperCorruptionRejected(img: Image, corrupt: Image, at: nat)
    requires |img| == |corrupt| && LoadSuper(img).Some?
    requires SuperBytes(img)[..44] != SuperBytes(corrupt)[..44]
    requires forall i :: 0 <= i < 44 && !(at <= i < at + 4) ==> SuperBytes(img)[i] == SuperBytes(corrupt)[i]
    ensures LoadSuper(corrupt) == None
  {
    var a, b := SuperBytes(img)[..44], SuperBytes(corrupt)[..44];
    assert a[..40] == SuperBytes(img)[..40] && a[40..] == SuperBytes(img)[40..44];
    assert b[..40] == SuperBytes(corrupt)[..40] && b[40..] == SuperBytes(corrupt)[40..44];
    SealBreaks(a, b, at);
  }

  function InodeCount(sb: Superblock): nat { sb.inodeSectors * SECTOR / INODE_SIZE }
  function EntryCount(sb: Superblock): nat { sb.entrySectors * SECTOR / DENTRY_SIZE }
  function InodeOffset(sb: Superblock, n: nat): nat
    requires n >= 1
  {
    sb.inodeLba * SECTOR + (n - 1) * INODE_SIZE
  }
  function EntryOffset(sb: Superblock, j: nat): nat { sb.entryLba * SECTOR + j * DENTRY_SIZE }
  function DataStart(sb: Superblock): nat { (sb.entryLba + sb.entrySectors) * SECTOR }

  /** What `load_super` leaves unchecked: the regions are disjoint, lie on the device, and byte
      offsets of entries fit 32 bits. */
  predicate Layout(img: Image, sb: Superblock) {
    && SUPER_LBA + 1 < sb.inodeLba
    && sb.inodeLba + sb.inodeSectors <= sb.entryLba
    && sb.entryLba + sb.entrySectors <= sb.totalSectors < B32
    && sb.entryLba < 0x80_0000 && sb.entrySectors < 0x80_0000
    && sb.totalSectors * SECTOR <= |img|
  }

  lemma InodeInside(img: Image, sb: Superblock, n: nat)
    requires Layout(img, sb) && 1 <= n <= InodeCount(sb)
    ensures (SUPER_LBA + 1) * SECTOR <= InodeOffset(sb, n)
    ensures InodeOffset(sb, n) + INODE_SIZE <= sb.entryLba * SECTOR <= sb.totalSectors * SECTOR <= |img|
  {
    assert n * INODE_SIZE <= sb.inodeSectors * SECTOR;
  }

  lemma EntryInside(img: Image, sb: Superblock, j: nat)
    requires Layout(img, sb) && j < EntryCount(sb)
    ensures (SUPER_LBA + 1) * SECTOR <= sb.entryLba * SECTOR <= EntryOffset(sb, j)
    ensures EntryOffset(sb, j) + DENTRY_SIZE <= DataStart(sb) <= sb.totalSectors * SECTOR <= |img|
  {
    assert (j + 1) * DENTRY_SIZE <= sb.entrySectors * SECTOR;
  }

  function InodeAt(img: Image, sb: Superblock, n: nat): (r: Inode)
    requires Layout(img, sb) && 1 <= n <= InodeCount(sb)
    ensures InodeFits(r)
  {
    InodeInside(img, sb, n);
    DecodeInode(img[InodeOffset(sb, n)..InodeOffset(sb, n) + INODE_SIZE])
  }

  function EntryAt(img: Image, sb: Superblock, j: nat): (r: Dentry)
    requires Layout(img, sb) && j < EntryCount(sb)
    ensures DentryFits(r)
  {
    EntryInside(img, sb, j);
    DecodeDentry(img[EntryOffset(sb, j)..EntryOffset(sb, j) + DENTRY_SIZE])
  }

  /** The volume an image holds. */
  function View(img: Image, sb: Superblock): (v: Volume)
    requires Layout(img, sb)
    ensures |v.inodes| == InodeCount(sb) && |v.entries| == EntryCount(sb)
  {
    Volume(seq(InodeCount(sb), i requires 0 <= i < InodeCount(sb) => InodeAt(img, sb, i + 1)),
           seq(EntryCount(sb), j requires 0 <= j < EntryCount(sb) => EntryAt(img, sb, j)))
  }

  lemma ViewInode(img: Image, sb: Superblock, n: nat)
    requires Layout(img, sb) && 1 <= n <= InodeCount(sb)
    ensures View(img, sb).inodes[n - 1] == InodeAt(img, sb, n)
  {
    hide InodeAt;
    hide EntryAt;
    hide Layout;
  }

  lemma ViewEntry(img: Image, sb: Superblock, j: nat)
    requires Layout(img, sb) && j < EntryCount(sb)
    ensures View(img, sb).entries[j] == EntryAt(img, sb, j)
  {
    hide InodeAt;
    hide EntryAt;
    hide Layout;
  }

  /** A view is determined by its records. */
  lemma ViewIs(img: Image, sb: Superblock, v: Volume)
    requires Layout(img, sb)
    requires |v.inodes| == InodeCount(sb) && |v.entries| == EntryCount(sb)
    requires forall i :: 0 <= i < InodeCount(sb) ==> v.inodes[i] == InodeAt(img, sb, i + 1)
    requires forall j :: 0 <= j < EntryCount(sb) ==> v.entries[j] == EntryAt(img, sb, j)
    ensures View(img, sb) == v
  {
    hide InodeAt;
    hide EntryAt;
    hide Layout;
    hide View;
    var w := View(img, sb);
    forall i | 0 <= i < InodeCount(sb)
      ensures w.inodes[i] == v.inodes[i]
    {
      ViewInode(img, sb, i + 1);
    }
    forall j | 0 <= j < EntryCount(sb)
      ensures w.entries[j] == v.entries[j]
    {
      ViewEntry(img, sb, j);
    }
    assert w.inodes == v.inodes && w.entries == v.entries;
  }

  /** A file's bytes lie in the data area. */
  predicate ExtentOk(sb: Superblock, n: Inode) {
    n.kind == KIND_FILE && n.size > 0 ==>
      && DataStart(sb) <= n.firstSector * SECTOR
      && n.sectors != 0 && n.firstSector + n.sectors <= sb.totalSectors
      && n.size <= n.sectors * SECTOR
  }

  ghost predicate ExtentsOk(v: Volume, sb: Superblock) {
    forall n :: Live(v, n) ==> ExtentOk(sb, v.inodes[n - 1])
  }

  /** An image that holds a well-formed volume. */
  ghost predicate Sound(img: Image, sb: Superblock) {
    LoadSuper(img) == Some(sb) && Layout(img, sb) && WellFormed(View(img, sb)) && ExtentsOk(View(img, sb), sb)
  }

  /** The bytes of a file. */
  function Contents(img: Image, n: Inode): seq<byte> {
    if n.firstSector * SECTOR + n.size <= |img| then img[n.firstSector * SECTOR..n.firstSector * SECTOR + n.size]
    else []
  }

  // ---------------------------------------------------------------------------------------------
  // Writing one record
  // ---------------------------------------------------------------------------------------------

  /** Images that agree on the superblock sector load the same superblock. */
  lemma SameSuper(a: Image, b: Image)
    requires |a| == |b|
    requires (SUPER_LBA + 1) * SECTOR <= |a| ==>
               a[SUPER_LBA * SECTOR..(SUPER_LBA + 1) * SECTOR] == b[SUPER_LBA * SECTOR..(SUPER_LBA + 1) * SECTOR]
    ensures LoadSuper(a) == LoadSuper(b)
  {
    if (SUPER_LBA + 1) * SECTOR <= |a| {
      var x, y := a[SUPER_LBA * SECTOR..(SUPER_LBA + 1) * SECTOR], b[SUPER_LBA * SECTOR..(SUPER_LBA + 1) * SECTOR];
      assert SuperBytes(a) == x[..SUPER_SIZE] == y[..SUPER_SIZE] == SuperBytes(b);
    }
  }

  /** Images of equal length that agree from `start` on. */
  predicate SameFrom(a: Image, b: Image, start: nat) {
    |a| == |b| && start <= |a| && a[start..] == b[start..]
  }

  lemma SameSlice(a: Image, b: Image, start: nat, lo: nat, hi: nat)
    requires SameFrom(a, b, start) && start <= lo <= hi <= |a|
    ensures a[lo..hi] == b[lo..hi]
  {
    forall i | lo <= i < hi
      ensures a[i] == b[i]
    {
      assert a[start..][i - start] == a[i] && b[start..][i - start] == b[i];
    }
  }

  lemma InodesApart(sb: Superblock, m: nat, n: nat)
    requires 1 <= m < n
    ensures InodeOffset(sb, m) + INODE_SIZE <= InodeOffset(sb, n)
  {
  }

  lemma EntriesApart(sb: Superblock, j: nat, k: nat)
    requires j < k
    ensures EntryOffset(sb, j) + DENTRY_SIZE <= EntryOffset(sb, k)
  {
  }

  lemma InodeAfterInode(img: Image, sb: Superblock, n: nat, x: Inode, m: nat)
    requires Layout(img, sb) && 1 <= n <= InodeCount(sb) && InodeFits(x) && 1 <= m <= InodeCount(sb)
    requires InodeOffset(sb, n) + INODE_SIZE <= |img|
    requires Layout(Splice(img, InodeOffset(sb, n), EncodeInode(x)), sb)
    ensures InodeAt(Splice(img, InodeOffset(sb, n), EncodeInode(x)), sb, m) == if m == n then x else InodeAt(img, sb, m)
  {
    hide EncodeInode;
    hide DecodeInode;
    hide Layout;
    hide InodeOffset;
    hide Splice;
    hide InodeFits;
    InodeInside(img, sb, m);
    InodeRoundTrip(x);
    var at, data := InodeOffset(sb, n), EncodeInode(x);
    if m < n {
      InodesApart(sb, m, n);
    } else if n < m {
      InodesApart(sb, n, m);
    }
    if m == n {
      SpliceAt(img, at, data);
    } else {
      SpliceElsewhere(img, at, data, InodeOffset(sb, m), InodeOffset(sb, m) + INODE_SIZE);
    }
  }

  lemma EntryAfterEntry(img: Image, sb: Superblock, j: nat, x: Dentry, k: nat)
    requires Layout(img, sb) && j < EntryCount(sb) && DentryFits(x) && k < EntryCount(sb)
    requires EntryOffset(sb, j) + DENTRY_SIZE <= |img|
    requires Layout(Splice(img, EntryOffset(sb, j), EncodeDentry(x)), sb)
    ensures EntryAt(Splice(img, EntryOffset(sb, j), EncodeDentry(x)), sb, k) == if k == j then x
                                                                                else EntryAt(img, sb, k)
  {
    hide EncodeDentry;
    hide DecodeDentry;
    hide Layout;
    hide EntryOffset;
    hide Splice;
    hide DentryFits;
    EntryInside(img, sb, k);
    DentryRoundTrip(x);
    var at, data := EntryOffset(sb, j), EncodeDentry(x);
    if k < j {
      EntriesApart(sb, k, j);
    } else if j < k {
      EntriesApart(sb, j, k);
    }
    if k == j {
      SpliceAt(img, at, data);
    } else {
      SpliceElsewhere(img, at, data, EntryOffset(sb, k), EntryOffset(sb, k) + DENTRY_SIZE);
    }
  }

  /** A splice outside the superblock leaves the superblock and the layout alone. */
  lemma SpliceKeepsSuper(img: Image, sb: Superblock, at: nat, data: seq<byte>)
    requires LoadSuper(img) == Some(sb) && Layout(img, sb)
    requires (SUPER_LBA + 1) * SECTOR <= at && at + |data| <= |img|
    ensures LoadSuper(Splice(img, at, data)) == Some(sb) && Layout(Splice(img, at, data), sb)
    ensures SameFrom(img, Splice(img, at, data), at + |data|)
  {
    SpliceElsewhere(img, at, data, SUPER_LBA * SECTOR, (SUPER_LBA + 1) * SECTOR);
    SpliceElsewhere(img, at, data, at + |data|, |img|);
    SameSuper(img, Splice(img, at, data));
    hide LoadSuper;
    var b := Splice(img, at, data);
    assert b[at + |data|..] == b[at + |data|..|img|];
    assert img[at + |data|..] == img[at + |data|..|img|];
  }

  lemma EntryAtSame(a: Image, b: Image, sb: Superblock, start: nat, k: nat)
    requires Layout(a, sb) && Layout(b, sb) && SameFrom(a, b, start) && start <= sb.entryLba * SECTOR
             && k < EntryCount(sb)
    ensures EntryAt(a, sb, k) == EntryAt(b, sb, k)
  {
    EntryInside(a, sb, k);
    SameSlice(a, b, start, EntryOffset(sb, k), EntryOffset(sb, k) + DENTRY_SIZE);
    hide DecodeDentry;
  }

  lemma InodeAtSame(img: Image, sb: Superblock, at: nat, data: seq<byte>, m: nat)
    requires Layout(img, sb) && sb.entryLba * SECTOR <= at && at + |data| <= |img| && 1 <= m <= InodeCount(sb)
    requires Layout(Splice(img, at, data), sb)
    ensures InodeAt(Splice(img, at, data), sb, m) == InodeAt(img, sb, m)
  {
    InodeInside(img, sb, m);
    SpliceElsewhere(img, at, data, InodeOffset(sb, m), InodeOffset(sb, m) + INODE_SIZE);
    hide DecodeInode;
  }

  /** Writing an inode record updates that slot of the view and nothing else. */
  lemma WriteInode(img: Image, sb: Superblock, n: nat, x: Inode)
    requires LoadSuper(img) == Some(sb) && Layout(img, sb) && 1 <= n <= InodeCount(sb) && InodeFits(x)
    ensures InodeOffset(sb, n) + INODE_SIZE <= |img|
    ensures var b := Splice(img, InodeOffset(sb, n), EncodeInode(x));
            && LoadSuper(b) == Some(sb) && Layout(b, sb)
            && View(b, sb) == View(img, sb).(inodes := View(img, sb).inodes[n - 1 := x])
            && SameFrom(img, b, sb.entryLba * SECTOR)
  {
    hide LoadSuper;
    hide InodeFits;
    hide DentryFits;
    hide InodeAt;
    hide EntryAt;
    hide View;
    InodeInside(img, sb, n);
    var at, data := InodeOffset(sb, n), EncodeInode(x);
    hide EncodeInode;
    hide InodeOffset;
    SpliceKeepsSuper(img, sb, at, data);
    var b := Splice(img, at, data);
    hide Splice;
    hide Layout;
    hide InodeCount;
    hide EntryCount;
    SameFromLater(img, b, at + |data|, sb.entryLba * SECTOR);
    hide SameFrom;
    hide InodeFits;
    hide DentryFits;
    hide InodeAt;
    hide EntryAt;
    hide View;
    var v := View(img, sb);
    var w := v.(inodes := v.inodes[n - 1 := x]);
    forall i | 0 <= i < InodeCount(sb)
      ensures w.inodes[i] == InodeAt(b, sb, i + 1)
    {
      InodeAfterInode(img, sb, n, x, i + 1);
      ViewInode(img, sb, i + 1);
    }
    forall j | 0 <= j < EntryCount(sb)
      ensures w.entries[j] == EntryAt(b, sb, j)
    {
      EntryAtSame(img, b, sb, sb.entryLba * SECTOR, j);
      ViewEntry(img, sb, j);
    }
    ViewIs(b, sb, w);
  }

  lemma SameFromLater(a: Image, b: Image, start: nat, later: nat)
    requires SameFrom(a, b, start) && start <= later <= |a|
    ensures SameFrom(a, b, later)
  {
    SameSlice(a, b, start, later, |a|);
    assert a[later..] == a[later..|a|] && b[later..] == b[later..|a|];
  }

  /** Writing a directory entry updates that entry of the view and nothing else. */
  lemma WriteEntry(img: Image, sb: Superblock, j: nat, x: Dentry)
    requires LoadSuper(img) == Some(sb) && Layout(img, sb) && j < EntryCount(sb) && DentryFits(x)
    ensures EntryOffset(sb, j) + DENTRY_SIZE <= |img|
    ensures var b := Splice(img, EntryOffset(sb, j), EncodeDentry(x));
            && LoadSuper(b) == Some(sb) && Layout(b, sb)
            && View(b, sb) == View(img, sb).(entries := View(img, sb).entries[j := x])
            && SameFrom(img, b, DataStart(sb))
  {
    hide LoadSuper;
    hide InodeFits;
    hide DentryFits;
    hide InodeAt;
    hide EntryAt;
    hide View;
    EntryInside(img, sb, j);
    var at, data := EntryOffset(sb, j), EncodeDentry(x);
    hide EncodeDentry;
    hide EntryOffset;
    SpliceKeepsSuper(img, sb, at, data);
    var b := Splice(img, at, data);
    SameFromLater(img, b, at + |data|, DataStart(sb));
    hide Layout;
    hide Splice;
    hide InodeCount;
    hide EntryCount;
    hide SameFrom;
    hide DataStart;
    hide InodeFits;
    hide DentryFits;
    hide InodeAt;
    hide EntryAt;
    hide View;
    var v := View(img, sb);
    var w := v.(entries := v.entries[j := x]);
    forall i | 0 <= i < InodeCount(sb)
      ensures w.inodes[i] == InodeAt(b, sb, i + 1)
    {
      InodeAtSame(img, sb, at, data, i + 1);
      ViewInode(img, sb, i + 1);
    }
    forall k | 0 <= k < EntryCount(sb)
      ensures w.entries[k] == EntryAt(b, sb, k)
    {
      EntryAfterEntry(img, sb, j, x, k);
      ViewEntry(img, sb, k);
    }
    ViewIs(b, sb, w);
  }

  // ---------------------------------------------------------------------------------------------
  // Creating a node
  // ---------------------------------------------------------------------------------------------

  /** The first free inode slot from number `n` on. */
  function FreeInode(v: Volume, n: nat): (r: Option<nat>)
    requires 1 <= n
    ensures r.Some? ==> n <= r.value <= |v.inodes| && v.inodes[r.value - 1].inode == 0
    ensures r.Some? ==> forall i :: n - 1 <= i < r.value - 1 ==> v.inodes[i].inode != 0
    ensures r == None ==> forall i :: n - 1 <= i < |v.inodes| ==> v.inodes[i].inode != 0
    decreases |v.inodes| + 1 - n
  {
    if n > |v.inodes| then None
    else if v.inodes[n - 1].inode == 0 then Some(n)
    else FreeInode(v, n + 1)
  }

  /** The first free directory entry from index `j` on. */
  function FreeEntry(v: Volume, j: nat): (r: Option<nat>)
    ensures r.Some? ==> j <= r.value < |v.entries| && v.entries[r.value].nameLength == 0
    ensures r.Some? ==> forall k :: j <= k < r.value ==> v.entries[k].nameLength != 0
    ensures r == None ==> forall k :: j <= k < |v.entries| ==> v.entries[k].nameLength != 0
    decreases |v.entries| - j
  {
    if j >= |v.entries| then None
    else if v.entries[j].nameLength == 0 then Some(j)
    else FreeEntry(v, j + 1)
  }

  /** Where a new node goes: parent, name, inode number and entry index. */
  datatype Place = Place(parent: nat, name: Name, inode: nat, entry: nat)

  /** The checks and choices that `create_node` makes before it writes. */
  function Choose(v: Volume, path: Text): (r: Option<Place>)
    ensures r.Some? ==> var p := r.value;
              && 1 <= p.parent <= |v.inodes| && |p.name| <= NAME_MAX
              && 2 <= p.inode <= |v.inodes| && p.entry < |v.entries|
              && v.inodes[p.inode - 1].inode == 0 && v.entries[p.entry].nameLength == 0
  {
    match Split(path)
    case None => None
    case Some((parentPath, name)) =>
      match FindPath(v, parentPath)
      case None => None
      case Some(parent) =>
        if !(1 <= parent <= |v.inodes|) || v.inodes[parent - 1].kind != KIND_DIRECTORY then None
        else if Child(v, parent, name).Some? then None
        else
          match FreeInode(v, 2)
          case None => None
          case Some(n) =>
            match FreeEntry(v, 0)
            case None => None
            case Some(j) => Some(Place(parent, name, n, j))
  }

  lemma RecordsFit(p: Place, kind: nat)
    requires kind in {KIND_FILE, KIND_DIRECTORY} && p.parent < B64 && p.inode < B64 && |p.name| <= NAME_MAX
    ensures InodeFits(NewInode(p.inode, kind)) && DentryFits(NewEntry(p.parent, p.inode, kind, p.name))
  {
  }

  lemma CountsFit(img: Image, sb: Superblock)
    requires Layout(img, sb)
    ensures InodeCount(sb) < B32 && EntryCount(sb) < B32
  {
  }

  /** The two record writes of `create_node`. */
  function Written(img: Image, sb: Superblock, p: Place, kind: nat): (r: Image)
    requires LoadSuper(img) == Some(sb) && Layout(img, sb) && kind in {KIND_FILE, KIND_DIRECTORY}
    requires 1 <= p.parent <= InodeCount(sb) && 1 <= p.inode <= InodeCount(sb) && p.entry < EntryCount(sb)
             && |p.name| <= NAME_MAX
  {
    CountsFit(img, sb);
    RecordsFit(p, kind);
    WriteInode(img, sb, p.inode, NewInode(p.inode, kind));
    var a := Splice(img, InodeOffset(sb, p.inode), EncodeInode(NewInode(p.inode, kind)));
    WriteEntry(a, sb, p.entry, NewEntry(p.parent, p.inode, kind, p.name));
    Splice(a, EntryOffset(sb, p.entry), EncodeDentry(NewEntry(p.parent, p.inode, kind, p.name)))
  }

  /** `create_node` on a device that does not fail: the new image, or `None` when it returns -1. */
  function Create(img: Image, path: Text, kind: nat): Option<Image>
    requires LoadSuper(img).Some? ==> Layout(img, LoadSuper(img).value)
    requires kind in {KIND_FILE, KIND_DIRECTORY}
  {
    match LoadSuper(img)
    case None => None
    case Some(sb) =>
      match Choose(View(img, sb), path)
      case None => None
      case Some(p) => Some(Written(img, sb, p, kind))
  }

  /** The two writes add one node to the volume and touch nothing outside the tables. */
  lemma WrittenView(img: Image, sb: Superblock, p: Place, kind: nat)
    requires LoadSuper(img) == Some(sb) && Layout(img, sb) && kind in {KIND_FILE, KIND_DIRECTORY}
    requires 1 <= p.parent <= InodeCount(sb) && 1 <= p.inode <= InodeCount(sb) && p.entry < EntryCount(sb)
             && |p.name| <= NAME_MAX
    ensures var b := Written(img, sb, p, kind);
            && |b| == |img|
            && LoadSuper(b) == Some(sb) && Layout(b, sb)
            && View(b, sb) == Add(View(img, sb), p.parent, p.name, kind, p.inode, p.entry)
            && SameFrom(img, b, DataStart(sb))
  {
    CountsFit(img, sb);
    RecordsFit(p, kind);
    hide LoadSuper;
    WriteInode(img, sb, p.inode, NewInode(p.inode, kind));
    var a := Splice(img, InodeOffset(sb, p.inode), EncodeInode(NewInode(p.inode, kind)));
    WriteEntry(a, sb, p.entry, NewEntry(p.parent, p.inode, kind, p.name));
    var b := Written(img, sb, p, kind);
    SameFromLater(img, a, sb.entryLba * SECTOR, DataStart(sb));
    hide Splice;
    hide EncodeInode;
    hide EncodeDentry;
    hide View;
    hide Layout;
  }

  // ---------------------------------------------------------------------------------------------
  // The tree an image holds
  // ---------------------------------------------------------------------------------------------

  /** What a caller can see at a path: the node's record and, for a file, its bytes. */
  datatype Node = Node(record: Inode, bytes: seq<byte>)

  function Lookup(img: Image, sb: Superblock, path: seq<Name>): Option<Node>
    requires Layout(img, sb)
  {
    match Resolve(View(img, sb), ROOT_INODE, path)
    case None => None
    case Some(n) =>
      if 1 <= n <= InodeCount(sb) then
        var r := InodeAt(img, sb, n);
        Some(Node(r, if r.kind == KIND_FILE then Contents(img, r) else []))
      else None
  }

  /** Placing a node picked by `Choose` meets the conditions of an addition. */
  lemma ChosenCanAdd(v: Volume, drive: Text, path: Text, kind: nat, p: Place) returns (at: seq<Name>)
    requires WellFormed(v) && KnownDrive(drive) && IsCString(path) && PathValid(drive, path)
    requires Choose(v, path) == Some(p) && kind in {KIND_FILE, KIND_DIRECTORY}
    ensures Resolve(v, ROOT_INODE, at) == Some(p.parent) && CanAdd(v, p.parent, p.name, kind, p.inode, p.entry)
    ensures Parse(path) == Some(at + [p.name])
  {
    hide Split;
    hide Parse;
    hide Resolve;
    hide PathValid;
    SplitParses(drive, path);
    at := Parse(Split(path).value.0).value;
    ResolveLive(v, at);
  }

  /** What `create_node` makes of the image, as a volume: one node added. */
  lemma CreateAdds(img: Image, sb: Superblock, drive: Text, path: Text, kind: nat)
    returns (at: seq<Name>, name: Name, n: nat, j: nat)
    requires Sound(img, sb) && KnownDrive(drive) && IsCString(path) && PathValid(drive, path)
    requires kind in {KIND_FILE, KIND_DIRECTORY}
    requires Create(img, path, kind).Some?
    ensures Parse(path) == Some(at + [name]) && Resolve(View(img, sb), ROOT_INODE, at).Some?
    ensures var b, v := Create(img, path, kind).value, View(img, sb);
            var parent := Resolve(v, ROOT_INODE, at).value;
            && |b| == |img| && Layout(b, sb) && LoadSuper(b) == Some(sb) && SameFrom(img, b, DataStart(sb))
            && CanAdd(v, parent, name, kind, n, j) && View(b, sb) == Add(v, parent, name, kind, n, j)
            && FirstFree(v, n, j)
  {
    hide Written;
    hide View;
    hide Layout;
    hide LoadSuper;
    hide SameFrom;
    hide Add;
    hide FirstFree;
    hide WellFormed;
    hide ExtentsOk;
    hide PathValid;
    hide Parse;
    hide IsCString;
    hide IsDirectory;
    hide LegalName;
    var v := View(img, sb);
    var place := Choose(v, path).value;
    ChosenFree(v, path);
    hide Choose;
    at := ChosenCanAdd(v, drive, path, kind, place);
    name, n, j := place.name, place.inode, place.entry;
    WrittenView(img, sb, place, kind);
  }

  lemma ChosenFree(v: Volume, path: Text)
    requires Choose(v, path).Some?
    ensures FirstFree(v, Choose(v, path).value.inode, Choose(v, path).value.entry)
  {
    hide Split;
    hide FindPath;
    hide Child;
  }

  /** On a sound image, creating a node keeps the image sound and changes the tree by exactly one
      new, empty node: at the new path stands the new record, and every other path has the node and
      the bytes it had. */
  lemma CreateOk(img: Image, sb: Superblock, drive: Text, path: Text, kind: nat)
    returns (at: seq<Name>, name: Name, n: nat, j: nat)
    requires Sound(img, sb) && KnownDrive(drive) && IsCString(path) && PathValid(drive, path)
    requires kind in {KIND_FILE, KIND_DIRECTORY}
    requires Create(img, path, kind).Some?
    ensures Parse(path) == Some(at + [name])
    ensures Lookup(img, sb, at + [name]) == None
    ensures var b := Create(img, path, kind).value;
            && |b| == |img|
            && Sound(b, sb) && HasNewNode(b, sb, at, name, n, j, kind) && FirstFree(View(img, sb), n, j)
            && forall p :: p != at + [name] ==> Lookup(b, sb, p) == Lookup(img, sb, p)
  {
    hide HasNewNode;
    hide Create;
    hide Parse;
    hide LoadSuper;
    hide Layout;
    hide View;
    hide WellFormed;
    hide SameFrom;
    hide ExtentsOk;
    hide IsDirectory;
    hide LegalName;
    hide Child;
    hide Resolve;
    hide Add;
    hide FirstFree;
    at, name, n, j := CreateAdds(img, sb, drive, path, kind);
    var b, v := Create(img, path, kind).value, View(img, sb);
    var parent := Resolve(v, ROOT_INODE, at).value;
    AddKeepsWellFormed(v, at, name, kind, n, j);
    AddKeepsExtents(v, sb, parent, name, kind, n, j);
    ResolveLast(v, at, name);
    hide CanAdd;
    forall p
      ensures p != at + [name] ==> Lookup(b, sb, p) == Lookup(img, sb, p)
      ensures p == at + [name] ==> Lookup(b, sb, p) == Some(Node(NewInode(n, kind), []))
    {
      LookupAfter(img, b, sb, at, name, kind, n, j, p);
    }
    NewNodeHeld(v, b, sb, at, name, kind, n, j);
  }

  /** The first free number above the root's, and the first free entry. */
  predicate FirstFree(v: Volume, n: nat, j: nat) {
    && 2 <= n <= |v.inodes| && v.inodes[n - 1].inode == 0 && (forall i :: 1 <= i < n - 1 ==> v.inodes[i].inode != 0)
    && j < |v.entries| && v.entries[j].nameLength == 0 && forall i :: 0 <= i < j ==> v.entries[i].nameLength != 0
  }

  /** The path names a new, empty node with number `n`, and entry `j` names it in its directory. */
  ghost predicate HasNewNode(img: Image, sb: Superblock, at: seq<Name>, name: Name, n: nat, j: nat, kind: nat)
    requires Layout(img, sb)
  {
    && Lookup(img, sb, at + [name]).Some? && Lookup(img, sb, at + [name]).value.bytes == []
    && IsNewNode(Lookup(img, sb, at + [name]).value.record, n, kind)
    && var v := View(img, sb);
    && Resolve(v, ROOT_INODE, at + [name]) == Some(n) && Resolve(v, ROOT_INODE, at).Some?
    && j < |v.entries| && IsNewEntry(v.entries[j], Resolve(v, ROOT_INODE, at).value, n, kind, name)
  }

  lemma NewNodeHeld(v: Volume, b: Image, sb: Superblock, at: seq<Name>, name: Name, kind: nat, n: nat, j: nat)
    requires Layout(b, sb) && Resolve(v, ROOT_INODE, at).Some?
    requires CanAdd(v, Resolve(v, ROOT_INODE, at).value, name, kind, n, j)
    requires View(b, sb) == Add(v, Resolve(v, ROOT_INODE, at).value, name, kind, n, j)
    requires Lookup(b, sb, at + [name]) == Some(Node(NewInode(n, kind), []))
    ensures HasNewNode(b, sb, at, name, n, j, kind)
  {
    AddResolves(v, at, name, kind, n, j, at);
    AddResolves(v, at, name, kind, n, j, at + [name]);
    EntryHeld(v, Resolve(v, ROOT_INODE, at).value, name, kind, n, j);
    hide Lookup;
    hide View;
    hide Layout;
    hide Resolve;
    hide CanAdd;
    hide Add;
    hide IsNewEntry;
    NewInodeIs(n, kind);
  }

  lemma EntryHeld(v: Volume, parent: nat, name: Name, kind: nat, n: nat, j: nat)
    requires CanAdd(v, parent, name, kind, n, j)
    ensures var entries := Add(v, parent, name, kind, n, j).entries;
            j < |entries| && IsNewEntry(entries[j], parent, n, kind, name)
  {
    NewEntryIs(parent, n, kind, name);
    hide IsNewEntry;
  }

  /** When creating a node succeeds: the path names something below a directory, nothing has the name yet, a name
      directly below the root leaves room for the drive within 48 characters, and there are a free number and a
      free entry. */
  lemma CreateSucceeds(img: Image, sb: Superblock, drive: Text, path: Text, kind: nat)
    requires Sound(img, sb) && KnownDrive(drive) && IsCString(path) && PathValid(drive, path)
    requires kind in {KIND_FILE, KIND_DIRECTORY}
    ensures Create(img, path, kind).Some? <==>
            && Parse(path).Some? && Parse(path).value != []
            && (var p := Parse(path).value;
                && (|p| == 1 ==> |drive| + |p[0]| <= 48)
                && Lookup(img, sb, p[..|p| - 1]).Some?
                && Lookup(img, sb, p[..|p| - 1]).value.record.kind == KIND_DIRECTORY && Lookup(img, sb, p) == None)
            && exists n, j :: FirstFree(View(img, sb), n, j)
  {
    hide View;
    hide Split;
    hide Parse;
    hide PathValid;
    hide KnownDrive;
    hide IsCString;
    hide Resolve;
    hide Lookup;
    hide FirstFree;
    hide Choose;
    assert Layout(img, sb);
    hide Sound;
    hide Layout;
    CreateChooses(img, sb, path, kind);
    if Parse(path).Some? { SplitExactly(drive, path, Parse(path).value); }
    if Split(path).Some? {
      var (parentPath, name) := Split(path).value;
      SplitParses(drive, path);
      ChooseSucceeds(View(img, sb), path);
      if Parse(parentPath).Some? {
        var at := Parse(parentPath).value;
        assert (at + [name])[..|at|] == at;
        ParentLooksUp(img, sb, at, name);
      }
    } else {
      NothingChosen(View(img, sb), path);
    }
  }

  lemma CreateChooses(img: Image, sb: Superblock, path: Text, kind: nat)
    requires Sound(img, sb) && kind in {KIND_FILE, KIND_DIRECTORY}
    ensures Create(img, path, kind).Some? <==> Choose(View(img, sb), path).Some?
  {
    hide LoadSuper;
    hide View;
    hide Layout;
    hide WellFormed;
    hide ExtentsOk;
    hide Choose;
    hide Written;
  }

  lemma NothingChosen(v: Volume, path: Text)
    requires Split(path) == None
    ensures Choose(v, path) == None
  {
  }

  lemma ChooseSucceeds(v: Volume, path: Text)
    requires Split(path).Some?
    ensures Choose(v, path).Some? <==>
            && Parse(Split(path).value.0).Some?
            && (var at, name := Parse(Split(path).value.0).value, Split(path).value.1;
                && Resolve(v, ROOT_INODE, at).Some?
                && var parent := Resolve(v, ROOT_INODE, at).value;
                   && 1 <= parent <= |v.inodes| && v.inodes[parent - 1].kind == KIND_DIRECTORY
                   && Child(v, parent, name) == None)
            && exists n, j :: FirstFree(v, n, j)
  {
    ChooseFree(v);
    hide FirstFree;
    hide Split;
    hide Parse;
    hide Resolve;
    hide Child;
    hide FreeInode;
    hide FreeEntry;
  }

  lemma ChooseFree(v: Volume)
    ensures FreeInode(v, 2).Some? && FreeEntry(v, 0).Some? <==> exists n, j :: FirstFree(v, n, j)
  {
    if FreeInode(v, 2).Some? && FreeEntry(v, 0).Some? {
      assert FirstFree(v, FreeInode(v, 2).value, FreeEntry(v, 0).value);
    }
  }

  lemma ParentLooksUp(img: Image, sb: Superblock, at: seq<Name>, name: Name)
    requires Sound(img, sb)
    ensures var v, parent := View(img, sb), Resolve(View(img, sb), ROOT_INODE, at);
            && (parent.Some? <==> Lookup(img, sb, at).Some?)
            && (parent.Some? ==>
                  && 1 <= parent.value <= |v.inodes|
                  && Lookup(img, sb, at).value.record.kind == v.inodes[parent.value - 1].kind
                  && (Child(v, parent.value, name).Some? <==> Lookup(img, sb, at + [name]).Some?))
  {
    hide LoadSuper;
    hide View;
    hide Layout;
    hide WellFormed;
    hide ExtentsOk;
    hide Resolve;
    hide Child;
    hide InodeAt;
    hide Contents;
    var v := View(img, sb);
    ResolveLast(v, at, name);
    if Resolve(v, ROOT_INODE, at).Some? {
      ResolveLive(v, at);
      LookupIs(img, sb, at, Resolve(v, ROOT_INODE, at).value);
    }
    if Resolve(v, ROOT_INODE, at + [name]).Some? {
      ResolveLive(v, at + [name]);
      LookupIs(img, sb, at + [name], Resolve(v, ROOT_INODE, at + [name]).value);
    }
  }

  lemma AddKeepsExtents(v: Volume, sb: Superblock, parent: nat, name: Name, kind: nat, n: nat, j: nat)
    requires CanAdd(v, parent, name, kind, n, j) && ExtentsOk(v, sb)
    ensures ExtentsOk(Add(v, parent, name, kind, n, j), sb)
  {
    var w := Add(v, parent, name, kind, n, j);
    forall m | Live(w, m)
      ensures ExtentOk(sb, w.inodes[m - 1])
    {
      if m != n { assert Live(v, m); }
    }
  }

  lemma LookupAfter(img: Image, b: Image, sb: Superblock, at: seq<Name>, name: Name, kind: nat, n: nat, j: nat,
                    p: seq<Name>)
    requires Sound(img, sb) && Layout(b, sb) && SameFrom(img, b, DataStart(sb))
    requires Resolve(View(img, sb), ROOT_INODE, at).Some?
    requires CanAdd(View(img, sb), Resolve(View(img, sb), ROOT_INODE, at).value, name, kind, n, j)
    requires View(b, sb) == Add(View(img, sb), Resolve(View(img, sb), ROOT_INODE, at).value, name, kind, n, j)
    ensures p != at + [name] ==> Lookup(b, sb, p) == Lookup(img, sb, p)
    ensures p == at + [name] ==> Lookup(b, sb, p) == Some(Node(NewInode(n, kind), []))
  {
    var v, w := View(img, sb), View(b, sb);
    AddResolves(v, at, name, kind, n, j, p);
    hide *;
    if p == at + [name] {
      AddedInode(v, Resolve(v, ROOT_INODE, at).value, name, kind, n, j);
      LookupIs(b, sb, p, n);
      NewIsEmpty(b, n, kind);
    } else {
      AddedInode(v, Resolve(v, ROOT_INODE, at).value, name, kind, n, j);
      LookupSame(img, b, sb, p, n);
    }
  }

  lemma AddedInode(v: Volume, parent: nat, name: Name, kind: nat, n: nat, j: nat)
    requires CanAdd(v, parent, name, kind, n, j)
    ensures var w := Add(v, parent, name, kind, n, j);
            && !Live(v, n) && 1 <= n <= |v.inodes|
            && |w.inodes| == |v.inodes| && w.inodes[n - 1] == NewInode(n, kind)
            && forall i :: 0 <= i < |v.inodes| && i != n - 1 ==> w.inodes[i] == v.inodes[i]
  {
  }

  /** The node that `Lookup` reports for a record. */
  function NodeOf(img: Image, r: Inode): Node {
    Node(r, if r.kind == KIND_FILE then Contents(img, r) else [])
  }

  lemma NewIsEmpty(img: Image, n: nat, kind: nat)
    ensures NodeOf(img, NewInode(n, kind)) == Node(NewInode(n, kind), [])
  {
    EmptyContents(img, NewInode(n, kind));
  }

  lemma LookupIs(img: Image, sb: Superblock, p: seq<Name>, n: nat)
    requires Layout(img, sb) && Resolve(View(img, sb), ROOT_INODE, p) == Some(n) && 1 <= n <= |View(img, sb).inodes|
    ensures Lookup(img, sb, p) == Some(NodeOf(img, View(img, sb).inodes[n - 1]))
  {
    ViewInode(img, sb, n);
    hide InodeAt;
    hide View;
  }

  lemma LookupSame(img: Image, b: Image, sb: Superblock, p: seq<Name>, n: nat)
    requires Sound(img, sb) && Layout(b, sb) && SameFrom(img, b, DataStart(sb))
    requires Resolve(View(b, sb), ROOT_INODE, p) == Resolve(View(img, sb), ROOT_INODE, p)
    requires !Live(View(img, sb), n) && |View(b, sb).inodes| == |View(img, sb).inodes|
    requires forall i :: 0 <= i < |View(img, sb).inodes| && i != n - 1 ==>
               View(b, sb).inodes[i] == View(img, sb).inodes[i]
    ensures Lookup(b, sb, p) == Lookup(img, sb, p)
  {
    hide LoadSuper;
    hide Resolve;
    hide SameFrom;
    hide InodeAt;
    hide View;
    hide LegalName;
    var v := View(img, sb);
    if Resolve(v, ROOT_INODE, p).Some? {
      ResolveLive(v, p);
      var m := Resolve(v, ROOT_INODE, p).value;
      LookupIs(img, sb, p, m);
      LookupIs(b, sb, p, m);
      assert ExtentOk(sb, v.inodes[m - 1]);
      hide Lookup;
      hide ExtentOk;
      hide Layout;
      hide Contents;
      if v.inodes[m - 1].kind == KIND_FILE { ContentsSame(img, b, sb, v.inodes[m - 1]); }
    }
  }

  lemma EmptyContents(img: Image, r: Inode)
    requires r.size == 0
    ensures Contents(img, r) == []
  {
  }

  lemma ContentsSame(img: Image, b: Image, sb: Superblock, r: Inode)
    requires Layout(img, sb) && SameFrom(img, b, DataStart(sb)) && ExtentOk(sb, r) && r.kind == KIND_FILE
    ensures Contents(b, r) == Contents(img, r)
  {
    if r.size > 0 {
      var lo := r.firstSector * SECTOR;
      assert lo + r.size <= sb.totalSectors * SECTOR;
      SameSlice(img, b, DataStart(sb), lo, lo + r.size);
    } else {
      EmptyContents(img, r);
      EmptyContents(b, r);
    }
  }
}
