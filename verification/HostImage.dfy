/** The bytes of a volume as the host's formatter writes them (tools/qfs2.py, `build_volume` and
    `build_metadata`), and the tables that can be read back from them. */
module HostImage {
  import opened Bits
  import opened Bytes
  import opened Crc32
  import opened Qfs2Format
  import opened HostTool
  import opened HostFormat
  import opened HostTree

  const INODE_LBA: nat := SUPER_LBA + 2
  const BITMAP_BITS: nat := 4096

  // ---------------------------------------------------------------------------------------------
  // Geometry
  // ---------------------------------------------------------------------------------------------

  function Ceiling(bytes: nat): nat { (bytes + SECTOR - 1) / SECTOR }

  function Max(a: nat, b: nat): nat { if a < b then b else a }

  function InodeSectors(nodes: nat): nat { Max(16, Ceiling((nodes + 1) * INODE_SIZE)) }
  function EntrySectors(nodes: nat): nat { Max(32, Ceiling(nodes * DENTRY_SIZE)) }

  datatype Geometry = Geometry(inodeSectors: nat, entryLba: nat, entrySectors: nat, dataLba: nat, endLba: nat)

  function GeometryOf(pl: Plan): (g: Geometry)
    requires pl.dirs != []
  {
    var inodeSectors, entrySectors := InodeSectors(Nodes(pl)), EntrySectors(Nodes(pl));
    var entryLba := INODE_LBA + inodeSectors;
    var dataLba := entryLba + entrySectors;
    Geometry(inodeSectors, entryLba, entrySectors, dataLba, FirstSector(pl.files, |pl.files|, dataLba))
  }

  function InodeSlots(pl: Plan): nat
    requires pl.dirs != []
  {
    GeometryOf(pl).inodeSectors * SECTOR / INODE_SIZE
  }

  function EntrySlots(pl: Plan): nat
    requires pl.dirs != []
  {
    GeometryOf(pl).entrySectors * SECTOR / DENTRY_SIZE
  }

  lemma SlotsSuffice(pl: Plan)
    requires pl.dirs != []
    ensures Nodes(pl) + 1 <= InodeSlots(pl) && Nodes(pl) <= EntrySlots(pl)
    ensures (Nodes(pl) + 1) * INODE_SIZE <= GeometryOf(pl).inodeSectors * SECTOR
    ensures Nodes(pl) * DENTRY_SIZE <= GeometryOf(pl).entrySectors * SECTOR
  {
    CeilingCovers((Nodes(pl) + 1) * INODE_SIZE);
    CeilingCovers(Nodes(pl) * DENTRY_SIZE);
    hide Ceiling;
    hide FirstSector;
  }

  lemma CeilingCovers(bytes: nat)
    ensures bytes <= Ceiling(bytes) * SECTOR
  {
  }

  lemma {:induction false} FirstSectorGrows(files: seq<HostFile>, i: nat, j: nat, lba: nat)
    requires i <= j <= |files|
    ensures FirstSector(files, i, lba) <= FirstSector(files, j, lba)
    ensures i < j ==> FirstSector(files, i, lba) + SectorsOf(files[i]) <= FirstSector(files, j, lba)
    ensures lba <= FirstSector(files, i, lba)
  {
    if i < j {
      FirstSectorGrows(files, i, j - 1, lba);
    } else if i > 0 {
      FirstSectorGrows(files, i - 1, i - 1, lba);
    }
  }

  /** The extents of the files are disjoint, lie in order behind the tables, and hold their bytes. */
  lemma ExtentsApart(pl: Plan, i: nat, j: nat)
    requires pl.dirs != [] && i < j < |pl.files|
    ensures var g := GeometryOf(pl);
            var first, second := FirstSector(pl.files, i, g.dataLba), FirstSector(pl.files, j, g.dataLba);
            && INODE_LBA < g.entryLba < g.dataLba <= first && first + SectorsOf(pl.files[i]) <= second
            && second + SectorsOf(pl.files[j]) <= g.endLba
            && |pl.files[i].data| <= SectorsOf(pl.files[i]) * SECTOR
  {
    FirstSectorGrows(pl.files, i, j, GeometryOf(pl).dataLba);
    FirstSectorGrows(pl.files, j, |pl.files|, GeometryOf(pl).dataLba);
  }

  // ---------------------------------------------------------------------------------------------
  // Superblock
  // ---------------------------------------------------------------------------------------------

  predicate SuperFits(s: Superblock) {
    && |s.magic| == 8 && s.version < B16 && s.sectorSize < B16 && s.totalSectors < B32 && s.bitmapLba < B32
    && s.inodeLba < B32 && s.inodeSectors < B32 && s.entryLba < B32 && s.entrySectors < B32 && s.rootInode < B32
    && s.checksum < B32 && s.reserved < B32
  }

  function SuperFields(s: Superblock): (b: seq<byte>)
    requires SuperFits(s)
    ensures |b| == 40
  {
    s.magic + Le16(s.version) + Le16(s.sectorSize) + Le32(s.totalSectors) + Le32(s.bitmapLba) + Le32(s.inodeLba)
    + Le32(s.inodeSectors) + Le32(s.entryLba) + Le32(s.entrySectors) + Le32(s.rootInode)
  }

  function EncodeSuper(s: Superblock): (b: seq<byte>)
    requires SuperFits(s)
    ensures |b| == SUPER_SIZE
  {
    SuperFields(s) + Le32(s.checksum) + Le32(s.reserved)
  }

  lemma SuperSlices(s: Superblock)
    requires SuperFits(s)
    ensures var b := EncodeSuper(s);
            && b[..40] == SuperFields(s)
            && b[..8] == s.magic && b[8..10] == Le16(s.version) && b[10..12] == Le16(s.sectorSize)
            && b[12..16] == Le32(s.totalSectors) && b[16..20] == Le32(s.bitmapLba) && b[20..24] == Le32(s.inodeLba)
            && b[24..28] == Le32(s.inodeSectors) && b[28..32] == Le32(s.entryLba) && b[32..36] == Le32(s.entrySectors)
            && b[36..40] == Le32(s.rootInode) && b[40..44] == Le32(s.checksum) && b[44..48] == Le32(s.reserved)
  {
    hide Le16;
    hide Le32;
  }

  lemma SuperRoundTrip(s: Superblock)
    requires SuperFits(s)
    ensures DecodeSuper(EncodeSuper(s)) == s
  {
    SuperSlices(s);
    U16Le16(s.version);
    U16Le16(s.sectorSize);
    U32Le32(s.totalSectors);
    U32Le32(s.bitmapLba);
    U32Le32(s.inodeLba);
    U32Le32(s.inodeSectors);
    U32Le32(s.entryLba);
    U32Le32(s.entrySectors);
    U32Le32(s.rootInode);
    U32Le32(s.checksum);
    U32Le32(s.reserved);
    hide EncodeSuper;
    hide U16;
    hide U32;
    hide Le16;
    hide Le32;
  }

  function Unsealed(g: Geometry, total: nat): Superblock {
    Superblock(HOST_MAGIC, 2, SECTOR, SUPER_LBA + total, SUPER_LBA + 1, INODE_LBA, g.inodeSectors, g.entryLba,
               g.entrySectors,
               ROOT_INODE, 0, 0)
  }

  predicate GeometryFits(g: Geometry, total: nat) {
    && INODE_LBA + 16 <= INODE_LBA + g.inodeSectors == g.entryLba
    && g.entryLba + g.entrySectors == g.dataLba <= g.endLba
    && g.endLba <= SUPER_LBA + total < B32 && g.endLba <= BITMAP_BITS
  }

  /** The superblock that `build_metadata` packs. */
  function Super(g: Geometry, total: nat): (s: Superblock)
    requires GeometryFits(g, total)
    ensures SuperFits(s)
  {
    Unsealed(g, total).(checksum := Crc(SuperFields(Unsealed(g, total))))
  }

  // ---------------------------------------------------------------------------------------------
  // Bitmap
  // ---------------------------------------------------------------------------------------------

  lemma {:induction false} OrBound(a: nat, b: nat, k: nat)
    requires a < Shl1(k) && b < Shl1(k)
    ensures Or(a, b) < Shl1(k)
  {
    if k > 0 && a != 0 && b != 0 { OrBound(a / 2, b / 2, k - 1); }
  }

  lemma BitByte(a: byte, i: nat)
    requires i < 8
    ensures Or(a, Shl1(i)) < 256
  {
    assert Shl1(8) == 256;
    OrBound(a, Shl1(i), 8);
  }

  /** The bitmap with the bits from `start` up to `end` set. */
  function Bitmap(start: nat, end: nat): (b: seq<byte>)
    requires end <= BITMAP_BITS
    ensures |b| == SECTOR
    decreases end
  {
    if end <= start then Zeros(SECTOR)
    else
      var before, k := Bitmap(start, end - 1), end - 1;
      BitByte(before[k / 8], k % 8);
      before[k / 8 := Or(before[k / 8], Shl1(k % 8))]
  }

  /** It marks exactly those. */
  lemma {:induction false} BitmapMarks(start: nat, end: nat, k: nat)
    requires end <= BITMAP_BITS && k < BITMAP_BITS
    ensures Bit(Bitmap(start, end)[k / 8], k % 8) <==> start <= k < end
    decreases end
  {
    hide Bit;
    hide Or;
    hide Shl1;
    if end <= start {
      ZeroBit(k % 8);
    } else {
      BitmapMarks(start, end - 1, k);
      var before, m := Bitmap(start, end - 1), end - 1;
      OrBit(before[m / 8], Shl1(m % 8), k % 8);
      Shl1Bit(m % 8, k % 8);
    }
  }

  // ---------------------------------------------------------------------------------------------
  // Tables and payload
  // ---------------------------------------------------------------------------------------------

  predicate AllInodesFit(inodes: seq<Inode>) { forall i :: 0 <= i < |inodes| ==> InodeFits(inodes[i]) }

  predicate AllEntriesFit(entries: seq<Dentry>) { forall j :: 0 <= j < |entries| ==> DentryFits(entries[j]) }

  function InodeBytes(inodes: seq<Inode>): (b: seq<byte>)
    requires AllInodesFit(inodes)
    ensures |b| == |inodes| * INODE_SIZE
  {
    if inodes == [] then [] else InodeBytes(inodes[..|inodes| - 1]) + EncodeInode(inodes[|inodes| - 1])
  }

  function EntryBytes(entries: seq<Dentry>): (b: seq<byte>)
    requires AllEntriesFit(entries)
    ensures |b| == |entries| * DENTRY_SIZE
  {
    if entries == [] then [] else EntryBytes(entries[..|entries| - 1]) + EncodeDentry(entries[|entries| - 1])
  }

  lemma ConcatPrefix(a: seq<byte>, b: seq<byte>, lo: nat, hi: nat)
    requires lo <= hi <= |a|
    ensures (a + b)[lo..hi] == a[lo..hi]
  {
  }

  lemma ConcatSuffix(a: seq<byte>, b: seq<byte>, lo: nat, hi: nat)
    requires lo <= hi <= |b|
    ensures (a + b)[|a| + lo..|a| + hi] == b[lo..hi]
  {
    var x, y := (a + b)[|a| + lo..|a| + hi], b[lo..hi];
    forall i | 0 <= i < |y|
      ensures x[i] == y[i]
    {
      ConcatAt(a, b, |a| + lo + i);
    }
  }

  lemma {:induction false} InodeBytesAt(inodes: seq<Inode>, i: nat)
    requires AllInodesFit(inodes) && i < |inodes|
    ensures i * INODE_SIZE + INODE_SIZE <= |InodeBytes(inodes)|
    ensures InodeBytes(inodes)[i * INODE_SIZE..i * INODE_SIZE + INODE_SIZE] == EncodeInode(inodes[i])
    decreases |inodes|
  {
    hide EncodeInode;
    hide InodeFits;
    var init, last := inodes[..|inodes| - 1], inodes[|inodes| - 1];
    var a, b := InodeBytes(init), EncodeInode(last);
    if i < |init| {
      InodeBytesAt(init, i);
      ConcatPrefix(a, b, i * INODE_SIZE, i * INODE_SIZE + INODE_SIZE);
    } else {
      ConcatSuffix(a, b, 0, INODE_SIZE);
      assert b[0..INODE_SIZE] == b;
    }
  }

  lemma {:induction false} EntryBytesAt(entries: seq<Dentry>, j: nat)
    requires AllEntriesFit(entries) && j < |entries|
    ensures j * DENTRY_SIZE + DENTRY_SIZE <= |EntryBytes(entries)|
    ensures EntryBytes(entries)[j * DENTRY_SIZE..j * DENTRY_SIZE + DENTRY_SIZE] == EncodeDentry(entries[j])
    decreases |entries|
  {
    var init, last := entries[..|entries| - 1], entries[|entries| - 1];
    var a, b := EntryBytes(init), EncodeDentry(last);
    hide EncodeDentry;
    hide DentryFits;
    if j < |init| {
      EntryBytesAt(init, j);
      ConcatPrefix(a, b, j * DENTRY_SIZE, j * DENTRY_SIZE + DENTRY_SIZE);
    } else {
      ConcatSuffix(a, b, 0, DENTRY_SIZE);
      assert b[0..DENTRY_SIZE] == b;
    }
  }

  lemma EmptyInodeDecodes()
    ensures DecodeInode(Zeros(INODE_SIZE)) == EMPTY_INODE
  {
    var z := Zeros(INODE_SIZE);
    ZeroFields(z[..8], z[8..12]);
    ZeroFields(z[32..40], z[12..16]);
    ZeroFields(z[40..48], z[16..20]);
    ZeroFields(z[40..48], z[20..24]);
    ZeroFields(z[40..48], z[24..28]);
    ZeroFields(z[40..48], z[28..32]);
    ZeroFields(z[40..48], z[48..52]);
    ZeroFields(z[40..48], z[52..56]);
    hide U64;
    hide U32;
  }

  lemma ZeroFields(long: seq<byte>, short: seq<byte>)
    requires |long| == 8 && |short| == 4
    requires (forall i :: 0 <= i < 8 ==> long[i] == 0) && forall i :: 0 <= i < 4 ==> short[i] == 0
    ensures U64(long) == 0 && U32(short) == 0
  {
  }

  lemma EmptyEntryDecodes()
    ensures DecodeDentry(Zeros(DENTRY_SIZE)) == EmptyEntry()
  {
    var z := Zeros(DENTRY_SIZE);
    ZeroFields(z[..8], z[..4]);
    ZeroFields(z[8..16], z[..4]);
    hide U64;
    assert z[18..66] == Zeros(NAME_MAX);
  }

  /** The inode region of `build_metadata`: the records, then zeros. */
  function InodeRegion(inodes: seq<Inode>, sectors: nat): (b: seq<byte>)
    requires AllInodesFit(inodes) && |inodes| * INODE_SIZE <= sectors * SECTOR
    ensures |b| == sectors * SECTOR
  {
    InodeBytes(inodes) + Zeros(sectors * SECTOR - |inodes| * INODE_SIZE)
  }

  function EntryRegion(entries: seq<Dentry>, sectors: nat): (b: seq<byte>)
    requires AllEntriesFit(entries) && |entries| * DENTRY_SIZE <= sectors * SECTOR
    ensures |b| == sectors * SECTOR
  {
    EntryBytes(entries) + Zeros(sectors * SECTOR - |entries| * DENTRY_SIZE)
  }

  lemma ZerosSlice(n: nat, lo: nat, hi: nat)
    requires lo <= hi <= n
    ensures Zeros(n)[lo..hi] == Zeros(hi - lo)
  {
  }

  lemma SlotInside(i: nat, slots: nat, size: nat, bytes: nat)
    requires size > 0 && i < slots && slots == bytes / size
    ensures i * size + size <= bytes
  {
    assert (i + 1) * size <= slots * size <= bytes;
  }

  /** Each slot of the region decodes to its record, or to an empty one. */
  lemma RegionInode(inodes: seq<Inode>, sectors: nat, i: nat)
    requires AllInodesFit(inodes) && |inodes| * INODE_SIZE <= sectors * SECTOR && i < sectors * SECTOR / INODE_SIZE
    ensures i * INODE_SIZE + INODE_SIZE <= sectors * SECTOR
    ensures DecodeInode(InodeRegion(inodes, sectors)[i * INODE_SIZE..i * INODE_SIZE + INODE_SIZE])
            == if i < |inodes| then inodes[i] else EMPTY_INODE
  {
    hide DecodeInode;
    hide EncodeInode;
    hide InodeBytes;
    hide Zeros;
    SlotInside(i, sectors * SECTOR / INODE_SIZE, INODE_SIZE, sectors * SECTOR);
    var a, n := InodeBytes(inodes), sectors * SECTOR - |inodes| * INODE_SIZE;
    if i < |inodes| {
      InodeBytesAt(inodes, i);
      ConcatPrefix(a, Zeros(n), i * INODE_SIZE, i * INODE_SIZE + INODE_SIZE);
      InodeRoundTrip(inodes[i]);
    } else {
      var lo := (i - |inodes|) * INODE_SIZE;
      ConcatSuffix(a, Zeros(n), lo, lo + INODE_SIZE);
      ZerosSlice(n, lo, lo + INODE_SIZE);
      EmptyInodeDecodes();
    }
  }

  lemma RegionEntry(entries: seq<Dentry>, sectors: nat, j: nat)
    requires AllEntriesFit(entries) && |entries| * DENTRY_SIZE <= sectors * SECTOR && j < sectors * SECTOR / DENTRY_SIZE
    ensures j * DENTRY_SIZE + DENTRY_SIZE <= sectors * SECTOR
    ensures DecodeDentry(EntryRegion(entries, sectors)[j * DENTRY_SIZE..j * DENTRY_SIZE + DENTRY_SIZE])
            == if j < |entries| then entries[j] else EmptyEntry()
  {
    hide DecodeDentry;
    hide EncodeDentry;
    hide EntryBytes;
    hide Zeros;
    hide EmptyEntry;
    SlotInside(j, sectors * SECTOR / DENTRY_SIZE, DENTRY_SIZE, sectors * SECTOR);
    var a, n := EntryBytes(entries), sectors * SECTOR - |entries| * DENTRY_SIZE;
    if j < |entries| {
      EntryBytesAt(entries, j);
      ConcatPrefix(a, Zeros(n), j * DENTRY_SIZE, j * DENTRY_SIZE + DENTRY_SIZE);
      DentryRoundTrip(entries[j]);
    } else {
      var lo := (j - |entries|) * DENTRY_SIZE;
      ConcatSuffix(a, Zeros(n), lo, lo + DENTRY_SIZE);
      ZerosSlice(n, lo, lo + DENTRY_SIZE);
      EmptyEntryDecodes();
    }
  }

  /** A file's part of the payload. */
  function FilePart(f: HostFile): (b: seq<byte>)
    ensures |b| == SectorsOf(f) * SECTOR
  {
    PartFits(f);
    f.data + Zeros(SectorsOf(f) * SECTOR - |f.data|)
  }

  lemma PartFits(f: HostFile)
    ensures |f.data| <= SectorsOf(f) * SECTOR
  {
  }

  function Payload(files: seq<HostFile>): (b: seq<byte>)
  {
    if files == [] then [] else Payload(files[..|files| - 1]) + FilePart(files[|files| - 1])
  }

  lemma {:induction false} FirstSectorInit(files: seq<HostFile>, i: nat, lba: nat)
    requires i < |files|
    ensures FirstSector(files, i, lba) == FirstSector(files[..|files| - 1], i, lba)
  {
    if i > 0 { FirstSectorInit(files, i - 1, lba); }
  }

  lemma {:induction false} PayloadSize(files: seq<HostFile>, lba: nat)
    ensures lba * SECTOR + |Payload(files)| == FirstSector(files, |files|, lba) * SECTOR
    decreases |files|
  {
    if files != [] {
      PayloadSize(files[..|files| - 1], lba);
      FirstSectorInit(files, |files| - 1, lba);
      hide FilePart;
      hide SectorsOf;
    }
  }

  lemma {:induction false} PayloadAt(files: seq<HostFile>, i: nat, lba: nat)
    requires i < |files|
    ensures var lo := (FirstSector(files, i, lba) - lba) * SECTOR;
            && 0 <= lo && lo + |files[i].data| <= |Payload(files)|
            && Payload(files)[lo..lo + |files[i].data|] == files[i].data
    decreases |files|
  {
    var init, last := files[..|files| - 1], files[|files| - 1];
    var a, b := Payload(init), FilePart(last);
    FirstSectorInit(files, i, lba);
    if i < |init| {
      PayloadAt(init, i, lba);
      hide FilePart;
      hide FirstSector;
      var lo := (FirstSector(init, i, lba) - lba) * SECTOR;
      ConcatPrefix(a, b, lo, lo + |files[i].data|);
    } else {
      PayloadSize(init, lba);
      PartFits(last);
      ConcatPrefix(last.data, Zeros(SectorsOf(last) * SECTOR - |last.data|), 0, |last.data|);
      assert last.data[0..|last.data|] == last.data;
      ConcatSuffix(a, b, 0, |last.data|);
      hide SectorsOf;
      hide FirstSector;
    }
  }
}
