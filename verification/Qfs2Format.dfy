/** The on-disk records of QFS v2: kernel/core/qfs2.c and tools/qfs2.py share this layout. */
module Qfs2Format {
  import opened Bytes
  import opened Struct

  const SECTOR: nat := 512
  const SUPER_LBA: nat := 514
  const SUPER_SIZE: nat := 48
  const INODE_SIZE: nat := 56
  const DENTRY_SIZE: nat := 66
  const NAME_MAX: nat := 48
  const ROOT_INODE: nat := 1
  const KIND_FILE: nat := 1
  const KIND_DIRECTORY: nat := 2

  const MAGIC: seq<byte> := [0x51, 0x46, 0x53, 0x76, 0x32]

  datatype Superblock = Superblock(
    magic: seq<byte>, version: nat, sectorSize: nat,
    totalSectors: nat, bitmapLba: nat, inodeLba: nat, inodeSectors: nat,
    entryLba: nat, entrySectors: nat, rootInode: nat, checksum: nat, reserved: nat)

  datatype Inode = Inode(
    inode: nat, kind: nat, mode: nat, uid: nat, gid: nat, size: nat, firstSector: nat,
    sectors: nat, generation: nat, reserved: nat, flags: nat)

  /** A directory entry; the name field is always 48 bytes. */
  datatype Dentry = Dentry(parent: nat, inode: nat, kind: nat, nameLength: nat, name: seq<byte>)

  predicate InodeFits(n: Inode) {
    && n.inode < B64 && n.kind < B32 && n.mode < B32 && n.uid < B32 && n.gid < B32 && n.size < B32
    && n.firstSector < B32 && n.sectors < B64 && n.generation < B64 && n.reserved < B32 && n.flags < B32
  }

  predicate DentryFits(e: Dentry) {
    && e.parent < B64 && e.inode < B64 && e.kind < 256 && e.nameLength < 256 && |e.name| == NAME_MAX
  }

  function DecodeSuper(b: seq<byte>): Superblock
    requires |b| == SUPER_SIZE
  {
    Superblock(b[..8], U16(b[8..10]), U16(b[10..12]), U32(b[12..16]), U32(b[16..20]), U32(b[20..24]),
               U32(b[24..28]), U32(b[28..32]), U32(b[32..36]), U32(b[36..40]), U32(b[40..44]), U32(b[44..48]))
  }

  function DecodeInode(b: seq<byte>): (n: Inode)
    requires |b| == INODE_SIZE
    ensures InodeFits(n)
  {
    Inode(U64(b[..8]), U32(b[8..12]), U32(b[12..16]), U32(b[16..20]), U32(b[20..24]), U32(b[24..28]), U32(b[28..32]),
          U64(b[32..40]), U64(b[40..48]), U32(b[48..52]), U32(b[52..56]))
  }

  function EncodeInode(n: Inode): (b: seq<byte>)
    requires InodeFits(n)
    ensures |b| == INODE_SIZE
  {
    Le64(n.inode) + Le32(n.kind) + Le32(n.mode) + Le32(n.uid) + Le32(n.gid) + Le32(n.size) + Le32(n.firstSector)
    + Le64(n.sectors) + Le64(n.generation) + Le32(n.reserved) + Le32(n.flags)
  }

  function DecodeDentry(b: seq<byte>): (e: Dentry)
    requires |b| == DENTRY_SIZE
    ensures DentryFits(e)
  {
    Dentry(U64(b[..8]), U64(b[8..16]), b[16], b[17], b[18..66])
  }

  function EncodeDentry(e: Dentry): (b: seq<byte>)
    requires DentryFits(e)
    ensures |b| == DENTRY_SIZE
  {
    Le64(e.parent) + Le64(e.inode) + [e.kind as byte, e.nameLength as byte] + e.name
  }

  lemma InodeRoundTrip(n: Inode)
    requires InodeFits(n)
    ensures DecodeInode(EncodeInode(n)) == n
  {
    var b := EncodeInode(n);
    U64Le64(n.inode); U32Le32(n.kind); U32Le32(n.mode); U32Le32(n.uid); U32Le32(n.gid); U32Le32(n.size);
    U32Le32(n.firstSector); U64Le64(n.sectors); U64Le64(n.generation); U32Le32(n.reserved); U32Le32(n.flags);
    hide *;
    assert b == EncodeInode(n);
    InodeSlices(n);
  }

  lemma InodeSlices(n: Inode)
    requires InodeFits(n)
    ensures var b := EncodeInode(n);
      && b[..8] == Le64(n.inode) && b[8..12] == Le32(n.kind) && b[12..16] == Le32(n.mode) && b[16..20] == Le32(n.uid)
      && b[20..24] == Le32(n.gid) && b[24..28] == Le32(n.size) && b[28..32] == Le32(n.firstSector)
      && b[32..40] == Le64(n.sectors) && b[40..48] == Le64(n.generation) && b[48..52] == Le32(n.reserved)
      && b[52..56] == Le32(n.flags)
  {
    hide Le32;
    hide Le64;
  }

  lemma DentryRoundTrip(e: Dentry)
    requires DentryFits(e)
    ensures DecodeDentry(EncodeDentry(e)) == e
  {
    hide Le64;
    hide U64;
    U64Le64(e.parent);
    U64Le64(e.inode);
    var b := EncodeDentry(e);
    assert b[..8] == Le64(e.parent);
    assert b[8..16] == Le64(e.inode);
    assert b[18..66] == e.name;
  }

  // ---------------------------------------------------------------------------------------------
  // The layout of the records
  // ---------------------------------------------------------------------------------------------

  function InodeFields(n: Inode): seq<Field> {
    [Number(8, n.inode), Number(4, n.kind), Number(4, n.mode), Number(4, n.uid), Number(4, n.gid), Number(4, n.size),
     Number(4, n.firstSector), Number(8, n.sectors), Number(8, n.generation), Number(4, n.reserved), Number(4, n.flags)]
  }

  lemma InodeFieldsAre(r: Inode)
    ensures var f := InodeFields(r);
            && |f| == 11
            && f[0] == Number(8, r.inode) && f[1] == Number(4, r.kind) && f[2] == Number(4, r.mode)
            && f[3] == Number(4, r.uid) && f[4] == Number(4, r.gid) && f[5] == Number(4, r.size)
            && f[6] == Number(4, r.firstSector) && f[7] == Number(8, r.sectors) && f[8] == Number(8, r.generation)
            && f[9] == Number(4, r.reserved) && f[10] == Number(4, r.flags)
  {
  }

  /** Fifty-six bytes are the packed record of the inode they decode to; "<QIIIIIIQQII" for the host. */
  lemma InodeLayout(b: seq<byte>)
    requires |b| == INODE_SIZE
    ensures Record(b, InodeFields(DecodeInode(b)))
  {
    hide U32;
    hide U64;
    hide Record;
    hide InodeFields;
    InodeFieldsAre(DecodeInode(b));
    var f := InodeFields(DecodeInode(b));
    RecordEnd(b, f);
    At32(b, f, 10, 52, 56);
    At32(b, f, 9, 48, 52);
    At64(b, f, 8, 40, 48);
    At64(b, f, 7, 32, 40);
    At32(b, f, 6, 28, 32);
    At32(b, f, 5, 24, 28);
    At32(b, f, 4, 20, 24);
    At32(b, f, 3, 16, 20);
    At32(b, f, 2, 12, 16);
    At32(b, f, 1, 8, 12);
    assert b[..8] == b[0..8];
    At64(b, f, 0, 0, 8);
    assert b[0..] == b && f[0..] == f;
  }

  function EntryFields(e: Dentry): seq<Field> {
    [Number(8, e.parent), Number(8, e.inode), Number(1, e.kind), Number(1, e.nameLength), Raw(e.name)]
  }

  lemma EntryFieldsAre(r: Dentry)
    ensures var f := EntryFields(r);
            && |f| == 5
            && f[0] == Number(8, r.parent) && f[1] == Number(8, r.inode) && f[2] == Number(1, r.kind)
            && f[3] == Number(1, r.nameLength) && f[4] == Raw(r.name)
  {
  }

  /** The same for a directory entry; "<QQBB48s". */
  lemma EntryLayout(b: seq<byte>)
    requires |b| == DENTRY_SIZE
    ensures Record(b, EntryFields(DecodeDentry(b)))
  {
    hide U64;
    hide Record;
    hide EntryFields;
    EntryFieldsAre(DecodeDentry(b));
    var f := EntryFields(DecodeDentry(b));
    RecordEnd(b, f);
    AtRaw(b, f, 4, 18, 66);
    AtByte(b, f, 3, 17, 18);
    AtByte(b, f, 2, 16, 17);
    At64(b, f, 1, 8, 16);
    assert b[..8] == b[0..8];
    At64(b, f, 0, 0, 8);
    assert b[0..] == b && f[0..] == f;
  }

  function SuperblockFields(s: Superblock): seq<Field> {
    [Raw(s.magic), Number(2, s.version), Number(2, s.sectorSize), Number(4, s.totalSectors), Number(4, s.bitmapLba),
     Number(4, s.inodeLba), Number(4, s.inodeSectors), Number(4, s.entryLba), Number(4, s.entrySectors),
     Number(4, s.rootInode), Number(4, s.checksum), Number(4, s.reserved)]
  }

  lemma SuperblockFieldsAre(r: Superblock)
    ensures var f := SuperblockFields(r);
            && |f| == 12
            && f[0] == Raw(r.magic) && f[1] == Number(2, r.version) && f[2] == Number(2, r.sectorSize)
            && f[3] == Number(4, r.totalSectors) && f[4] == Number(4, r.bitmapLba) && f[5] == Number(4, r.inodeLba)
            && f[6] == Number(4, r.inodeSectors) && f[7] == Number(4, r.entryLba) && f[8] == Number(4, r.entrySectors)
            && f[9] == Number(4, r.rootInode) && f[10] == Number(4, r.checksum) && f[11] == Number(4, r.reserved)
  {
  }

  /** The same for a superblock; "<8sHHIIIIIIIII". */
  lemma SuperblockLayout(b: seq<byte>)
    requires |b| == SUPER_SIZE
    ensures Record(b, SuperblockFields(DecodeSuper(b)))
  {
    hide U16;
    hide U32;
    hide Record;
    hide SuperblockFields;
    SuperblockFieldsAre(DecodeSuper(b));
    var f := SuperblockFields(DecodeSuper(b));
    RecordEnd(b, f);
    At32(b, f, 11, 44, 48);
    At32(b, f, 10, 40, 44);
    At32(b, f, 9, 36, 40);
    At32(b, f, 8, 32, 36);
    At32(b, f, 7, 28, 32);
    At32(b, f, 6, 24, 28);
    At32(b, f, 5, 20, 24);
    At32(b, f, 4, 16, 20);
    At32(b, f, 3, 12, 16);
    At16(b, f, 2, 10, 12);
    At16(b, f, 1, 8, 10);
    assert b[..8] == b[0..8];
    AtRaw(b, f, 0, 0, 8);
    assert b[0..] == b && f[0..] == f;
  }
}
