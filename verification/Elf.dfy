/** The parts of an ELF-64 image that the boot loader reads, and what it accepts
    (bootloader/uefi/loader.c). */
module Elf {
  import opened Bits
  import opened Bytes
  import opened Struct

  const KERNEL_PHYSICAL: nat := 0x200000
  const KERNEL_VMA: nat := 0xffff_ffff_8010_0000
  const HEADER_SIZE: nat := 64
  const PHDR_SIZE: nat := 56
  const PHDR_LOAD: nat := 1

  datatype Header = Header(
    ident: seq<byte>, kind: nat, machine: nat, version: nat, entry: nat, phoff: nat, ehsize: nat, phentsize: nat,
      phnum: nat)

  datatype Program = Program(
    kind: nat, offset: nat, virtual: nat, physical: nat, fileSize: nat, memorySize: nat, alignment: nat)

  function DecodeHeader(b: seq<byte>): (h: Header)
    requires |b| == HEADER_SIZE
    ensures h.entry < B64 && h.phoff < B64 && h.phnum < B16 && |h.ident| == 16
  {
    Header(b[..16], U16(b[16..18]), U16(b[18..20]), U32(b[20..24]), U64(b[24..32]), U64(b[32..40]), U16(b[52..54]),
           U16(b[54..56]), U16(b[56..58]))
  }

  function DecodeProgram(b: seq<byte>): (p: Program)
    requires |b| == PHDR_SIZE
    ensures p.offset < B64 && p.virtual < B64 && p.physical < B64 && p.fileSize < B64 && p.memorySize < B64
            && p.alignment < B64
  {
    Program(U32(b[..4]), U64(b[8..16]), U64(b[16..24]), U64(b[24..32]), U64(b[32..40]), U64(b[40..48]), U64(b[48..56]))
  }

  predicate HeaderOk(image: seq<byte>) {
    && |image| >= HEADER_SIZE
    && var h := DecodeHeader(image[..HEADER_SIZE]);
       && h.ident[..7] == [0x7f, 0x45, 0x4c, 0x46, 2, 1, 1]
       && h.kind == 2 && h.machine == 0x3e && h.version == 1
       && h.ehsize == HEADER_SIZE && h.phentsize == PHDR_SIZE && h.phnum != 0
       && h.phoff + PHDR_SIZE * h.phnum <= |image|
  }

  /** The program headers of an image with a sound header. */
  function Programs(image: seq<byte>): (ps: seq<Program>)
    requires HeaderOk(image)
    ensures |ps| == DecodeHeader(image[..HEADER_SIZE]).phnum
  {
    var h := DecodeHeader(image[..HEADER_SIZE]);
    seq(h.phnum,
        i requires 0 <= i < h.phnum =>
          DecodeProgram(image[h.phoff + i * PHDR_SIZE..h.phoff + i * PHDR_SIZE + PHDR_SIZE]))
  }

  function Entry(image: seq<byte>): nat
    requires HeaderOk(image)
  {
    DecodeHeader(image[..HEADER_SIZE]).entry
  }

  predicate PowerOfTwo(n: nat) { n > 0 && And(n, n - 1) == 0 }

  /** The header that is accepted: an ELF file of 64-bit words, lowest byte first, version 1; an executable for
      x86-64; with a header of 64 bytes and program headers of 56 bytes, at least one, all inside the image. */
  lemma HeaderAccepted(image: seq<byte>)
    ensures HeaderOk(image) <==>
            && |image| >= 64
            && image[0] == 0x7f && image[1] == 0x45 && image[2] == 0x4c && image[3] == 0x46
            && image[4] == 2 && image[5] == 1 && image[6] == 1
            && Value(image[16..18]) == 2 && Value(image[18..20]) == 62 && Value(image[20..24]) == 1
            && Value(image[52..54]) == 64 && Value(image[54..56]) == 56
            && 1 <= Value(image[56..58]) && Value(image[32..40]) + 56 * Value(image[56..58]) <= |image|
  {
    if |image| >= 64 {
      var b := image[..64];
      assert b[..16] == image[..16] && b[..16][..7] == image[..7] && b[16..18] == image[16..18];
      assert b[18..20] == image[18..20] && b[20..24] == image[20..24] && b[32..40] == image[32..40];
      assert b[52..54] == image[52..54] && b[54..56] == image[54..56] && b[56..58] == image[56..58];
      Value16(image[16..18]);
      Value16(image[18..20]);
      Value32(image[20..24]);
      Value64(image[32..40]);
      Value16(image[52..54]);
      Value16(image[54..56]);
      Value16(image[56..58]);
      hide Value;
      hide U16;
      hide U32;
      hide U64;
      assert image[..7] == [0x7f, 0x45, 0x4c, 0x46, 2, 1, 1] <==>
        image[0] == 0x7f && image[1] == 0x45 && image[2] == 0x4c && image[3] == 0x46
        && image[4] == 2 && image[5] == 1 && image[6] == 1;
    }
  }

  /** Segments of type 1 are loaded. */
  lemma LoadableIs(b: seq<byte>)
    requires |b| == 56
    ensures Loadable(DecodeProgram(b)) <==> Value(b[0..4]) == 1
  {
    Value32(b[0..4]);
    assert b[..4] == b[0..4];
    hide U32;
    hide Value;
  }

  lemma {:induction false} AndSame(a: nat)
    ensures And(a, a) == a
  {
    if a != 0 { AndSame(a / 2); }
  }

  /** The loader's test by masking finds exactly the powers of two. */
  lemma {:induction false} PowerOfTwoIs(n: nat)
    ensures PowerOfTwo(n) <==> exists k: nat :: n == Shl1(k)
  {
    if n == 0 {
      forall k: nat ensures Shl1(k) != 0 { ShlZero(1, k); }
    } else if n == 1 {
      assert Shl1(0) == 1;
    } else if n % 2 == 1 {
      AndSame(n / 2);
      assert And(n, n - 1) == 2 * And(n / 2, n / 2);
      forall k: nat ensures Shl1(k) != n { if k > 0 { assert Shl1(k) == 2 * Shl1(k - 1); } }
    } else {
      PowerOfTwoIs(n / 2);
      assert And(n, n - 1) == 2 * And(n / 2, n / 2 - 1);
      if k: nat :| n / 2 == Shl1(k) { assert n == Shl1(k + 1); }
      if k: nat :| n == Shl1(k) { assert k > 0 && n / 2 == Shl1(k - 1); }
    }
  }

  /** A segment that fits the file, the allocated window and the address space. */
  predicate SegmentOk(p: Program, size: nat, window: nat) {
    && p.fileSize <= p.memorySize
    && p.offset + p.fileSize <= size
    && KERNEL_PHYSICAL <= p.physical
    && p.physical + p.memorySize < B64
    && p.physical + p.memorySize - KERNEL_PHYSICAL <= window
    && p.virtual + p.memorySize < B64
    && (p.alignment > 1 ==> PowerOfTwo(p.alignment) && p.physical % p.alignment == p.offset % p.alignment)
  }

  predicate Loadable(p: Program) { p.kind == PHDR_LOAD }

  predicate Holds(p: Program, address: nat) { p.virtual <= address < p.virtual + p.memorySize }

  /** The addresses of a segment are those of its bytes. */
  lemma HoldsIs(p: Program, address: nat)
    ensures Holds(p, address) <==> exists i: nat :: i < p.memorySize && address == ByteAddress(p, i)
  {
    if Holds(p, address) { assert address == ByteAddress(p, address - p.virtual); }
  }

  function ByteAddress(p: Program, i: nat): nat { p.virtual + i }

  /** Exactly the images that `load_kernel` accepts. */
  predicate ImageOk(image: seq<byte>, window: nat) {
    && HeaderOk(image)
    && (forall i :: 0 <= i < |Programs(image)| && Loadable(Programs(image)[i]) ==>
          SegmentOk(Programs(image)[i], |image|, window))
    && (exists i :: 0 <= i < |Programs(image)| && Loadable(Programs(image)[i])
          && Holds(Programs(image)[i], Entry(image)))
  }

  /** The bytes of a segment in memory: its part of the file, then zeros. */
  function SegmentBytes(p: Program, image: seq<byte>): (b: seq<byte>)
    requires p.fileSize <= p.memorySize && p.offset + p.fileSize <= |image|
    ensures |b| == p.memorySize
  {
    image[p.offset..p.offset + p.fileSize] + Zeros(p.memorySize - p.fileSize)
  }

  /** No two load segments share a physical address. */
  predicate Disjoint(ps: seq<Program>) {
    forall i, j :: 0 <= i < j < |ps| && Loadable(ps[i]) && Loadable(ps[j]) ==>
      ps[i].physical + ps[i].memorySize <= ps[j].physical || ps[j].physical + ps[j].memorySize <= ps[i].physical
  }

  /** Segments that are not empty are disjoint exactly when no byte belongs to two of them. */
  lemma DisjointIs(ps: seq<Program>)
    requires forall i :: 0 <= i < |ps| ==> ps[i].memorySize > 0
    ensures Disjoint(ps) <==>
            forall i, j, x: nat :: 0 <= i < j < |ps| && Loadable(ps[i]) && Loadable(ps[j]) ==>
              !(InSegment(ps[i], x) && InSegment(ps[j], x))
  {
    if forall i, j, x: nat :: 0 <= i < j < |ps| && Loadable(ps[i]) && Loadable(ps[j]) ==>
         !(InSegment(ps[i], x) && InSegment(ps[j], x))
    {
      forall i, j | 0 <= i < j < |ps| && Loadable(ps[i]) && Loadable(ps[j])
        ensures ps[i].physical + ps[i].memorySize <= ps[j].physical
                || ps[j].physical + ps[j].memorySize <= ps[i].physical
      {
        var x := if ps[i].physical < ps[j].physical then ps[j].physical else ps[i].physical;
        assert !(InSegment(ps[i], x) && InSegment(ps[j], x));
      }
    }
  }

  predicate InSegment(p: Program, x: nat) { p.physical <= x < p.physical + p.memorySize }

  /** A segment that runs where it was linked. */
  predicate RunsWhereLinked(p: Program) {
    KERNEL_VMA <= p.virtual && p.physical == p.virtual - KERNEL_VMA + KERNEL_PHYSICAL
  }

  // ---------------------------------------------------------------------------------------------
  // The layout of the records
  // ---------------------------------------------------------------------------------------------

  /** e_ident, e_type, e_machine, e_version, e_entry, e_phoff, e_shoff, e_flags, e_ehsize, e_phentsize,
      e_phnum, e_shentsize, e_shnum, e_shstrndx */
  function HeaderFields(h: Header, shoff: nat, flags: nat, shentsize: nat, shnum: nat, shstrndx: nat): seq<Field> {
    [Raw(h.ident), Number(2, h.kind), Number(2, h.machine), Number(4, h.version), Number(8, h.entry),
     Number(8, h.phoff), Number(8, shoff), Number(4, flags), Number(2, h.ehsize), Number(2, h.phentsize),
     Number(2, h.phnum), Number(2, shentsize), Number(2, shnum), Number(2, shstrndx)]
  }

  lemma HeaderFieldsAre(h: Header, shoff: nat, flags: nat, shentsize: nat, shnum: nat, shstrndx: nat)
    ensures var f := HeaderFields(h, shoff, flags, shentsize, shnum, shstrndx);
            && |f| == 14
            && f[0] == Raw(h.ident) && f[1] == Number(2, h.kind) && f[2] == Number(2, h.machine)
            && f[3] == Number(4, h.version) && f[4] == Number(8, h.entry) && f[5] == Number(8, h.phoff)
            && f[6] == Number(8, shoff) && f[7] == Number(4, flags) && f[8] == Number(2, h.ehsize)
            && f[9] == Number(2, h.phentsize) && f[10] == Number(2, h.phnum) && f[11] == Number(2, shentsize)
            && f[12] == Number(2, shnum) && f[13] == Number(2, shstrndx)
  {
  }

  /** The file header of ELF-64. */
  lemma HeaderLayout(b: seq<byte>)
    requires |b| == HEADER_SIZE
    ensures Record(b, HeaderFields(DecodeHeader(b), U64(b[40..48]), U32(b[48..52]), U16(b[58..60]), U16(b[60..62]),
                                   U16(b[62..64])))
  {
    hide U16;
    hide U32;
    hide U64;
    hide Record;
    hide HeaderFields;
    HeaderFieldsAre(DecodeHeader(b), U64(b[40..48]), U32(b[48..52]), U16(b[58..60]), U16(b[60..62]), U16(b[62..64]));
    var f := HeaderFields(DecodeHeader(b), U64(b[40..48]), U32(b[48..52]), U16(b[58..60]), U16(b[60..62]),
                          U16(b[62..64]));
    RecordEnd(b, f);
    At16(b, f, 13, 62, 64);
    At16(b, f, 12, 60, 62);
    At16(b, f, 11, 58, 60);
    At16(b, f, 10, 56, 58);
    At16(b, f, 9, 54, 56);
    At16(b, f, 8, 52, 54);
    At32(b, f, 7, 48, 52);
    At64(b, f, 6, 40, 48);
    At64(b, f, 5, 32, 40);
    At64(b, f, 4, 24, 32);
    At32(b, f, 3, 20, 24);
    At16(b, f, 2, 18, 20);
    At16(b, f, 1, 16, 18);
    assert b[..16] == b[0..16];
    AtRaw(b, f, 0, 0, 16);
    assert b[0..] == b && f[0..] == f;
  }

  /** A program header of ELF-64: p_type, p_flags, p_offset, p_vaddr, p_paddr, p_filesz, p_memsz, p_align. */
  lemma ProgramLayout(b: seq<byte>)
    requires |b| == PHDR_SIZE
    ensures var p := DecodeProgram(b);
            Record(b, [Number(4, p.kind), Number(4, U32(b[4..8])), Number(8, p.offset), Number(8, p.virtual),
                       Number(8, p.physical), Number(8, p.fileSize), Number(8, p.memorySize), Number(8, p.alignment)])
  {
    hide U32;
    hide U64;
    hide Record;
    var p := DecodeProgram(b);
    var f := [Number(4, p.kind), Number(4, U32(b[4..8])), Number(8, p.offset), Number(8, p.virtual),
              Number(8, p.physical), Number(8, p.fileSize), Number(8, p.memorySize), Number(8, p.alignment)];
    RecordEnd(b, f);
    At64(b, f, 7, 48, 56);
    At64(b, f, 6, 40, 48);
    At64(b, f, 5, 32, 40);
    At64(b, f, 4, 24, 32);
    At64(b, f, 3, 16, 24);
    At64(b, f, 2, 8, 16);
    At32(b, f, 1, 4, 8);
    assert b[..4] == b[0..4];
    At32(b, f, 0, 0, 4);
    assert b[0..] == b && f[0..] == f;
  }
}
