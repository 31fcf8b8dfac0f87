/** The CRC-32 of RFC 1952, section 8, as kernel/core/account.c, kernel/core/qfs2.c and Python's
    zlib compute it, and the corruptions it detects. */
module Crc32 {
  import opened Bits
  import opened Bytes

  const POLYNOMIAL: nat := 0xedb88320
  const ONES: nat := 0xffff_ffff

  /** One bit of the reflected division. */
  function StepBit(c: nat): nat {
    Xor(c / 2, if c % 2 == 1 then POLYNOMIAL else 0)
  }

  function Steps(c: nat, n: nat): nat {
    if n == 0 then c else StepBit(Steps(c, n - 1))
  }

  function StepByte(c: nat, b: byte): nat { Steps(Xor(c, b), 8) }

  /** The register after all bytes of `data`. */
  function Register(c: nat, data: seq<byte>): nat {
    if data == [] then c else StepByte(Register(c, data[..|data| - 1]), data[|data| - 1])
  }

  function Crc(data: seq<byte>): (r: nat)
    ensures r < B32
  {
    RegisterBound(ONES, data);
    ONES - Register(ONES, data)
  }

  /** `crc32`: the table-free loops of the kernel. */
  method Checksum(data: seq<byte>, length: nat) returns (r: nat)
    requires length <= |data|
    ensures r == Crc(data[..length])
  {
    var crc: nat := ONES;
    var index := 0;
    while index < length
      invariant 0 <= index <= length
      invariant crc == Register(ONES, data[..index])
    {
      ghost var before := Xor(crc, data[index]);
      crc := Xor(crc, data[index]);
      var bit := 0;
      while bit < 8
        invariant 0 <= bit <= 8
        invariant crc == Steps(before, bit)
      {
        MaskIsChoice(crc);
        crc := Xor(crc / 2, And(POLYNOMIAL, (B32 - crc % 2) % B32));
        bit := bit + 1;
      }
      assert data[..index + 1][..index] == data[..index];
      index := index + 1;
    }
    RegisterBound(ONES, data[..length]);
    r := ONES - crc;
  }

  lemma StepBitBound(c: nat)
    requires c < B32
    ensures StepBit(c) < B32
  {
    Shl1At32();
    XorBound(c / 2, if c % 2 == 1 then POLYNOMIAL else 0, 32);
  }

  lemma {:induction false} StepsBound(c: nat, n: nat)
    requires c < B32
    ensures Steps(c, n) < B32
  {
    if n > 0 {
      StepsBound(c, n - 1);
      StepBitBound(Steps(c, n - 1));
    }
  }

  lemma {:induction false} RegisterBound(c: nat, data: seq<byte>)
    requires c < B32
    ensures Register(c, data) < B32
  {
    if data != [] {
      var r := Register(c, data[..|data| - 1]);
      RegisterBound(c, data[..|data| - 1]);
      Shl1At32();
      XorBound(r, data[|data| - 1], 32);
      StepsBound(Xor(r, data[|data| - 1]), 8);
    }
  }

  /** The kernel's branch-free mask selects the polynomial exactly when the low bit is set. */
  lemma MaskIsChoice(c: nat)
    ensures StepBit(c) == Xor(c / 2, And(POLYNOMIAL, (B32 - c % 2) % B32))
  {
    if c % 2 == 1 {
      Shl1At32();
      AndOnes(POLYNOMIAL, 32);
    }
  }

  /** The polynomial's top bit is set and a shifted word's is not, so a step loses nothing. */
  lemma StepBitInjective(c: nat, d: nat)
    requires c < B32 && d < B32 && StepBit(c) == StepBit(d)
    ensures c == d
  {
    var p, q := if c % 2 == 1 then POLYNOMIAL else 0, if d % 2 == 1 then POLYNOMIAL else 0;
    XorBit(c / 2, p, 31);
    XorBit(d / 2, q, 31);
    Shl1At32();
    SmallBit(c / 2, 31);
    SmallBit(d / 2, 31);
    ZeroBit(31);
    TopBit();
    assert p == q;
    XorCancel(c / 2, d / 2, p);
  }

  lemma TopBit()
    ensures Bit(POLYNOMIAL, 31)
  {
    BitFour(0xedb88320, 27);
    BitFour(0xedb8832, 23);
    BitFour(0xedb883, 19);
    BitFour(0xedb88, 15);
    BitFour(0xedb8, 11);
    BitFour(0xedb, 7);
    BitFour(0xed, 3);
  }

  lemma {:induction false} StepsInjective(c: nat, d: nat, n: nat)
    requires c < B32 && d < B32 && Steps(c, n) == Steps(d, n)
    ensures c == d
  {
    if n > 0 {
      StepsBound(c, n - 1);
      StepsBound(d, n - 1);
      StepBitInjective(Steps(c, n - 1), Steps(d, n - 1));
      StepsInjective(c, d, n - 1);
    }
  }

  lemma {:induction false} RegisterInjective(c: nat, d: nat, data: seq<byte>)
    requires c < B32 && d < B32 && Register(c, data) == Register(d, data)
    ensures c == d
  {
    if data != [] {
      var init, last := data[..|data| - 1], data[|data| - 1];
      RegisterBound(c, init);
      RegisterBound(d, init);
      Shl1At32();
      XorBound(Register(c, init), last, 32);
      XorBound(Register(d, init), last, 32);
      StepsInjective(Xor(Register(c, init), last), Xor(Register(d, init), last), 8);
      XorCancel(Register(c, init), Register(d, init), last);
      RegisterInjective(c, d, init);
    }
  }

  lemma {:induction false} RegisterAppend(c: nat, a: seq<byte>, b: seq<byte>)
    ensures Register(c, a + b) == Register(Register(c, a), b)
  {
    if b == [] {
      assert a + b == a;
    } else {
      assert (a + b)[..|a + b| - 1] == a + b[..|b| - 1];
      RegisterAppend(c, a, b[..|b| - 1]);
    }
  }

  // ---------------------------------------------------------------------------------------------
  // Bursts of up to 32 bits
  // ---------------------------------------------------------------------------------------------

  lemma XorSwap(a: nat, b: nat, c: nat, d: nat)
    ensures Xor(Xor(a, b), Xor(c, d)) == Xor(Xor(a, c), Xor(b, d))
  {
    XorAssoc(a, b, Xor(c, d));
    XorAssoc(b, c, d);
    XorComm(b, c);
    XorAssoc(c, b, d);
    XorAssoc(a, c, Xor(b, d));
  }

  lemma StepBitLinear(c: nat, d: nat)
    ensures StepBit(Xor(c, d)) == Xor(StepBit(c), StepBit(d))
  {
    var p, q := if c % 2 == 1 then POLYNOMIAL else 0, if d % 2 == 1 then POLYNOMIAL else 0;
    XorParts(c, d);
    XorSelf(POLYNOMIAL);
    XorSwap(c / 2, p, d / 2, q);
  }

  lemma {:induction false} StepsLinear(c: nat, d: nat, n: nat)
    ensures Steps(Xor(c, d), n) == Xor(Steps(c, n), Steps(d, n))
  {
    if n > 0 {
      StepsLinear(c, d, n - 1);
      StepBitLinear(Steps(c, n - 1), Steps(d, n - 1));
    }
  }

  lemma {:induction false} StepsZero(n: nat)
    ensures Steps(0, n) == 0
  {
    if n > 0 { StepsZero(n - 1); }
  }

  /** `n` steps move bits that are not among the lowest `n` down by `n` places. */
  lemma {:induction false} StepsShift(w: nat, n: nat)
    ensures Steps(Shl(w, n), n) == w
    decreases n
  {
    if n > 0 {
      ShlTwice(w, 1, n - 1);
      assert Shl(w, 1) == 2 * w;
      StepsShift(2 * w, n - 1);
    }
  }

  /** Feeding one byte is a step by a word whose other bytes are zero, so the difference between
      two registers evolves by itself. */
  lemma Difference(c: nat, d: nat, x: byte, y: byte)
    ensures Xor(StepByte(c, x), StepByte(d, y)) == Steps(Xor(Xor(c, d), Xor(x, y)), 8)
  {
    StepsLinear(Xor(c, x), Xor(d, y), 8);
    XorSwap(c, x, d, y);
  }

  /** The bytewise differences of two equally long sequences, as one little-endian number. */
  function Delta(x: seq<byte>, y: seq<byte>): nat
    requires |x| == |y|
  {
    if x == [] then 0
    else
      var n := |x| - 1;
      Xor(Shl(Xor(x[n], y[n]), 8 * n), Delta(x[..n], y[..n]))
  }

  lemma {:induction false} DeltaBound(x: seq<byte>, y: seq<byte>)
    requires |x| == |y|
    ensures Delta(x, y) < Shl1(8 * |x|)
    ensures Delta(x, y) == 0 ==> x == y
  {
    if x != [] {
      var n := |x| - 1;
      var d, rest := Xor(x[n], y[n]), Delta(x[..n], y[..n]);
      DeltaBound(x[..n], y[..n]);
      ByteXor(x[n], y[n]);
      XorDisjoint(d, rest, 8 * n);
      HighByte(d, rest, 8 * n);
      hide Xor;
      hide Shl;
      assert Delta(x, y) == Shl(d, 8 * n) + rest;
      if Delta(x, y) == 0 {
        assert x == x[..n] + [x[n]] && y == y[..n] + [y[n]];
      }
    }
  }

  lemma Eight()
    ensures Shl1(8) == 256
  {
  }

  lemma ByteXor(x: byte, y: byte)
    ensures Xor(x, y) < 256
    ensures Xor(x, y) == 0 ==> x == y
  {
    Eight();
    XorBound(x, y, 8);
    if Xor(x, y) == 0 {
      XorSelf(y);
      XorCancel(x, y, y);
    }
  }

  lemma HighByte(d: nat, rest: nat, k: nat)
    requires d < 256 && rest < Shl1(k)
    ensures Shl(d, k) + rest < Shl1(k + 8)
    ensures Shl(d, k) + rest == 0 ==> d == 0 && rest == 0
  {
    hide Shl;
    ShlTwice(1, 8, k);
    Eight();
    ShlPlus(d, 255 - d, k);
    ShlPlus(255, 1, k);
    ShlZero(d, k);
  }

  /** From one register, two byte strings lead to registers that differ by the division of their
      difference. */
  lemma {:induction false} RegistersDiffer(c: nat, x: seq<byte>, y: seq<byte>)
    requires |x| == |y|
    ensures Xor(Register(c, x), Register(c, y)) == Steps(Delta(x, y), 8 * |x|)
  {
    hide Xor;
    hide Shl;
    hide Steps;
    if x == [] {
      XorSelf(c);
      StepsZero(0);
    } else {
      var n := |x| - 1;
      var d, rest := Xor(x[n], y[n]), Delta(x[..n], y[..n]);
      RegistersDiffer(c, x[..n], y[..n]);
      Difference(Register(c, x[..n]), Register(c, y[..n]), x[n], y[n]);
      StepsShift(d, 8 * n);
      StepsLinear(Shl(d, 8 * n), rest, 8 * n);
      XorComm(Steps(rest, 8 * n), d);
      StepsAdd(Delta(x, y), 8 * n, 8);
    }
  }

  lemma {:induction false} StepsAdd(c: nat, m: nat, n: nat)
    ensures Steps(Steps(c, m), n) == Steps(c, m + n)
  {
    if n > 0 { StepsAdd(c, m, n - 1); }
  }

  lemma BurstRegisters(c: nat, x: seq<byte>, y: seq<byte>)
    requires |x| == |y| <= 4 && Register(c, x) == Register(c, y)
    ensures x == y
  {
    RegistersDiffer(c, x, y);
    XorSelf(Register(c, x));
    DeltaBound(x, y);
    Shl1At32();
    Shl1Grows(8 * |x|, 32);
    StepsZero(8 * |x|);
    StepsInjective(Delta(x, y), 0, 8 * |x|);
  }

  /** Any change confined to four consecutive bytes changes the checksum. */
  lemma DetectsBurst(before: seq<byte>, x: seq<byte>, y: seq<byte>, after: seq<byte>)
    requires |x| == |y| <= 4 && x != y
    ensures Crc(before + x + after) != Crc(before + y + after)
  {
    RegisterBound(ONES, before + x + after);
    RegisterBound(ONES, before + y + after);
    if Crc(before + x + after) == Crc(before + y + after) {
      RegisterAppend(ONES, before + x, after);
      RegisterAppend(ONES, before + y, after);
      RegisterBound(ONES, before + x);
      RegisterBound(ONES, before + y);
      RegisterInjective(Register(ONES, before + x), Register(ONES, before + y), after);
      RegisterAppend(ONES, before, x);
      RegisterAppend(ONES, before, y);
      BurstRegisters(Register(ONES, before), x, y);
    }
  }

  /** The same for two images that agree outside a window of four bytes. */
  lemma DetectsWindow(a: seq<byte>, b: seq<byte>, at: nat)
    requires |a| == |b| && a != b
    requires forall i :: 0 <= i < |a| && !(at <= i < at + 4) ==> a[i] == b[i]
    ensures Crc(a) != Crc(b)
  {
    var lo := if at < |a| then at else |a|;
    var hi := if at + 4 < |a| then at + 4 else |a|;
    assert a == a[..lo] + a[lo..hi] + a[hi..];
    assert b == a[..lo] + b[lo..hi] + a[hi..];
    DetectsBurst(a[..lo], a[lo..hi], b[lo..hi], a[hi..]);
  }

  // ---------------------------------------------------------------------------------------------
  // Records that carry their own checksum
  // ---------------------------------------------------------------------------------------------

  /** `data` is a record followed by the little-endian checksum of that record. */
  predicate Sealed(data: seq<byte>) {
    |data| >= 4 && U32(data[|data| - 4..]) == Crc(data[..|data| - 4])
  }

  function RESIDUE(): nat { Steps(ONES, 32) }

  lemma {:induction false} XorOnes(a: nat, k: nat)
    requires a < Shl1(k)
    ensures Xor(a, Shl1(k) - 1 - a) == Shl1(k) - 1
  {
    if k > 0 {
      var m := Shl1(k - 1);
      assert (Shl1(k) - 1 - a) / 2 == m - 1 - a / 2;
      XorOnes(a / 2, k - 1);
      XorParts(a, Shl1(k) - 1 - a);
    }
  }

  lemma DeltaZeros(x: seq<byte>)
    requires |x| == 4
    ensures Delta(x, Zeros(4)) == U32(x)
  {
    var z := Zeros(4);
    assert z == [0, 0, 0, 0];
    DeltaStep(x[..1], z[..1]);
    DeltaStep(x[..2], z[..2]);
    DeltaStep(x[..3], z[..3]);
    DeltaStep(x, z);
    assert x[..2][..1] == x[..1] && x[..3][..2] == x[..2] && x[..1][..0] == [];
    assert z[..2][..1] == z[..1] && z[..3][..2] == z[..2] && z[..1][..0] == [];
    DeltaEmpty(x[..1][..0], z[..1][..0]);
    PlaceValues(x[0], x[1], x[2], x[3]);
    hide Delta;
    hide Shl;
  }

  lemma PlaceValues(a: byte, b: byte, c: byte, d: byte)
    ensures Shl(a, 0) == a && Shl(b, 8) == b * 0x100
    ensures Shl(c, 16) == c * 0x1_0000 && Shl(d, 24) == d * 0x100_0000
  {
    assert Shl1(8) == 0x100;
    assert Shl1(16) == 0x1_0000;
    assert Shl1(24) == 0x100_0000;
    ShlProduct(b, 8);
    ShlProduct(c, 16);
    ShlProduct(d, 24);
  }

  lemma DeltaEmpty(x: seq<byte>, y: seq<byte>)
    requires x == [] && y == []
    ensures Delta(x, y) == 0
  {
  }

  lemma DeltaStep(x: seq<byte>, y: seq<byte>)
    requires |x| == |y| > 0 && y[|x| - 1] == 0
    ensures Delta(x, y) == Shl(x[|x| - 1], 8 * (|x| - 1)) + Delta(x[..|x| - 1], y[..|x| - 1])
  {
    var n := |x| - 1;
    DeltaBound(x[..n], y[..n]);
    XorDisjoint(x[n], Delta(x[..n], y[..n]), 8 * n);
    assert Xor(x[n], 0) == x[n];
  }

  lemma RegisterZeros(c: nat)
    ensures Register(c, Zeros(4)) == Steps(c, 32)
  {
    var z := Zeros(4);
    assert z == [0, 0, 0, 0];
    assert z[..3][..2] == z[..2] && z[..2][..1] == z[..1] && z[..1][..0] == [];
    hide Steps;
    assert Register(c, z[..1]) == Steps(c, 8);
    assert Register(c, z[..2]) == Steps(Steps(c, 8), 8);
    assert Register(c, z[..3]) == Steps(Steps(Steps(c, 8), 8), 8);
    assert z[..4] == z;
    StepsAdd(c, 8, 8);
    StepsAdd(c, 16, 8);
    StepsAdd(c, 24, 8);
  }

  /** Four bytes enter the register as one word. */
  lemma RegisterWord(c: nat, x: seq<byte>)
    requires |x| == 4
    ensures Register(c, x) == Steps(Xor(c, U32(x)), 32)
  {
    var z := Zeros(4);
    hide Register;
    RegistersDiffer(c, x, z);
    DeltaZeros(x);
    RegisterZeros(c);
    StepsLinear(c, U32(x), 32);
    var a, b := Register(c, x), Register(c, z);
    XorAssoc(a, b, b);
    XorSelf(b);
    XorComm(Steps(U32(x), 32), b);
  }

  /** A sealed record leaves a register that does not depend on the record. */
  lemma SealedIsResidue(data: seq<byte>)
    requires |data| >= 4
    ensures Sealed(data) <==> Register(ONES, data) == RESIDUE()
  {
    hide Steps;
    hide Xor;
    hide Register;
    var n := |data| - 4;
    var head, tail := data[..n], data[n..];
    var c := Register(ONES, head);
    assert data == head + tail;
    RegisterAppend(ONES, head, tail);
    RegisterBound(ONES, head);
    RegisterWord(c, tail);
    WordSeals(c, U32(tail));
  }

  /** A word takes the register to the residue exactly when it is the register's complement. */
  lemma WordSeals(c: nat, w: nat)
    requires c < B32 && w < B32
    ensures Steps(Xor(c, w), 32) == RESIDUE() <==> w == ONES - c
  {
    hide Steps;
    hide Xor;
    ComplementIsOnes(c);
    if Steps(Xor(c, w), 32) == RESIDUE() { ResidueIsComplement(c, w); }
  }

  lemma ComplementIsOnes(c: nat)
    requires c < B32
    ensures Xor(c, ONES - c) == ONES
  {
    Shl1At32();
    XorOnes(c, 32);
    hide Xor;
  }

  lemma ResidueIsComplement(c: nat, w: nat)
    requires c < B32 && w < B32 && Steps(Xor(c, w), 32) == RESIDUE()
    ensures w == ONES - c
  {
    hide Steps;
    hide Xor;
    hide Shl;
    Shl1At32();
    XorBound(c, w, 32);
    StepsInjective(Xor(c, w), ONES, 32);
    ComplementIsOnes(c);
    XorComm(c, w);
    XorComm(c, ONES - c);
    XorCancel(w, ONES - c, c);
  }

  /** No change within four consecutive bytes, of the record or of its checksum or across both,
      turns one sealed record into another. */
  lemma SealBreaks(a: seq<byte>, b: seq<byte>, at: nat)
    requires |a| == |b| && a != b && Sealed(a)
    requires forall i :: 0 <= i < |a| && !(at <= i < at + 4) ==> a[i] == b[i]
    ensures !Sealed(b)
  {
    DetectsWindow(a, b, at);
    RegisterBound(ONES, a);
    RegisterBound(ONES, b);
    SealedIsResidue(a);
    SealedIsResidue(b);
  }
}
