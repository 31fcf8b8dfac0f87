/** SHA-256: the functions, constants, padding and hash computation of FIPS 180-4 (sections 4.1.2,
    4.2.2, 5.1.1, 5.3.3 and 6.2.2), and the single-loop implementation of kernel/core/account.c. */
module Sha256 {
  import opened Bits
  import opened Bytes

  // ---------------------------------------------------------------------------------------------
  // The standard
  // ---------------------------------------------------------------------------------------------

  const ONES: nat := 0xffff_ffff

  function Add(a: nat, b: nat): (r: nat)
    ensures r < B32
  {
    (a + b) % B32
  }

  /** Section 3.2: circular right shift of a 32-bit word. */
  function RotateRight(x: nat, n: nat): nat
    requires n <= 32
  {
    Or(Shr(x, n), Shl(x, 32 - n) % B32)
  }

  function Choose(x: nat, y: nat, z: nat): nat
    requires x <= ONES
  {
    Xor(And(x, y), And(ONES - x, z))
  }

  function Majority(x: nat, y: nat, z: nat): nat { Xor(Xor(And(x, y), And(x, z)), And(y, z)) }

  function BigSigma0(x: nat): nat { Xor(Xor(RotateRight(x, 2), RotateRight(x, 13)), RotateRight(x, 22)) }

  function BigSigma1(x: nat): nat { Xor(Xor(RotateRight(x, 6), RotateRight(x, 11)), RotateRight(x, 25)) }

  function SmallSigma0(x: nat): nat { Xor(Xor(RotateRight(x, 7), RotateRight(x, 18)), Shr(x, 3)) }

  function SmallSigma1(x: nat): nat { Xor(Xor(RotateRight(x, 17), RotateRight(x, 19)), Shr(x, 10)) }

  /** The first 64 prime numbers. */
  function Prime(t: nat): nat
    requires t < 64
  {
    match t
    case 0 => 2 case 1 => 3 case 2 => 5 case 3 => 7 case 4 => 11 case 5 => 13 case 6 => 17 case 7 => 19
    case 8 => 23 case 9 => 29 case 10 => 31 case 11 => 37 case 12 => 41 case 13 => 43 case 14 => 47 case 15 => 53
    case 16 => 59 case 17 => 61 case 18 => 67 case 19 => 71 case 20 => 73 case 21 => 79 case 22 => 83 case 23 => 89
    case 24 => 97 case 25 => 101 case 26 => 103 case 27 => 107 case 28 => 109 case 29 => 113 case 30 => 127
    case 31 => 131
    case 32 => 137 case 33 => 139 case 34 => 149 case 35 => 151 case 36 => 157 case 37 => 163 case 38 => 167
    case 39 => 173
    case 40 => 179 case 41 => 181 case 42 => 191 case 43 => 193 case 44 => 197 case 45 => 199 case 46 => 211
    case 47 => 223
    case 48 => 227 case 49 => 229 case 50 => 233 case 51 => 239 case 52 => 241 case 53 => 251 case 54 => 257
    case 55 => 263
    case 56 => 269 case 57 => 271 case 58 => 277 case 59 => 281 case 60 => 283 case 61 => 293 case 62 => 307
    case _ => 311
  }

  /** `constants[t]` */
  function Constant(t: nat): nat
    requires t < 64
  {
    match t
    case 0 => 0x428a2f98 case 1 => 0x71374491 case 2 => 0xb5c0fbcf case 3 => 0xe9b5dba5
    case 4 => 0x3956c25b case 5 => 0x59f111f1 case 6 => 0x923f82a4 case 7 => 0xab1c5ed5
    case 8 => 0xd807aa98 case 9 => 0x12835b01 case 10 => 0x243185be case 11 => 0x550c7dc3
    case 12 => 0x72be5d74 case 13 => 0x80deb1fe case 14 => 0x9bdc06a7 case 15 => 0xc19bf174
    case 16 => 0xe49b69c1 case 17 => 0xefbe4786 case 18 => 0x0fc19dc6 case 19 => 0x240ca1cc
    case 20 => 0x2de92c6f case 21 => 0x4a7484aa case 22 => 0x5cb0a9dc case 23 => 0x76f988da
    case 24 => 0x983e5152 case 25 => 0xa831c66d case 26 => 0xb00327c8 case 27 => 0xbf597fc7
    case 28 => 0xc6e00bf3 case 29 => 0xd5a79147 case 30 => 0x06ca6351 case 31 => 0x14292967
    case 32 => 0x27b70a85 case 33 => 0x2e1b2138 case 34 => 0x4d2c6dfc case 35 => 0x53380d13
    case 36 => 0x650a7354 case 37 => 0x766a0abb case 38 => 0x81c2c92e case 39 => 0x92722c85
    case 40 => 0xa2bfe8a1 case 41 => 0xa81a664b case 42 => 0xc24b8b70 case 43 => 0xc76c51a3
    case 44 => 0xd192e819 case 45 => 0xd6990624 case 46 => 0xf40e3585 case 47 => 0x106aa070
    case 48 => 0x19a4c116 case 49 => 0x1e376c08 case 50 => 0x2748774c case 51 => 0x34b0bcb5
    case 52 => 0x391c0cb3 case 53 => 0x4ed8aa4a case 54 => 0x5b9cca4f case 55 => 0x682e6ff3
    case 56 => 0x748f82ee case 57 => 0x78a5636f case 58 => 0x84c87814 case 59 => 0x8cc70208
    case 60 => 0x90befffa case 61 => 0xa4506ceb case 62 => 0xbef9a3f7 case _ => 0xc67178f2
  }

  datatype Registers = Registers(a: nat, b: nat, c: nat, d: nat, e: nat, f: nat, g: nat, h: nat)

  predicate Words(r: Registers) {
    r.a < B32 && r.b < B32 && r.c < B32 && r.d < B32 && r.e < B32 && r.f < B32 && r.g < B32 && r.h < B32
  }

  const INITIAL: Registers :=
    Registers(0x6a09e667, 0xbb67ae85, 0x3c6ef372, 0xa54ff53a, 0x510e527f, 0x9b05688c, 0x1f83d9ab, 0x5be0cd19)

  /** A big-endian 32-bit word. */
  function Be32(n: nat): (b: seq<byte>)
    requires n < B32
    ensures |b| == 4
  {
    [n / 0x100_0000, n / 0x1_0000 % 256, n / 256 % 256, n % 256]
  }

  function U32Be(b: seq<byte>): (n: nat)
    requires |b| == 4
    ensures n < B32
  {
    (b[0] as nat) * 0x100_0000 + (b[1] as nat) * 0x1_0000 + (b[2] as nat) * 256 + (b[3] as nat)
  }

  function Be64(n: nat): (b: seq<byte>)
    requires n < B64
    ensures |b| == 8
  {
    Be32(n / B32) + Be32(n % B32)
  }

  function PadZeros(length: nat): (zeros: nat)
    ensures length + 1 + zeros + 8 == Padded(length)
    ensures zeros < 64 && (length + 1 + zeros) % 64 == 56
  {
    (119 - length % 64) % 64
  }

  /** The length of the padded message, as the code computes it. */
  function Padded(length: nat): nat { (length + 9 + 63) / 64 * 64 }

  /** Section 5.1.1: a one bit, the fewest zero bits that leave room for the bit length in the last
      eight bytes of a block, and the bit length. */
  function Pad(message: seq<byte>): (p: seq<byte>)
    requires 8 * |message| < B64
    ensures |p| == Padded(|message|)
  {
    message + [0x80] + Zeros(PadZeros(|message|)) + Be64(8 * |message|)
  }

  /** Section 6.2.2, step 1: the message schedule of a block. */
  function Schedule(block: seq<byte>, t: nat): (w: nat)
    requires |block| == 64 && t < 64
    ensures w < B32
  {
    if t < 16 then U32Be(block[4 * t..4 * t + 4])
    else
      Add(Add(Add(SmallSigma1(Schedule(block, t - 2)), Schedule(block, t - 7)), SmallSigma0(Schedule(block, t - 15))),
          Schedule(block, t - 16))
  }

  /** Section 6.2.2, step 3, for one `t`. */
  function Round(r: Registers, k: nat, w: nat): (s: Registers)
    requires Words(r)
    ensures Words(s)
  {
    var t1 := Add(Add(Add(Add(r.h, BigSigma1(r.e)), Choose(r.e, r.f, r.g)), k), w);
    var t2 := Add(BigSigma0(r.a), Majority(r.a, r.b, r.c));
    Registers(Add(t1, t2), r.a, r.b, r.c, Add(r.d, t1), r.e, r.f, r.g)
  }

  function Rounds(r: Registers, block: seq<byte>, t: nat): (s: Registers)
    requires Words(r) && |block| == 64 && t <= 64
    ensures Words(s)
  {
    if t == 0 then r else Round(Rounds(r, block, t - 1), Constant(t - 1), Schedule(block, t - 1))
  }

  function Sum(r: Registers, s: Registers): (t: Registers)
    ensures Words(t)
  {
    Registers(Add(r.a, s.a), Add(r.b, s.b), Add(r.c, s.c), Add(r.d, s.d), Add(r.e, s.e), Add(r.f, s.f), Add(r.g, s.g),
              Add(r.h, s.h))
  }

  function Compress(r: Registers, block: seq<byte>): (s: Registers)
    requires Words(r) && |block| == 64
    ensures Words(s)
  {
    Sum(r, Rounds(r, block, 64))
  }

  /** The hash value after the first `n` blocks. */
  function Blocks(padded: seq<byte>, n: nat): (r: Registers)
    requires 64 * n <= |padded|
    ensures Words(r)
  {
    if n == 0 then INITIAL else Compress(Blocks(padded, n - 1), padded[64 * (n - 1)..64 * n])
  }

  function Output(r: Registers): (b: seq<byte>)
    requires Words(r)
    ensures |b| == 32
  {
    Be32(r.a) + Be32(r.b) + Be32(r.c) + Be32(r.d) + Be32(r.e) + Be32(r.f) + Be32(r.g) + Be32(r.h)
  }

  function Digest(message: seq<byte>): (b: seq<byte>)
    requires 8 * |message| < B64
    ensures |b| == 32
  {
    Output(Blocks(Pad(message), |Pad(message)| / 64))
  }

  // ---------------------------------------------------------------------------------------------
  // The constants, the words and the rotation of the code
  // ---------------------------------------------------------------------------------------------

  function Cube(n: nat): nat { n * n * n }

  /** `k` is the first 32 bits of the fractional part of the cube root of `p`, whose integer part is
      `root`: the scaled root lies between two neighbouring integers. */
  predicate CubeRootBits(p: nat, k: nat, root: nat) {
    k < B32 && Cube(root * B32 + k) <= p * 0x1_0000_0000_0000_0000_0000_0000 < Cube(root * B32 + k + 1)
  }

  predicate SquareRootBits(p: nat, k: nat, root: nat) {
    k < B32 && (root * B32 + k) * (root * B32 + k) <= p * B64 < (root * B32 + k + 1) * (root * B32 + k + 1)
  }

  lemma RotateRightBit(x: nat, n: nat, i: nat)
    requires x < B32 && n <= 32 && i < 32
    ensures Bit(RotateRight(x, n), i) == Bit(x, (i + n) % 32)
  {
    hide Bit;
    hide Or;
    hide Shl;
    hide Shr;
    hide Low;
    OrBit(Shr(x, n), Shl(x, 32 - n) % B32, i);
    ShrBit(x, n, i);
    Low32(Shl(x, 32 - n));
    LowBit(Shl(x, 32 - n), 32, i);
    ShlBit(x, 32 - n, i);
    Shl1At32();
    if i + n >= 32 { HighBit(x, 32, i + n); }
  }

  /** The rotations of section 4.1.2, by bit number. */
  lemma BigSigmaBits(x: nat, i: nat)
    requires x < B32 && i < 32
    ensures Bit(BigSigma0(x), i) == (Bit(x, (i + 2) % 32) != (Bit(x, (i + 13) % 32) != Bit(x, (i + 22) % 32)))
    ensures Bit(BigSigma1(x), i) == (Bit(x, (i + 6) % 32) != (Bit(x, (i + 11) % 32) != Bit(x, (i + 25) % 32)))
  {
    hide Bit;
    hide Xor;
    hide RotateRight;
    XorBit(Xor(RotateRight(x, 2), RotateRight(x, 13)), RotateRight(x, 22), i);
    XorBit(RotateRight(x, 2), RotateRight(x, 13), i);
    XorBit(Xor(RotateRight(x, 6), RotateRight(x, 11)), RotateRight(x, 25), i);
    XorBit(RotateRight(x, 6), RotateRight(x, 11), i);
    RotateRightBit(x, 2, i);
    RotateRightBit(x, 13, i);
    RotateRightBit(x, 22, i);
    RotateRightBit(x, 6, i);
    RotateRightBit(x, 11, i);
    RotateRightBit(x, 25, i);
  }

  /** Two rotations and a shift. */
  lemma SmallSigmaBits(x: nat, i: nat)
    requires x < B32 && i < 32
    ensures Bit(SmallSigma0(x), i) == (Bit(x, (i + 7) % 32) != (Bit(x, (i + 18) % 32) != (i < 29 && Bit(x, i + 3))))
    ensures Bit(SmallSigma1(x), i) == (Bit(x, (i + 17) % 32) != (Bit(x, (i + 19) % 32) != (i < 22 && Bit(x, i + 10))))
  {
    hide Bit;
    hide Xor;
    hide RotateRight;
    hide Shr;
    XorBit(Xor(RotateRight(x, 7), RotateRight(x, 18)), Shr(x, 3), i);
    XorBit(RotateRight(x, 7), RotateRight(x, 18), i);
    XorBit(Xor(RotateRight(x, 17), RotateRight(x, 19)), Shr(x, 10), i);
    XorBit(RotateRight(x, 17), RotateRight(x, 19), i);
    RotateRightBit(x, 7, i);
    RotateRightBit(x, 18, i);
    RotateRightBit(x, 17, i);
    RotateRightBit(x, 19, i);
    ShrBit(x, 3, i);
    ShrBit(x, 10, i);
    Shl1At32();
    if i >= 29 { HighBit(x, 32, i + 3); }
    if i >= 22 { HighBit(x, 32, i + 10); }
  }

  /** Bit by bit, `x` chooses between `y` and `z`; and the majority is what at least two of the three have. */
  lemma ChooseMajorityBits(x: nat, y: nat, z: nat, i: nat)
    requires x < B32 && i < 32
    ensures Bit(Choose(x, y, z), i) == if Bit(x, i) then Bit(y, i) else Bit(z, i)
    ensures Bit(Majority(x, y, z), i) <==>
            (Bit(x, i) && Bit(y, i)) || (Bit(x, i) && Bit(z, i)) || (Bit(y, i) && Bit(z, i))
  {
    hide Bit;
    hide Xor;
    hide And;
    Shl1At32();
    ComplementBit(ONES, x, 32, i);
    XorBit(And(x, y), And(ONES - x, z), i);
    AndBit(x, y, i);
    AndBit(ONES - x, z, i);
    XorBit(Xor(And(x, y), And(x, z)), And(y, z), i);
    XorBit(And(x, y), And(x, z), i);
    AndBit(x, z, i);
    AndBit(y, z, i);
  }

  /** Section 6.2.2, step 3: six registers move down one place; the first and the fifth take in the word and the
      constant, in sums modulo 2^32. */
  lemma RoundIs(r: Registers, k: nat, w: nat)
    requires Words(r)
    ensures var s := Round(r, k, w);
            && s.b == r.a && s.c == r.b && s.d == r.c && s.f == r.e && s.g == r.f && s.h == r.g
            && s.e == (r.d + r.h + BigSigma1(r.e) + Choose(r.e, r.f, r.g) + k + w) % 0x1_0000_0000
            && s.a == (r.h + BigSigma1(r.e) + Choose(r.e, r.f, r.g) + k + w
                       + BigSigma0(r.a) + Majority(r.a, r.b, r.c)) % 0x1_0000_0000
  {
    hide Add;
    hide BigSigma0;
    hide BigSigma1;
    hide Choose;
    hide Majority;
    var x, y := r.h + BigSigma1(r.e), r.h + BigSigma1(r.e) + Choose(r.e, r.f, r.g);
    AddIs(r.h, BigSigma1(r.e));
    AddSum(x, Choose(r.e, r.f, r.g));
    AddSum(y, k);
    AddSum(y + k, w);
    AddSum(y + k + w, r.d);
    AddComm(r.d, Add(Add(Add(Add(r.h, BigSigma1(r.e)), Choose(r.e, r.f, r.g)), k), w));
    AddIs(BigSigma0(r.a), Majority(r.a, r.b, r.c));
    AddSums(y + k + w, BigSigma0(r.a) + Majority(r.a, r.b, r.c));
  }

  lemma AddIs(a: nat, b: nat)
    ensures Add(a, b) == (a + b) % B32
  {
  }

  lemma AddComm(a: nat, b: nat)
    ensures Add(a, b) == Add(b, a)
  {
  }

  lemma AddSum(a: nat, b: nat)
    ensures Add(a % B32, b) == (a + b) % B32
  {
    assert a + b == (a % B32 + b) + B32 * (a / B32);
    ModuloPlus(a % B32 + b, a / B32);
  }

  lemma AddSums(a: nat, b: nat)
    ensures Add(a % B32, b % B32) == (a + b) % B32
  {
    AddSum(a, b % B32);
    AddSum(b, a);
    AddComm(a, b % B32);
    AddIs(a, b % B32);
    hide *;
  }

  lemma ModuloPlus(a: nat, q: nat)
    ensures (a + B32 * q) % B32 == a % B32
  {
  }

  function CubeRoot(p: nat): nat {
    if p < 8 then 1 else if p < 27 then 2 else if p < 64 then 3 else if p < 125 then 4 else if p < 216 then 5 else 6
  }

  /** Section 4.2.2 */
  lemma ConstantIsCubeRoot(t: nat)
    requires t < 64
    ensures CubeRootBits(Prime(t), Constant(t), CubeRoot(Prime(t)))
  {
    if t < 32 { LowConstantIsCubeRoot(t); } else { HighConstantIsCubeRoot(t); }
  }

  lemma LowConstantIsCubeRoot(t: nat)
    requires t < 32
    ensures CubeRootBits(Prime(t), Constant(t), CubeRoot(Prime(t)))
  {
  }

  lemma HighConstantIsCubeRoot(t: nat)
    requires 32 <= t < 64
    ensures CubeRootBits(Prime(t), Constant(t), CubeRoot(Prime(t)))
  {
  }

  /** Section 5.3.3 */
  lemma InitialIsSquareRoots()
    ensures SquareRootBits(2, INITIAL.a, 1) && SquareRootBits(3, INITIAL.b, 1) && SquareRootBits(5, INITIAL.c, 2)
    ensures SquareRootBits(7, INITIAL.d, 2) && SquareRootBits(11, INITIAL.e, 3) && SquareRootBits(13, INITIAL.f, 3)
    ensures SquareRootBits(17, INITIAL.g, 4) && SquareRootBits(19, INITIAL.h, 4)
  {
  }

  lemma ShrEight(n: nat, k: nat)
    ensures Shr(n, k + 8) == Shr(n / 256, k)
  {
    assert Shr(n, k + 8) == Shr(n / 2, k + 7) == Shr(n / 2 / 2, k + 6) == Shr(n / 2 / 2 / 2, k + 5);
    var m := n / 2 / 2 / 2;
    assert Shr(m, k + 5) == Shr(m / 2, k + 4) == Shr(m / 2 / 2, k + 3) == Shr(m / 2 / 2 / 2, k + 2);
    var l := m / 2 / 2 / 2;
    assert Shr(l, k + 2) == Shr(l / 2, k + 1) == Shr(l / 2 / 2, k);
    assert l / 2 / 2 == n / 256;
  }

  lemma ShrBytes(n: nat)
    ensures Shr(n, 8) == n / 256
    ensures Shr(n, 16) == n / 0x1_0000
    ensures Shr(n, 24) == n / 0x100_0000
  {
    ShrEight(n, 0);
    ShrEight(n, 8);
    ShrEight(n, 16);
    ShrEight(n / 256, 0);
    ShrEight(n / 256, 8);
    ShrEight(n / 256 / 256, 0);
    var a, b, c := Shr(n, 8), Shr(n, 16), Shr(n, 24);
    hide *;
    assert a == n / 256 && b == n / 256 / 256 && c == n / 256 / 256 / 256;
  }

  /** The bytes of a word, shifted out from the top. */
  lemma Be32Bytes(n: nat)
    requires n < B32
    ensures Be32(n) == [Shr(n, 24) % 256, Shr(n, 16) % 256, Shr(n, 8) % 256, n % 256]
  {
    ShrBytes(n);
    hide Shr;
  }

  lemma ShrAt32(n: nat, k: nat)
    ensures Shr(n, k + 32) == Shr(n / B32, k)
  {
    ShrEight(n, k + 24);
    ShrEight(n / 256, k + 16);
    ShrEight(n / 256 / 256, k + 8);
    ShrEight(n / 256 / 256 / 256, k);
    assert n / 256 / 256 / 256 / 256 == n / B32;
  }

  lemma Be64Byte(n: nat, i: nat)
    requires n < B64 && i < 8
    ensures Be64(n)[i] == Shr(n, 56 - 8 * i) % 256
  {
    var high, low := n / B32, n % B32;
    Be32Bytes(high);
    Be32Bytes(low);
    if i < 4 {
      ShrAt32(n, 24 - 8 * i);
      assert Shr(n, 56 - 8 * i) == Shr(high, 24 - 8 * i);
    } else {
      LowByte(n, 56 - 8 * i);
    }
  }

  lemma LowByte(n: nat, k: nat)
    requires k == 0 || k == 8 || k == 16 || k == 24
    ensures Shr(n, k) % 256 == Shr(n % B32, k) % 256
  {
    ShrBytes(n);
    ShrBytes(n % B32);
    Remainders(n / B32, n % B32);
    hide Shr;
    assert n == n / B32 * B32 + n % B32;
  }

  lemma Remainders(high: nat, low: nat)
    ensures (high * B32 + low) % 256 == low % 256
    ensures (high * B32 + low) / 256 % 256 == low / 256 % 256
    ensures (high * B32 + low) / 0x1_0000 % 256 == low / 0x1_0000 % 256
    ensures (high * B32 + low) / 0x100_0000 % 256 == low / 0x100_0000 % 256
  {
    DropByte(high * 0x100_0000, low);
    DropByte(high * 0x1_0000, low / 256);
    DropByte(high * 256, low / 256 / 256);
    DropByte(high, low / 256 / 256 / 256);
    Bytewise(high * B32 + low);
    Bytewise(low);
  }

  lemma DropByte(high: nat, low: nat)
    ensures (256 * high + low) / 256 == high + low / 256
    ensures (256 * high + low) % 256 == low % 256
  {
  }

  lemma Bytewise(n: nat)
    ensures n / 0x1_0000 == n / 256 / 256
    ensures n / 0x100_0000 == n / 256 / 256 / 256
  {
  }

  /** Four bytes shifted and or-ed together are a big-endian word. */
  lemma WordOfBytes(b: seq<byte>)
    requires |b| == 4
    ensures U32Be(b) == Or(Or(Or(Shl(b[0], 24), Shl(b[1], 16)), Shl(b[2], 8)), b[3])
  {
    var b0: nat, b1: nat, b2: nat := b[0], b[1], b[2];
    ShiftedByte(b0, b1, 16);
    ShiftedByte(b0 * 256 + b1, b2, 8);
    ShlTwice(b0, 8, 16);
    ShlTwice(b0 * 256 + b1, 8, 8);
    Shl8(b0);
    Shl8(b0 * 256 + b1);
    Shl8((b0 * 256 + b1) * 256 + b2);
    assert Shl1(8) == 256;
    OrDisjoint((b0 * 256 + b1) * 256 + b2, b[3], 8);
  }

  lemma Shl8(n: nat)
    ensures Shl(n, 8) == 256 * n
  {
    ShlProduct(n, 8);
  }

  lemma ShiftedByte(high: nat, low: nat, k: nat)
    requires low < 256
    ensures Or(Shl(high, k + 8), Shl(low, k)) == Shl(high * 256 + low, k)
  {
    hide Or;
    Shl8(high);
    ShlTwice(high, 8, k);
    ShlPlus(high * 256, low, k);
    ShlTwice(1, 8, k);
    ShlPlus(low, 256 - low, k);
    ShlZero(256 - low, k);
    OrDisjoint(high, Shl(low, k), k + 8);
  }

  lemma PadAt(message: seq<byte>, i: nat)
    requires 8 * |message| < B64 && i < Padded(|message|)
    ensures Pad(message)[i] ==
            if i < |message| then message[i]
            else if i == |message| then 0x80
            else if i < Padded(|message|) - 8 then 0
            else Be64(8 * |message|)[i - (Padded(|message|) - 8)]
  {
    hide Be64;
  }

  /** The number whose digits to the base 256 these are, highest first. */
  function BigEndian(b: seq<byte>): nat {
    if b == [] then 0 else 256 * BigEndian(b[..|b| - 1]) + b[|b| - 1]
  }

  lemma BigEndianStep(b: seq<byte>)
    requires b != []
    ensures BigEndian(b) == 256 * BigEndian(b[..|b| - 1]) + b[|b| - 1]
  {
  }

  lemma BigEndianWord(b: seq<byte>)
    requires |b| == 4
    ensures BigEndian(b) == U32Be(b)
  {
    BigEndianStep(b);
    BigEndianStep(b[..3]);
    BigEndianStep(b[..2]);
    BigEndianStep(b[..1]);
    assert b[..3][..2] == b[..2] && b[..2][..1] == b[..1] && b[..1][..0] == [];
    assert BigEndian([]) == 0;
    hide BigEndian;
  }

  lemma {:induction false} BigEndianJoin(a: seq<byte>, b: seq<byte>)
    requires |b| == 4
    ensures BigEndian(a + b) == BigEndian(a) * B32 + BigEndian(b)
  {
    var s := a + b;
    BigEndianStep(s);
    BigEndianStep(s[..|a| + 3]);
    BigEndianStep(s[..|a| + 2]);
    BigEndianStep(s[..|a| + 1]);
    assert s[..|a| + 3][..|a| + 2] == s[..|a| + 2] && s[..|a| + 2][..|a| + 1] == s[..|a| + 1];
    assert s[..|a| + 1][..|a|] == a;
    BigEndianWord(b);
    hide BigEndian;
  }

  lemma Be64Is(n: nat)
    requires n < B64
    ensures BigEndian(Be64(n)) == n
  {
    BigEndianJoin(Be32(n / B32), Be32(n % B32));
    BigEndianWord(Be32(n / B32));
    BigEndianWord(Be32(n % B32));
    U32Be32(n / B32);
    U32Be32(n % B32);
    hide BigEndian;
    hide Be32;
    hide U32Be;
  }

  lemma U32Be32(n: nat)
    requires n < B32
    ensures U32Be(Be32(n)) == n
  {
    assert n / 0x1_0000 == 256 * (n / 0x100_0000) + n / 0x1_0000 % 256;
    assert n / 256 == 256 * (n / 0x1_0000) + n / 256 % 256;
  }

  /** Section 5.1.1, bit by bit: the message, a one bit, zero bits, and in the last eight bytes the number of bits of
      the message; in all the least number of whole blocks. */
  lemma PadIs(message: seq<byte>)
    requires 8 * |message| < B64
    ensures var p, n := Pad(message), |message|;
            && |p| % 64 == 0 && n + 9 <= |p| < n + 9 + 64
            && p[..n] == message
            && (forall i: nat :: Bit(p[n], i) <==> i == 7)
            && (forall i :: n < i < |p| - 8 ==> p[i] == 0)
            && BigEndian(p[|p| - 8..]) == 8 * n
  {
    hide Pad;
    hide BigEndian;
    hide Be64;
    hide Bit;
    PadParts(message);
    Be64Is(8 * |message|);
    OneBit();
  }

  lemma PadParts(message: seq<byte>)
    requires 8 * |message| < B64
    ensures var p, n := Pad(message), |message|;
            && n + 9 <= |p| && p[..n] == message && p[n] == 0x80
            && (forall i :: n < i < |p| - 8 ==> p[i] == 0) && p[|p| - 8..] == Be64(8 * n)
  {
    hide Pad;
    hide Be64;
    var p, n := Pad(message), |message|;
    forall i | 0 <= i < |p|
      ensures i < n ==> p[i] == message[i]
      ensures i == n ==> p[i] == 0x80
      ensures n < i < |p| - 8 ==> p[i] == 0
      ensures i >= |p| - 8 ==> p[i] == Be64(8 * n)[i - (|p| - 8)]
    {
      PadAt(message, i);
    }
  }

  lemma OneBit()
    ensures forall i: nat :: Bit(0x80, i) <==> i == 7
  {
    assert Shl1(7) == 0x80;
    forall i: nat ensures Bit(0x80, i) <==> i == 7 { Shl1Bit(7, i); }
  }

  lemma ScheduleStep(block: seq<byte>, t: nat)
    requires |block| == 64 && 16 <= t < 64
    ensures Schedule(block, t)
            == Add(Add(Add(SmallSigma1(Schedule(block, t - 2)), Schedule(block, t - 7)),
                       SmallSigma0(Schedule(block, t - 15))), Schedule(block, t - 16))
  {
  }

  /** Section 6.2.2, step 1. */
  lemma ScheduleIs(block: seq<byte>, t: nat)
    requires |block| == 64 && t < 64
    ensures Schedule(block, t)
            == if t < 16 then BigEndian(block[4 * t..4 * t + 4])
               else (SmallSigma1(Schedule(block, t - 2)) + Schedule(block, t - 7)
                     + SmallSigma0(Schedule(block, t - 15)) + Schedule(block, t - 16)) % 0x1_0000_0000
  {
    if t < 16 {
      BigEndianWord(block[4 * t..4 * t + 4]);
    } else {
      ScheduleStep(block, t);
      hide SmallSigma0;
      hide SmallSigma1;
      var a, b := SmallSigma1(Schedule(block, t - 2)), Schedule(block, t - 7);
      var c, d := SmallSigma0(Schedule(block, t - 15)), Schedule(block, t - 16);
      hide Schedule;
      hide Add;
      AddIs(a, b);
      AddSum(a + b, c);
      AddSum(a + b + c, d);
    }
  }

  /** Sections 6.2.1 and 6.2.2, step 4: the hash value starts at the initial one, each block adds its 64 rounds to it
      register by register, and the digest is the eight registers, highest byte first. */
  lemma BlocksAre(padded: seq<byte>, n: nat)
    requires 64 * n <= |padded|
    ensures n == 0 ==> Blocks(padded, n) == INITIAL
    ensures n > 0 ==>
              var r, s := Blocks(padded, n - 1), Blocks(padded, n);
              var w := Rounds(r, padded[64 * (n - 1)..64 * n], 64);
              && s.a == (r.a + w.a) % 0x1_0000_0000 && s.b == (r.b + w.b) % 0x1_0000_0000
              && s.c == (r.c + w.c) % 0x1_0000_0000 && s.d == (r.d + w.d) % 0x1_0000_0000
              && s.e == (r.e + w.e) % 0x1_0000_0000 && s.f == (r.f + w.f) % 0x1_0000_0000
              && s.g == (r.g + w.g) % 0x1_0000_0000 && s.h == (r.h + w.h) % 0x1_0000_0000
  {
    hide Rounds;
    hide Sum;
    hide Add;
    if n > 0 {
      var r := Blocks(padded, n - 1);
      SumIs(r, Rounds(r, padded[64 * (n - 1)..64 * n], 64));
    }
  }

  lemma SumIs(r: Registers, w: Registers)
    ensures var s := Sum(r, w);
            && s.a == (r.a + w.a) % 0x1_0000_0000 && s.b == (r.b + w.b) % 0x1_0000_0000
            && s.c == (r.c + w.c) % 0x1_0000_0000 && s.d == (r.d + w.d) % 0x1_0000_0000
            && s.e == (r.e + w.e) % 0x1_0000_0000 && s.f == (r.f + w.f) % 0x1_0000_0000
            && s.g == (r.g + w.g) % 0x1_0000_0000 && s.h == (r.h + w.h) % 0x1_0000_0000
  {
  }

  lemma OutputIs(r: Registers)
    requires Words(r)
    ensures var o := Output(r);
            && BigEndian(o[0..4]) == r.a && BigEndian(o[4..8]) == r.b && BigEndian(o[8..12]) == r.c
            && BigEndian(o[12..16]) == r.d && BigEndian(o[16..20]) == r.e && BigEndian(o[20..24]) == r.f
            && BigEndian(o[24..28]) == r.g && BigEndian(o[28..32]) == r.h
  {
    WordIs(r.a);
    WordIs(r.b);
    WordIs(r.c);
    WordIs(r.d);
    WordIs(r.e);
    WordIs(r.f);
    WordIs(r.g);
    WordIs(r.h);
    hide BigEndian;
    hide Be32;
    var o := Output(r);
    assert o[0..4] == Be32(r.a) && o[4..8] == Be32(r.b) && o[8..12] == Be32(r.c) && o[12..16] == Be32(r.d);
    assert o[16..20] == Be32(r.e) && o[20..24] == Be32(r.f) && o[24..28] == Be32(r.g) && o[28..32] == Be32(r.h);
  }

  lemma WordIs(n: nat)
    requires n < B32
    ensures BigEndian(Be32(n)) == n
  {
    BigEndianWord(Be32(n));
    U32Be32(n);
  }

  // ---------------------------------------------------------------------------------------------
  // The code
  // ---------------------------------------------------------------------------------------------

  /** The block of `hash` at `offset`. */
  method FillBlock(input: seq<byte>, length: nat, total: nat, offset: nat, block: array<byte>)
    requires length <= |input| && length + 72 < B32 && total == Padded(length)
    requires offset % 64 == 0 && offset + 64 <= total && block.Length == 128
    modifies block
    ensures block[..64] == Pad(input[..length])[offset..offset + 64]
  {
    hide Pad;
    hide Be64;
    var bits := length * 8;
    var i := 0;
    while i < 64
      invariant 0 <= i <= 64
      invariant forall j :: 0 <= j < i ==> block[j] == if offset + j < length then input[offset + j] else 0
    {
      block[i] := if offset + i < length then input[offset + i] else 0;
      i := i + 1;
    }
    if offset <= length && length - offset < 64 { block[length - offset] := 0x80; }
    if offset + 64 == total {
      assert length < offset + 56;
      ghost var before := block[..56];
      i := 0;
      while i < 8
        invariant 0 <= i <= 8
        invariant block[..56] == before
        invariant forall j :: 0 <= j < i ==> block[56 + j] == Be64(bits)[j]
      {
        Be64Byte(bits, i);
        block[56 + i] := Shr(bits, 56 - i * 8) % 256;
        i := i + 1;
      }
    }
    forall j | 0 <= j < 64
      ensures block[j] == Pad(input[..length])[offset + j]
    {
      PadAt(input[..length], offset + j);
    }
  }

  /** The code adds the terms of a schedule word in another order than the standard. */
  lemma SumOfFour(a: nat, b: nat, c: nat, d: nat)
    ensures Add(Add(Add(a, b), c), d) == Add(Add(Add(d, c), b), a)
  {
    AddThrough(a + b, c);
    AddThrough(a + b + c, d);
    AddThrough(d + c, b);
    AddThrough(d + c + b, a);
  }

  lemma AddThrough(x: nat, y: nat)
    ensures Add(x % B32, y) == Add(x, y)
  {
    var q, r := x / B32, x % B32;
    assert x + y == B32 * q + (r + y);
  }

  /** The first sixteen words of the schedule of `hash`. */
  method LoadWords(block: array<byte>, words: array<nat>)
    requires block.Length == 128 && words.Length == 64
    modifies words
    ensures forall t :: 0 <= t < 16 ==> words[t] == Schedule(block[..64], t)
  {
    var i := 0;
    while i < 16
      invariant 0 <= i <= 16
      invariant forall t :: 0 <= t < i ==> words[t] == Schedule(block[..64], t)
    {
      ghost var four := block[..64][4 * i..4 * i + 4];
      WordOfBytes(four);
      assert four == [block[i * 4], block[i * 4 + 1], block[i * 4 + 2], block[i * 4 + 3]];
      hide Or;
      hide Shl;
      words[i] := Or(Or(Or(Shl(block[i * 4], 24), Shl(block[i * 4 + 1], 16)), Shl(block[i * 4 + 2], 8)),
                     block[i * 4 + 3]);
      i := i + 1;
    }
  }

  /** The message schedule of `hash`. */
  method Expand(block: array<byte>, words: array<nat>)
    requires block.Length == 128 && words.Length == 64
    modifies words
    ensures forall t :: 0 <= t < 64 ==> words[t] == Schedule(block[..64], t)
  {
    hide SmallSigma0;
    hide SmallSigma1;
    LoadWords(block, words);
    ghost var content := block[..64];
    var i := 16;
    while i < 64
      invariant 16 <= i <= 64
      invariant forall t :: 0 <= t < i ==> words[t] == Schedule(content, t)
    {
      var s0 := SmallSigma0(words[i - 15]);
      var s1 := SmallSigma1(words[i - 2]);
      SumOfFour(words[i - 16], s0, words[i - 7], s1);
      hide Add;
      words[i] := Add(Add(Add(words[i - 16], s0), words[i - 7]), s1);
      i := i + 1;
    }
  }

  /** The sixty-four rounds of `hash` on the working variables, added into the state. */
  method Mix(words: array<nat>, ghost content: seq<byte>, state: array<nat>)
    requires |content| == 64 && words.Length == 64 && state.Length == 8
    requires forall t :: 0 <= t < 64 ==> words[t] == Schedule(content, t)
    requires Words(Load(state[..]))
    modifies state
    ensures Words(Load(state[..])) && Load(state[..]) == Compress(old(Load(state[..])), content)
  {
    hide Add;
    hide BigSigma0;
    hide BigSigma1;
    hide Choose;
    hide Majority;
    hide Constant;
    hide Schedule;
    var a: nat, b: nat, c: nat, d: nat := state[0], state[1], state[2], state[3];
    var e: nat, f: nat, g: nat, h: nat := state[4], state[5], state[6], state[7];
    ghost var r := Load(state[..]);
    var i := 0;
    while i < 64
      invariant 0 <= i <= 64
      invariant state[..] == old(state[..])
      invariant Registers(a, b, c, d, e, f, g, h) == Rounds(r, content, i)
    {
      var s1 := BigSigma1(e);
      var choose := Choose(e, f, g);
      var t1 := Add(Add(Add(Add(h, s1), choose), Constant(i)), words[i]);
      var s0 := BigSigma0(a);
      var majority := Majority(a, b, c);
      var t2 := Add(s0, majority);
      h := g;
      g := f;
      f := e;
      e := Add(d, t1);
      d := c;
      c := b;
      b := a;
      a := Add(t1, t2);
      i := i + 1;
    }
    state[0] := Add(state[0], a);
    state[1] := Add(state[1], b);
    state[2] := Add(state[2], c);
    state[3] := Add(state[3], d);
    state[4] := Add(state[4], e);
    state[5] := Add(state[5], f);
    state[6] := Add(state[6], g);
    state[7] := Add(state[7], h);
  }

  function Load(state: seq<nat>): Registers
    requires |state| == 8
  {
    Registers(state[0], state[1], state[2], state[3], state[4], state[5], state[6], state[7])
  }

  /** `hash`.  The length must leave room for the padding in 32 bits. */
  method Hash(input: seq<byte>, length: nat) returns (output: seq<byte>)
    requires length <= |input| && length + 72 < B32
    ensures output == Digest(input[..length])
  {
    hide Compress;
    hide Pad;
    hide Schedule;
    hide Output;
    var block, words, state := new byte[128], new nat[64], new nat[8];
    state[0], state[1], state[2], state[3] := 0x6a09e667, 0xbb67ae85, 0x3c6ef372, 0xa54ff53a;
    state[4], state[5], state[6], state[7] := 0x510e527f, 0x9b05688c, 0x1f83d9ab, 0x5be0cd19;
    var total := (length + 9 + 63) / 64 * 64;
    var offset := 0;
    ghost var padded := Pad(input[..length]);
    ghost var n := 0;
    while offset < total
      invariant offset == 64 * n && offset <= total == |padded|
      invariant Words(Load(state[..])) && Load(state[..]) == Blocks(padded, n)
    {
      FillBlock(input, length, total, offset, block);
      Expand(block, words);
      Mix(words, block[..64], state);
      offset := offset + 64;
      n := n + 1;
    }
    output := Emit(state);
  }

  /** The big-endian output loop of `hash`. */
  method Emit(state: array<nat>) returns (output: seq<byte>)
    requires state.Length == 8 && Words(Load(state[..]))
    ensures output == Output(Load(state[..]))
  {
    hide Be32;
    output := [];
    var i := 0;
    while i < 8
      invariant 0 <= i <= 8
      invariant output == Prefix(state[..], i)
    {
      Be32Bytes(state[i]);
      output := output + [Shr(state[i], 24) % 256, Shr(state[i], 16) % 256, Shr(state[i], 8) % 256, state[i] % 256];
      i := i + 1;
    }
    PrefixIsOutput(state[..]);
  }

  predicate AllWords(state: seq<nat>) { forall i :: 0 <= i < |state| ==> state[i] < B32 }

  function Prefix(state: seq<nat>, n: nat): seq<byte>
    requires |state| == 8 && n <= 8 && AllWords(state)
  {
    if n == 0 then [] else Prefix(state, n - 1) + Be32(state[n - 1])
  }

  lemma PrefixIsOutput(state: seq<nat>)
    requires |state| == 8 && AllWords(state)
    ensures Prefix(state, 8) == Output(Load(state))
  {
    hide Be32;
    assert Prefix(state, 1) == Be32(state[0]);
    assert Prefix(state, 2) == Prefix(state, 1) + Be32(state[1]);
    assert Prefix(state, 3) == Prefix(state, 2) + Be32(state[2]);
    assert Prefix(state, 4) == Prefix(state, 3) + Be32(state[3]);
    assert Prefix(state, 5) == Prefix(state, 4) + Be32(state[4]);
    assert Prefix(state, 6) == Prefix(state, 5) + Be32(state[5]);
    assert Prefix(state, 7) == Prefix(state, 6) + Be32(state[6]);
  }
}
