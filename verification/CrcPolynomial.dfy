/** What the bit loops of `crc32` compute, in terms of polynomials over the field of two elements: the
    remainder that RFC 1952, section 8, and ISO 3309 name. */
module CrcPolynomial {
  import opened Bits
  import opened Bytes
  import opened Crc32

  /** A polynomial is the set of the exponents whose coefficient is one. */
  type Poly = set<nat>

  /** x^32 + x^26 + x^23 + x^22 + x^16 + x^12 + x^11 + x^10 + x^8 + x^7 + x^5 + x^4 + x^2 + x + 1 */
  const GENERATOR: Poly := {32, 26, 23, 22, 16, 12, 11, 10, 8, 7, 5, 4, 2, 1, 0}

  function Plus(p: Poly, q: Poly): Poly { (p - q) + (q - p) }

  /** The product with x^k. */
  function Times(p: Poly, k: nat): Poly { set e | e in p :: e + k }

  /** The sum of the generator's products with these powers of x: the generator times a polynomial. */
  function Combined(powers: seq<nat>): Poly {
    if powers == [] then {} else Plus(Times(GENERATOR, powers[0]), Combined(powers[1..]))
  }

  /** The generator divides `p`. */
  ghost predicate Divides(p: Poly) { exists powers :: Combined(powers) == p }

  /** Below degree 32. */
  predicate Low32(p: Poly) { forall e :: e in p ==> e < 32 }

  predicate Coefficient(c: nat, e: nat) { e < 32 && Bit(c, 31 - e) }

  /** The register as a polynomial: its lowest bit is the coefficient of x^31. */
  function RegisterPoly(c: nat): Poly { set e: nat | e < 32 && Coefficient(c, e) }

  /** The message as a polynomial: byte after byte, the lowest bit of a byte first, the last bit being the
      coefficient of x^0. */
  function MessagePoly(data: seq<byte>): Poly {
    set e: nat | e < 8 * |data| && Bit(data[|data| - 1 - e / 8], 7 - e % 8)
  }

  /** x^31 + x^30 + ... + 1 */
  const PRESET: Poly :=
    {31, 30, 29, 28, 27, 26, 25, 24, 23, 22, 21, 20, 19, 18, 17, 16, 15, 14, 13, 12, 11, 10, 9, 8, 7, 6, 5, 4, 3, 2,
     1, 0}

  /** The message behind 32 further places, with its first 32 places complemented. */
  function Dividend(data: seq<byte>): Poly { Plus(Times(MessagePoly(data), 32), Times(PRESET, 8 * |data|)) }

  // ---------------------------------------------------------------------------------------------
  // Arithmetic
  // ---------------------------------------------------------------------------------------------

  lemma TimesIn(p: Poly, k: nat, e: nat)
    ensures e in Times(p, k) <==> e >= k && e - k in p
  {
    if e >= k && e - k in p { assert (e - k) + k == e; }
  }

  lemma TimesPlus(p: Poly, q: Poly, k: nat)
    ensures Times(Plus(p, q), k) == Plus(Times(p, k), Times(q, k))
  {
    forall e: nat
      ensures e in Times(Plus(p, q), k) <==> e in Plus(Times(p, k), Times(q, k))
    {
      TimesIn(Plus(p, q), k, e);
      TimesIn(p, k, e);
      TimesIn(q, k, e);
    }
  }

  lemma TimesTimes(p: Poly, j: nat, k: nat)
    ensures Times(Times(p, j), k) == Times(p, j + k)
  {
    forall e: nat
      ensures e in Times(Times(p, j), k) <==> e in Times(p, j + k)
    {
      TimesIn(Times(p, j), k, e);
      if e >= k { TimesIn(p, j, e - k); }
      TimesIn(p, j + k, e);
    }
  }

  lemma PlusAssoc(p: Poly, q: Poly, r: Poly)
    ensures Plus(Plus(p, q), r) == Plus(p, Plus(q, r))
  {
  }

  lemma {:induction false} CombinedJoin(a: seq<nat>, b: seq<nat>)
    ensures Combined(a + b) == Plus(Combined(a), Combined(b))
    decreases |a|
  {
    if a == [] {
      assert a + b == b;
    } else {
      assert (a + b)[1..] == a[1..] + b;
      CombinedJoin(a[1..], b);
      PlusAssoc(Times(GENERATOR, a[0]), Combined(a[1..]), Combined(b));
    }
  }

  lemma {:induction false} CombinedTimes(a: seq<nat>, k: nat) returns (b: seq<nat>)
    ensures Combined(b) == Times(Combined(a), k)
    decreases |a|
  {
    b := [];
    if a != [] {
      var rest := CombinedTimes(a[1..], k);
      b := [a[0] + k] + rest;
      assert b[1..] == rest;
      TimesTimes(GENERATOR, a[0], k);
      TimesPlus(Times(GENERATOR, a[0]), Combined(a[1..]), k);
    }
  }

  lemma DividesPlus(p: Poly, q: Poly)
    requires Divides(p) && Divides(q)
    ensures Divides(Plus(p, q))
  {
    var a :| Combined(a) == p;
    var b :| Combined(b) == q;
    CombinedJoin(a, b);
  }

  lemma DividesTimes(p: Poly, k: nat)
    requires Divides(p)
    ensures Divides(Times(p, k))
  {
    var a :| Combined(a) == p;
    var b := CombinedTimes(a, k);
  }

  lemma DividesSmall()
    ensures Divides({}) && Divides(GENERATOR)
  {
    assert Combined([]) == {};
    assert Times(GENERATOR, 0) == GENERATOR;
    assert Combined([0]) == Plus(Times(GENERATOR, 0), Combined([0][1..])) == GENERATOR;
  }

  // ---------------------------------------------------------------------------------------------
  // The register
  // ---------------------------------------------------------------------------------------------

  lemma PresetIn(e: nat)
    ensures e in PRESET <==> e < 32
  {
  }

  /** The reflected constant and the generator's exponents. */
  lemma GeneratorBits(e: nat)
    requires e < 32
    ensures Bit(POLYNOMIAL, 31 - e) <==> e in GENERATOR
  {
    if e < 16 { HighDigits(31 - e); } else { LowDigits(31 - e); }
  }

  lemma LowDigit(d: nat)
    requires d < 16
    ensures Bit(d, 0) == (d in {1, 3, 5, 7, 9, 11, 13, 15})
    ensures Bit(d, 1) == (d in {2, 3, 6, 7, 10, 11, 14, 15})
    ensures Bit(d, 2) == (d in {4, 5, 6, 7, 12, 13, 14, 15})
    ensures Bit(d, 3) == (d in {8, 9, 10, 11, 12, 13, 14, 15})
  {
    assert Bit(d, 1) == Bit(d / 2, 0) && Bit(d, 2) == Bit(d / 2, 1) == Bit(d / 2 / 2, 0);
    assert Bit(d, 3) == Bit(d / 2, 2) == Bit(d / 2 / 2, 1) == Bit(d / 2 / 2 / 2, 0);
  }

  /** The lowest hexadecimal digit of a word. */
  lemma Digit(w: nat, i: nat)
    ensures i < 4 ==> Bit(w, i) == Bit(w % 16, i)
    ensures i >= 4 ==> Bit(w, i) == Bit(w / 16, i - 4)
  {
    if i >= 4 {
      BitFour(w, i - 4);
    } else {
      LowBit(w, 4, i);
      LowSplit(w, 4);
      ShlProduct(Shr(w, 4), 4);
      assert Shl1(4) == 16;
      RemainderIs(w, Shr(w, 4), Low(w, 4));
    }
  }

  lemma RemainderIs(w: nat, q: nat, d: nat)
    requires w == q * 16 + d && d < 16
    ensures w % 16 == d
  {
  }

  lemma LowDigits(i: nat)
    requires i < 16
    ensures Bit(POLYNOMIAL, i) <==> i in {15, 9, 8, 5}
  {
    hide Bit;
    Digit(0xedb88320, i);
    if i >= 4 { Digit(0xedb8832, i - 4); }
    if i >= 8 { Digit(0xedb883, i - 8); }
    if i >= 12 { Digit(0xedb88, i - 12); }
    LowDigit(0);
    LowDigit(2);
    LowDigit(3);
    LowDigit(8);
  }

  lemma HighDigits(i: nat)
    requires 16 <= i < 32
    ensures Bit(POLYNOMIAL, i) <==> i in {31, 30, 29, 27, 26, 24, 23, 21, 20, 19}
  {
    hide Bit;
    Digit(0xedb88320, i);
    Digit(0xedb8832, i - 4);
    Digit(0xedb883, i - 8);
    Digit(0xedb88, i - 12);
    Digit(0xedb8, i - 16);
    if i >= 20 { Digit(0xedb, i - 20); }
    if i >= 24 { Digit(0xed, i - 24); }
    if i >= 28 { Digit(0xe, i - 28); }
    LowDigit(8);
    LowDigit(11);
    LowDigit(13);
    LowDigit(14);
  }

  /** One bit of the division. */
  lemma StepDivides(c: nat)
    requires c < B32
    ensures Divides(Plus(Times(RegisterPoly(c), 1), RegisterPoly(StepBit(c))))
  {
    var sum := Plus(Times(RegisterPoly(c), 1), RegisterPoly(StepBit(c)));
    forall e: nat
      ensures e in sum <==> c % 2 == 1 && e in GENERATOR
    {
      StepCoefficient(c, e);
    }
    DividesSmall();
    assert sum == if c % 2 == 1 then GENERATOR else {};
  }

  lemma StepCoefficient(c: nat, e: nat)
    requires c < B32
    ensures e in Plus(Times(RegisterPoly(c), 1), RegisterPoly(StepBit(c))) <==> c % 2 == 1 && e in GENERATOR
  {
    TimesIn(RegisterPoly(c), 1, e);
    if e < 32 {
      XorBit(c / 2, if c % 2 == 1 then POLYNOMIAL else 0, 31 - e);
      GeneratorBits(e);
      ZeroBit(31 - e);
      Shl1At32();
      SmallBit(c, 32);
      assert Bit(c / 2, 31 - e) == Bit(c, 32 - e);
    }
  }

  lemma Telescope(p: Poly, q: Poly, r: Poly)
    ensures Plus(Plus(p, q), Plus(q, r)) == Plus(p, r)
  {
  }

  lemma {:induction false} StepsDivide(c: nat, n: nat)
    requires c < B32
    ensures Divides(Plus(Times(RegisterPoly(c), n), RegisterPoly(Steps(c, n))))
  {
    if n == 0 {
      DividesSmall();
      assert Times(RegisterPoly(c), 0) == RegisterPoly(c);
      assert Plus(RegisterPoly(c), RegisterPoly(c)) == {};
    } else {
      hide RegisterPoly;
      hide StepBit;
      var d := Steps(c, n - 1);
      StepsDivide(c, n - 1);
      StepsBound(c, n - 1);
      StepDivides(d);
      DividesTimes(Plus(Times(RegisterPoly(c), n - 1), RegisterPoly(d)), 1);
      TimesPlus(Times(RegisterPoly(c), n - 1), RegisterPoly(d), 1);
      TimesTimes(RegisterPoly(c), n - 1, 1);
      var first := Plus(Times(RegisterPoly(c), n), Times(RegisterPoly(d), 1));
      var second := Plus(Times(RegisterPoly(d), 1), RegisterPoly(StepBit(d)));
      DividesPlus(first, second);
      Telescope(Times(RegisterPoly(c), n), Times(RegisterPoly(d), 1), RegisterPoly(StepBit(d)));
    }
  }

  // ---------------------------------------------------------------------------------------------
  // The bytes
  // ---------------------------------------------------------------------------------------------

  lemma RegisterXor(c: nat, d: nat)
    ensures RegisterPoly(Xor(c, d)) == Plus(RegisterPoly(c), RegisterPoly(d))
  {
    forall e: nat | e < 32
      ensures Coefficient(Xor(c, d), e) <==> Coefficient(c, e) != Coefficient(d, e)
    {
      XorBit(c, d, 31 - e);
    }
  }

  lemma BytePoly(b: byte)
    ensures Times(RegisterPoly(b), 8) == Times(MessagePoly([b]), 32)
  {
    forall e: nat
      ensures e in Times(RegisterPoly(b), 8) <==> e in Times(MessagePoly([b]), 32)
    {
      TimesIn(RegisterPoly(b), 8, e);
      TimesIn(MessagePoly([b]), 32, e);
      if 8 <= e < 32 {
        assert Shl1(8) == 256;
        HighBit(b, 8, 39 - e);
      }
    }
  }

  lemma MessageStep(data: seq<byte>)
    requires data != []
    ensures var n := |data| - 1;
            MessagePoly(data) == Plus(Times(MessagePoly(data[..n]), 8), MessagePoly([data[n]]))
  {
    var n := |data| - 1;
    forall e: nat
      ensures e in MessagePoly(data) <==> e in Plus(Times(MessagePoly(data[..n]), 8), MessagePoly([data[n]]))
    {
      TimesIn(MessagePoly(data[..n]), 8, e);
      if e >= 8 { assert (e - 8) / 8 == e / 8 - 1 && (e - 8) % 8 == e % 8; }
    }
  }

  lemma DividendStep(data: seq<byte>)
    requires data != []
    ensures var n := |data| - 1;
            Dividend(data) == Plus(Times(Dividend(data[..n]), 8), Times(RegisterPoly(data[n]), 8))
  {
    var n := |data| - 1;
    hide MessagePoly;
    hide RegisterPoly;
    hide Times;
    hide Plus;
    MessageStep(data);
    BytePoly(data[n]);
    PlacesStep(MessagePoly(data[..n]), MessagePoly([data[n]]), n);
  }

  lemma PlacesStep(init: Poly, last: Poly, n: nat)
    ensures Plus(Times(Plus(Times(init, 8), last), 32), Times(PRESET, 8 * (n + 1))) ==
            Plus(Times(Plus(Times(init, 32), Times(PRESET, 8 * n)), 8), Times(last, 32))
  {
    hide Times;
    hide Plus;
    TimesPlus(Times(init, 8), last, 32);
    TimesTimes(init, 8, 32);
    TimesTimes(init, 32, 8);
    TimesTimes(PRESET, 8 * n, 8);
    TimesPlus(Times(init, 32), Times(PRESET, 8 * n), 8);
    Swap(Times(init, 40), Times(last, 32), Times(PRESET, 8 * (n + 1)));
  }

  lemma Swap(p: Poly, q: Poly, r: Poly)
    ensures Plus(Plus(p, q), r) == Plus(Plus(p, r), q)
  {
  }

  lemma {:induction false} OnesBit(ones: nat, k: nat, i: nat)
    requires ones + 1 == Shl1(k) && i < k
    ensures Bit(ones, i)
  {
    if i > 0 { OnesBit(ones / 2, k - 1, i - 1); }
  }

  lemma PresetIsOnes()
    ensures RegisterPoly(ONES) == PRESET
  {
    Shl1At32();
    forall e: nat
      ensures e in RegisterPoly(ONES) <==> e in PRESET
    {
      PresetIn(e);
      if e < 32 { OnesBit(ONES, 32, 31 - e); }
    }
  }

  lemma EmptyDividend()
    ensures Dividend([]) == PRESET
  {
    assert MessagePoly([]) == {};
    assert Times({}, 32) == {};
    TimesNone(PRESET);
  }

  lemma TimesNone(p: Poly)
    ensures Times(p, 0) == p
  {
  }

  lemma PlusSelf(p: Poly)
    ensures Plus(p, p) == {}
  {
  }

  lemma EmptyDivides()
    ensures Divides(Plus(Dividend([]), RegisterPoly(ONES)))
  {
    PresetIsOnes();
    DividesSmall();
    EmptyDividend();
    hide Dividend;
    hide RegisterPoly;
    hide Divides;
    PlusSelf(PRESET);
  }

  /** The loops divide: what they leave differs from the dividend by a multiple of the generator. */
  lemma {:induction false} RegisterDivides(data: seq<byte>)
    ensures Divides(Plus(Dividend(data), RegisterPoly(Register(ONES, data))))
  {
    hide Dividend;
    hide RegisterPoly;
    hide Times;
    hide Plus;
    hide Divides;
    hide Steps;
    hide Xor;
    if data == [] {
      EmptyDivides();
    } else {
      var n := |data| - 1;
      var r, b := Register(ONES, data[..n]), data[n];
      RegisterDivides(data[..n]);
      RegisterBound(ONES, data[..n]);
      ByteEnters(Dividend(data[..n]), r, b);
      DividendStep(data);
    }
  }

  lemma ByteEnters(p: Poly, r: nat, b: byte)
    requires r < B32 && Divides(Plus(p, RegisterPoly(r)))
    ensures Divides(Plus(Plus(Times(p, 8), Times(RegisterPoly(b), 8)), RegisterPoly(StepByte(r, b))))
  {
    hide RegisterPoly;
    hide Times;
    hide Plus;
    hide Divides;
    hide Steps;
    hide Xor;
    DividesTimes(Plus(p, RegisterPoly(r)), 8);
    TimesPlus(p, RegisterPoly(r), 8);
    Shl1At32();
    XorBound(r, b, 32);
    StepsDivide(Xor(r, b), 8);
    RegisterXor(r, b);
    TimesPlus(RegisterPoly(r), RegisterPoly(b), 8);
    ByteDivides(Times(p, 8), Times(RegisterPoly(r), 8), Times(RegisterPoly(b), 8), RegisterPoly(StepByte(r, b)));
  }

  lemma ByteDivides(p: Poly, q: Poly, b: Poly, r: Poly)
    requires Divides(Plus(p, q)) && Divides(Plus(Plus(q, b), r))
    ensures Divides(Plus(Plus(p, b), r))
  {
    DividesPlus(Plus(p, q), Plus(Plus(q, b), r));
    assert Plus(Plus(p, q), Plus(Plus(q, b), r)) == Plus(Plus(p, b), r);
  }

  // ---------------------------------------------------------------------------------------------
  // The remainder
  // ---------------------------------------------------------------------------------------------

  /** `r` is what division of `p` by the generator leaves. */
  ghost predicate IsRemainder(r: Poly, p: Poly) { Low32(r) && Divides(Plus(p, r)) }

  /** The products with the powers below `n` that are in `powers`. */
  function Product(powers: Poly, n: nat): Poly {
    if n == 0 then {}
    else if n - 1 in powers then Plus(Times(GENERATOR, n - 1), Product(powers, n - 1))
    else Product(powers, n - 1)
  }

  lemma {:induction false} ProductPlus(powers: Poly, a: nat, n: nat)
    ensures Product(Plus(powers, {a}), n) ==
            if a < n then Plus(Times(GENERATOR, a), Product(powers, n)) else Product(powers, n)
  {
    if n > 0 { ProductPlus(powers, a, n - 1); }
  }

  /** Powers that occur twice cancel out. */
  lemma {:induction false} CombinedIsProduct(powers: seq<nat>) returns (odd: Poly, n: nat)
    ensures Combined(powers) == Product(odd, n)
    ensures forall m: nat {:trigger Product(odd, m)} :: m >= n ==> Combined(powers) == Product(odd, m)
  {
    odd, n := {}, 0;
    if powers == [] {
      forall m: nat ensures Product({}, m) == {} { ProductEmpty(m); }
    } else {
      var rest, most := CombinedIsProduct(powers[1..]);
      odd, n := Plus(rest, {powers[0]}), if most > powers[0] then most else powers[0] + 1;
      forall m: nat | m >= n
        ensures Combined(powers) == Product(odd, m)
      {
        ProductPlus(rest, powers[0], m);
      }
    }
  }

  lemma {:induction false} ProductEmpty(n: nat)
    ensures Product({}, n) == {}
  {
    if n > 0 { ProductEmpty(n - 1); }
  }

  lemma {:induction false} ProductBound(powers: Poly, n: nat, e: nat)
    requires e in Product(powers, n)
    ensures e < n + 32
  {
    if e in Product(powers, n - 1) {
      ProductBound(powers, n - 1, e);
    } else {
      TimesIn(GENERATOR, n - 1, e);
    }
  }

  lemma TopTerm(powers: Poly, n: nat)
    requires n > 0 && n - 1 in powers
    ensures n + 31 in Product(powers, n)
  {
    TimesIn(GENERATOR, n - 1, n + 31);
    if n + 31 in Product(powers, n - 1) { ProductBound(powers, n - 1, n + 31); }
  }

  /** A multiple of the generator that is not zero has a term of degree 32 or more. */
  lemma {:induction false} ProductLow(powers: Poly, n: nat)
    requires Low32(Product(powers, n))
    ensures Product(powers, n) == {}
  {
    if n > 0 {
      if n - 1 in powers {
        TopTerm(powers, n);
        assert false;
      } else {
        ProductLow(powers, n - 1);
      }
    }
  }

  lemma RemainderUnique(p: Poly, r: Poly, s: Poly)
    requires IsRemainder(r, p) && IsRemainder(s, p)
    ensures r == s
  {
    DividesPlus(Plus(p, r), Plus(p, s));
    assert Plus(Plus(p, r), Plus(p, s)) == Plus(r, s);
    var powers :| Combined(powers) == Plus(r, s);
    var odd, n := CombinedIsProduct(powers);
    ProductLow(odd, n);
    assert forall e :: e in r <==> e in s;
  }

  lemma SameRegister(c: nat, d: nat)
    requires c < B32 && d < B32 && RegisterPoly(c) == RegisterPoly(d)
    ensures c == d
  {
    forall i: nat | i < 32
      ensures Bit(c, i) == Bit(d, i)
    {
      assert 31 - i in RegisterPoly(c) <==> 31 - i in RegisterPoly(d);
    }
    Shl1At32();
    SameBits(c, d, 32);
  }

  /** `crc32` computes CRC-32: the remainder of the message behind 32 further places, its first 32
      places complemented, divided by the generator; the remainder complemented.  No other word is. */
  lemma CrcIsRemainder(data: seq<byte>, v: nat)
    requires v < B32
    ensures v == Crc(data) <==> IsRemainder(Plus(RegisterPoly(v), PRESET), Dividend(data))
  {
    hide Dividend;
    hide Divides;
    var c := Crc(data);
    RegisterDivides(data);
    RegisterBound(ONES, data);
    ComplementIsOnes(Register(ONES, data));
    RegisterXor(Register(ONES, data), c);
    PresetIsOnes();
    LowRegister(c);
    LowRegister(v);
    var r := RegisterPoly(Register(ONES, data));
    assert Plus(RegisterPoly(c), Plus(r, RegisterPoly(c))) == r;
    if IsRemainder(Plus(RegisterPoly(v), PRESET), Dividend(data)) {
      RemainderUnique(Dividend(data), Plus(RegisterPoly(v), PRESET), Plus(RegisterPoly(c), PRESET));
      PlusCancel(RegisterPoly(v), RegisterPoly(c), PRESET);
      SameRegister(v, c);
    }
  }

  lemma LowRegister(v: nat)
    ensures Low32(Plus(RegisterPoly(v), PRESET))
  {
    forall e | e in Plus(RegisterPoly(v), PRESET) ensures e < 32 { PresetIn(e); }
  }

  lemma PlusCancel(p: Poly, q: Poly, r: Poly)
    requires Plus(p, r) == Plus(q, r)
    ensures p == q
  {
    assert Plus(Plus(p, r), r) == p && Plus(Plus(q, r), r) == q;
  }

  // ---------------------------------------------------------------------------------------------
  // The check value
  // ---------------------------------------------------------------------------------------------

  function Lowest(w: bv32): nat { if w & 1 == 1 then 1 else 0 }

  /** The number that a machine word stands for. */
  function Word(w: bv32): nat {
    if w == 0 then 0 else Lowest(w) + 2 * Word(w >> 1)
  }

  function WideStep(w: bv32): bv32 {
    (w >> 1) ^ (if w & 1 == 1 then 0xedb88320 else 0)
  }

  function WideByte(w: bv32, b: bv32): bv32 {
    WideStep(WideStep(WideStep(WideStep(WideStep(WideStep(WideStep(WideStep(w ^ b))))))))
  }

  lemma WordHalf(w: bv32, half: bv32)
    requires half == w >> 1
    ensures Word(w) / 2 == Word(half) && Word(w) % 2 == Lowest(w)
  {
  }

  lemma {:induction false} WordXor(v: bv32, w: bv32, x: bv32)
    requires x == v ^ w
    ensures Xor(Word(v), Word(w)) == Word(x)
    decreases v
  {
    hide Word;
    hide Xor;
    hide Lowest;
    if v == 0 {
      WordZero(w, x);
    } else {
      var v1, w1, x1 := v >> 1, w >> 1, x >> 1;
      Shifted(v, v1);
      WideParts(v, w, x, v1, w1, x1);
      WordXor(v1, w1, x1);
      WordHalf(v, v1);
      WordHalf(w, w1);
      WordHalf(x, x1);
      XorJoins(Word(v), Word(w), Word(x));
    }
  }

  lemma Shifted(v: bv32, half: bv32)
    requires v != 0 && half == v >> 1
    ensures half < v
  {
  }

  lemma WordZero(w: bv32, x: bv32)
    requires x == 0 ^ w
    ensures Xor(Word(0), Word(w)) == Word(x)
  {
    assert x == w;
  }

  lemma WideParts(v: bv32, w: bv32, x: bv32, v1: bv32, w1: bv32, x1: bv32)
    requires x == v ^ w && v1 == v >> 1 && w1 == w >> 1 && x1 == x >> 1
    ensures x1 == v1 ^ w1
    ensures Lowest(x) == if Lowest(v) != Lowest(w) then 1 else 0
  {
  }

  lemma XorJoins(a: nat, b: nat, x: nat)
    requires x % 2 == (if a % 2 != b % 2 then 1 else 0) && x / 2 == Xor(a / 2, b / 2)
    ensures Xor(a, b) == x
  {
    hide Xor;
    XorParts(a, b);
    assert Xor(a, b) == 2 * (Xor(a, b) / 2) + Xor(a, b) % 2;
  }

  /** The lowest hexadecimal digit of a word. */
  lemma Hex(w: bv32, b: bv32, c: bv32, d: bv32, rest: bv32)
    requires b == w >> 1 && c == b >> 1 && d == c >> 1 && rest == d >> 1
    ensures Word(w) == Lowest(w) + 2 * Lowest(b) + 4 * Lowest(c) + 8 * Lowest(d) + 16 * Word(rest)
  {
    hide Word;
    hide Lowest;
    WordHalf(w, b);
    WordHalf(b, c);
    WordHalf(c, d);
    WordHalf(d, rest);
  }

  lemma NoWord()
    ensures Word(0) == 0
  {
  }

  lemma PolynomialWord()
    ensures Word(0xedb88320) == 0xedb88320
  {
    hide Word;
    Hex(0xedb88320, 0x76dc4190, 0x3b6e20c8, 0x1db71064, 0xedb8832);
    Hex(0xedb8832, 0x76dc419, 0x3b6e20c, 0x1db7106, 0xedb883);
    Hex(0xedb883, 0x76dc41, 0x3b6e20, 0x1db710, 0xedb88);
    Hex(0xedb88, 0x76dc4, 0x3b6e2, 0x1db71, 0xedb8);
    Hex(0xedb8, 0x76dc, 0x3b6e, 0x1db7, 0xedb);
    Hex(0xedb, 0x76d, 0x3b6, 0x1db, 0xed);
    Hex(0xed, 0x76, 0x3b, 0x1d, 0xe);
    Hex(0xe, 0x7, 0x3, 0x1, 0x0);
    NoWord();
  }

  lemma OnesWord()
    ensures Word(0xffffffff) == 0xffffffff
  {
    hide Word;
    Hex(0xffffffff, 0x7fffffff, 0x3fffffff, 0x1fffffff, 0xfffffff);
    Hex(0xfffffff, 0x7ffffff, 0x3ffffff, 0x1ffffff, 0xffffff);
    Hex(0xffffff, 0x7fffff, 0x3fffff, 0x1fffff, 0xfffff);
    Hex(0xfffff, 0x7ffff, 0x3ffff, 0x1ffff, 0xffff);
    Hex(0xffff, 0x7fff, 0x3fff, 0x1fff, 0xfff);
    Hex(0xfff, 0x7ff, 0x3ff, 0x1ff, 0xff);
    Hex(0xff, 0x7f, 0x3f, 0x1f, 0xf);
    Hex(0xf, 0x7, 0x3, 0x1, 0x0);
    NoWord();
  }

  lemma LeftWord()
    ensures Word(0x340bc6d9) == 0x340bc6d9
  {
    hide Word;
    Hex(0x340bc6d9, 0x1a05e36c, 0xd02f1b6, 0x68178db, 0x340bc6d);
    Hex(0x340bc6d, 0x1a05e36, 0xd02f1b, 0x68178d, 0x340bc6);
    Hex(0x340bc6, 0x1a05e3, 0xd02f1, 0x68178, 0x340bc);
    Hex(0x340bc, 0x1a05e, 0xd02f, 0x6817, 0x340b);
    Hex(0x340b, 0x1a05, 0xd02, 0x681, 0x340);
    Hex(0x340, 0x1a0, 0xd0, 0x68, 0x34);
    Hex(0x34, 0x1a, 0xd, 0x6, 0x3);
    Hex(0x3, 0x1, 0x0, 0x0, 0x0);
    NoWord();
  }

  lemma WordStep(w: bv32, next: bv32)
    requires next == WideStep(w)
    ensures Word(next) == StepBit(Word(w))
  {
    hide Word;
    hide Xor;
    hide Lowest;
    hide WideStep;
    var half, p := WideSplit(w, next);
    WordHalf(w, half);
    WordXor(half, p, next);
  }

  lemma WideSplit(w: bv32, next: bv32) returns (half: bv32, p: bv32)
    requires next == WideStep(w)
    ensures half == w >> 1 && next == half ^ p
    ensures Word(p) == if Lowest(w) == 1 then POLYNOMIAL else 0
  {
    hide Word;
    half, p := w >> 1, if w & 1 == 1 then 0xedb88320 else 0;
    NoWord();
    PolynomialWord();
  }

  lemma WordByte(w: bv32, b: bv32, next: bv32, c: nat, x: byte)
    requires next == WideByte(w, b) && c == Word(w) && x == Word(b)
    ensures Word(next) == StepByte(c, x)
  {
    hide Word;
    hide Xor;
    hide WideStep;
    hide StepBit;
    var s0 := w ^ b;
    var s1 := WideStep(s0);
    var s2 := WideStep(s1);
    var s3 := WideStep(s2);
    var s4 := WideStep(s3);
    var s5 := WideStep(s4);
    var s6 := WideStep(s5);
    var s7 := WideStep(s6);
    WordXor(w, b, s0);
    WordStep(s0, s1);
    WordStep(s1, s2);
    WordStep(s2, s3);
    WordStep(s3, s4);
    WordStep(s4, s5);
    WordStep(s5, s6);
    WordStep(s6, s7);
    WordStep(s7, next);
    EightSteps(Word(s0));
  }

  lemma EightSteps(c: nat)
    ensures Steps(c, 8) == StepBit(StepBit(StepBit(StepBit(StepBit(StepBit(StepBit(StepBit(c))))))))
  {
    hide StepBit;
    assert Steps(c, 1) == StepBit(c);
    assert Steps(c, 2) == StepBit(StepBit(c));
    assert Steps(c, 3) == StepBit(StepBit(StepBit(c)));
    assert Steps(c, 4) == StepBit(StepBit(StepBit(StepBit(c))));
    assert Steps(c, 5) == StepBit(Steps(c, 4));
    assert Steps(c, 6) == StepBit(Steps(c, 5));
  }

  /** The characters "1" to "9". */
  function Digits(): seq<byte> { [0x31, 0x32, 0x33, 0x34, 0x35, 0x36, 0x37, 0x38, 0x39] }

  lemma DigitWord(k: nat, b: bv32)
    requires k < 9 && b == [0x31, 0x32, 0x33, 0x34, 0x35, 0x36, 0x37, 0x38, 0x39][k]
    ensures Word(b) == Digits()[k]
  {
    hide Word;
    Hex(3, 1, 0, 0, 0);
    NoWord();
    if
    case k == 0 => Hex(0x31, 0x18, 0xc, 6, 3);
    case k == 1 => Hex(0x32, 0x19, 0xc, 6, 3);
    case k == 2 => Hex(0x33, 0x19, 0xc, 6, 3);
    case k == 3 => Hex(0x34, 0x1a, 0xd, 6, 3);
    case k == 4 => Hex(0x35, 0x1a, 0xd, 6, 3);
    case k == 5 => Hex(0x36, 0x1b, 0xd, 6, 3);
    case k == 6 => Hex(0x37, 0x1b, 0xd, 6, 3);
    case k == 7 => Hex(0x38, 0x1c, 0xe, 7, 3);
    case k == 8 => Hex(0x39, 0x1c, 0xe, 7, 3);
  }

  lemma Feed(k: nat, w: bv32, b: bv32, next: bv32)
    requires k < 9 && b == [0x31, 0x32, 0x33, 0x34, 0x35, 0x36, 0x37, 0x38, 0x39][k]
    requires Register(ONES, Digits()[..k]) == Word(w) && next == WideByte(w, b)
    ensures Register(ONES, Digits()[..k + 1]) == Word(next)
  {
    hide Word;
    hide StepByte;
    hide WideByte;
    DigitWord(k, b);
    WordByte(w, b, next, Word(w), Digits()[k]);
    assert Digits()[..k + 1][..k] == Digits()[..k];
  }

  lemma WideBytes()
    ensures WideByte(0xffffffff, 0x31) == 0x7c231048
    ensures WideByte(0x7c231048, 0x32) == 0xb0acbb32
    ensures WideByte(0xb0acbb32, 0x33) == 0x77b79c2d
    ensures WideByte(0x77b79c2d, 0x34) == 0x641c1f5c
    ensures WideByte(0x641c1f5c, 0x35) == 0x340ac5e3
    ensures WideByte(0x340ac5e3, 0x36) == 0xf68d2c9e
    ensures WideByte(0xf68d2c9e, 0x37) == 0xaffc9660
    ensures WideByte(0xaffc9660, 0x38) == 0x651f2550
    ensures WideByte(0x651f2550, 0x39) == 0x340bc6d9
  {
  }

  /** The catalogued check value: the sum of the nine characters "123456789". */
  lemma CheckValue()
    ensures Crc([0x31, 0x32, 0x33, 0x34, 0x35, 0x36, 0x37, 0x38, 0x39]) == 0xcbf43926
  {
    hide Word;
    hide WideByte;
    hide StepByte;
    OnesWord();
    LeftWord();
    WideBytes();
    assert Digits()[..0] == [] && Digits()[..9] == Digits();
    Feed(0, 0xffffffff, 0x31, 0x7c231048);
    Feed(1, 0x7c231048, 0x32, 0xb0acbb32);
    Feed(2, 0xb0acbb32, 0x33, 0x77b79c2d);
    Feed(3, 0x77b79c2d, 0x34, 0x641c1f5c);
    Feed(4, 0x641c1f5c, 0x35, 0x340ac5e3);
    Feed(5, 0x340ac5e3, 0x36, 0xf68d2c9e);
    Feed(6, 0xf68d2c9e, 0x37, 0xaffc9660);
    Feed(7, 0xaffc9660, 0x38, 0x651f2550);
    Feed(8, 0x651f2550, 0x39, 0x340bc6d9);
  }
}
