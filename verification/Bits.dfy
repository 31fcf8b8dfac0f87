/** Bitwise operators on unsigned machine words.  A word is a natural number; all the
    operators here map 64-bit operands to 64-bit results, so none of them can wrap. */
module Bits {

  /** Bit `i` of `w`: `(w >> i) & 1`. */
  predicate Bit(w: nat, i: nat) {
    if i == 0 then w % 2 == 1 else Bit(w / 2, i - 1)
  }

  /** `a | b` */
  function Or(a: nat, b: nat): nat {
    if a == 0 then b
    else if b == 0 then a
    else (if a % 2 == 1 || b % 2 == 1 then 1 else 0) + 2 * Or(a / 2, b / 2)
  }

  /** `a & ~b` */
  function AndNot(a: nat, b: nat): nat {
    if a == 0 then 0
    else (if a % 2 == 1 && b % 2 == 0 then 1 else 0) + 2 * AndNot(a / 2, b / 2)
  }

  /** `a << k`, unbounded */
  function Shl(a: nat, k: nat): nat {
    if k == 0 then a else 2 * Shl(a, k - 1)
  }

  /** `1 << i` */
  function Shl1(i: nat): nat { Shl(1, i) }

  lemma {:induction false} ZeroBit(i: nat)
    ensures !Bit(0, i)
  {
    if i > 0 { ZeroBit(i - 1); }
  }

  lemma {:induction false} OrBit(a: nat, b: nat, i: nat)
    ensures Bit(Or(a, b), i) == (Bit(a, i) || Bit(b, i))
  {
    ZeroBit(i);
    if a != 0 && b != 0 && i > 0 {
      OrBit(a / 2, b / 2, i - 1);
    }
  }

  lemma {:induction false} AndNotBit(a: nat, b: nat, i: nat)
    ensures Bit(AndNot(a, b), i) == (Bit(a, i) && !Bit(b, i))
  {
    ZeroBit(i);
    if a != 0 && i > 0 {
      AndNotBit(a / 2, b / 2, i - 1);
    }
  }

  lemma {:induction false} Shl1Bit(i: nat, j: nat)
    ensures Bit(Shl1(i), j) == (i == j)
  {
    if i == 0 {
      if j > 0 { ZeroBit(j - 1); }
    } else if j > 0 {
      assert Shl1(i) / 2 == Shl1(i - 1);
      Shl1Bit(i - 1, j - 1);
    }
  }

  /** Operands that share no bit position add up. */
  lemma {:induction false} OrDisjoint(q: nat, b: nat, k: nat)
    requires b < Shl1(k)
    ensures Or(Shl(q, k), b) == Shl(q, k) + b
  {
    if k > 0 {
      OrDouble(Shl(q, k - 1), b);
      OrDisjoint(q, b / 2, k - 1);
    }
  }

  lemma OrDouble(h: nat, b: nat)
    ensures Or(2 * h, b) == b % 2 + 2 * Or(h, b / 2)
  {
  }

  /** `a ^ b` */
  function Xor(a: nat, b: nat): nat {
    if a == 0 then b
    else if b == 0 then a
    else (if a % 2 != b % 2 then 1 else 0) + 2 * Xor(a / 2, b / 2)
  }

  /** `a & b` */
  function And(a: nat, b: nat): nat {
    if a == 0 || b == 0 then 0
    else (if a % 2 == 1 && b % 2 == 1 then 1 else 0) + 2 * And(a / 2, b / 2)
  }

  lemma {:induction false} XorComm(a: nat, b: nat)
    ensures Xor(a, b) == Xor(b, a)
  {
    if a != 0 && b != 0 { XorComm(a / 2, b / 2); }
  }

  lemma {:induction false} XorSelf(a: nat)
    ensures Xor(a, a) == 0
  {
    if a != 0 { XorSelf(a / 2); }
  }

  lemma HalfOf(half: nat, bit: nat)
    requires bit < 2
    ensures (bit + 2 * half) / 2 == half && (bit + 2 * half) % 2 == bit
  {
  }

  lemma XorParts(a: nat, b: nat)
    ensures Xor(a, b) % 2 == (if a % 2 != b % 2 then 1 else 0)
    ensures Xor(a, b) / 2 == Xor(a / 2, b / 2)
  {
    if a != 0 && b != 0 {
      HalfOf(Xor(a / 2, b / 2), if a % 2 != b % 2 then 1 else 0);
    } else {
      assert Xor(0, b / 2) == b / 2 && Xor(a / 2, 0) == a / 2;
    }
  }

  lemma {:induction false} XorAssoc(a: nat, b: nat, c: nat)
    ensures Xor(Xor(a, b), c) == Xor(a, Xor(b, c))
    decreases a + b + c
  {
    if a != 0 && b != 0 && c != 0 {
      XorParts(a, b);
      XorParts(b, c);
      XorParts(Xor(a, b), c);
      XorParts(a, Xor(b, c));
      XorAssoc(a / 2, b / 2, c / 2);
    }
  }

  /** Equal after the same `^`, equal before. */
  lemma XorCancel(a: nat, b: nat, c: nat)
    requires Xor(a, c) == Xor(b, c)
    ensures a == b
  {
    XorAssoc(a, c, c);
    XorAssoc(b, c, c);
    XorSelf(c);
  }

  lemma {:induction false} XorBit(a: nat, b: nat, i: nat)
    ensures Bit(Xor(a, b), i) == (Bit(a, i) != Bit(b, i))
  {
    ZeroBit(i);
    if a != 0 && b != 0 && i > 0 { XorBit(a / 2, b / 2, i - 1); }
  }

  /** Operands below `1 << k` give a result below `1 << k`. */
  lemma {:induction false} XorBound(a: nat, b: nat, k: nat)
    requires a < Shl1(k) && b < Shl1(k)
    ensures Xor(a, b) < Shl1(k)
  {
    if k > 0 && a != 0 && b != 0 { XorBound(a / 2, b / 2, k - 1); }
  }

  lemma {:induction false} SmallBit(a: nat, k: nat)
    requires a < Shl1(k)
    ensures !Bit(a, k)
  {
    if k > 0 { SmallBit(a / 2, k - 1); }
  }

  lemma {:induction false} AndBit(a: nat, b: nat, i: nat)
    ensures Bit(And(a, b), i) == (Bit(a, i) && Bit(b, i))
  {
    ZeroBit(i);
    if a != 0 && b != 0 && i > 0 { AndBit(a / 2, b / 2, i - 1); }
  }

  /** `a` has all bits of `b`. */
  ghost predicate HasBits(a: nat, b: nat) { forall i: nat :: Bit(b, i) ==> Bit(a, i) }

  lemma HasBitsHalf(a: nat, b: nat)
    ensures HasBits(a, b) <==> (b % 2 == 1 ==> a % 2 == 1) && HasBits(a / 2, b / 2)
  {
    if HasBits(a, b) {
      assert Bit(b, 0) ==> Bit(a, 0);
      forall i: nat | Bit(b / 2, i)
        ensures Bit(a / 2, i)
      {
        assert Bit(b, i + 1) && Bit(a, i + 1);
      }
    }
    if (b % 2 == 1 ==> a % 2 == 1) && HasBits(a / 2, b / 2) {
      forall i: nat | Bit(b, i)
        ensures Bit(a, i)
      {
        if i > 0 { assert Bit(b / 2, i - 1) && Bit(a / 2, i - 1); }
      }
    }
  }

  /** Masking keeps all of `b` exactly when `a` has all of its bits. */
  lemma {:induction false} MaskKeeps(a: nat, b: nat)
    ensures And(a, b) == b <==> HasBits(a, b)
    decreases b
  {
    if b == 0 {
      forall i: nat ensures !Bit(b, i) { ZeroBit(i); }
    } else if a == 0 {
      var i := SomeBit(b);
      ZeroBit(i);
      assert Bit(b, i) && !Bit(a, i);
    } else {
      HasBitsHalf(a, b);
      MaskKeeps(a / 2, b / 2);
    }
  }

  lemma {:induction false} SomeBit(a: nat) returns (i: nat)
    requires a > 0
    ensures Bit(a, i)
  {
    i := 0;
    if a % 2 == 0 {
      i := SomeBit(a / 2);
      i := i + 1;
    }
  }

  /** All ones below `1 << k` minus a value complements its bits. */
  lemma {:induction false} ComplementBit(ones: nat, a: nat, k: nat, i: nat)
    requires a < Shl1(k) == ones + 1 && i < k
    ensures Bit(ones - a, i) == !Bit(a, i)
  {
    if i > 0 {
      assert (ones - a) / 2 == ones / 2 - a / 2;
      ComplementBit(ones / 2, a / 2, k - 1, i - 1);
    }
  }

  /** Masking with all ones below `1 << k` keeps a value below it. */
  lemma {:induction false} AndOnes(a: nat, k: nat)
    requires a < Shl1(k)
    ensures And(a, Shl1(k) - 1) == a
  {
    if k > 0 && a != 0 {
      assert (Shl1(k) - 1) / 2 == Shl1(k - 1) - 1;
      AndOnes(a / 2, k - 1);
    }
  }

  lemma XorDouble(h: nat, b: nat)
    ensures Xor(2 * h, b) == b % 2 + 2 * Xor(h, b / 2)
  {
  }

  lemma {:induction false} XorDisjoint(q: nat, b: nat, k: nat)
    requires b < Shl1(k)
    ensures Xor(Shl(q, k), b) == Shl(q, k) + b
  {
    if k > 0 {
      XorDouble(Shl(q, k - 1), b);
      XorDisjoint(q, b / 2, k - 1);
    }
  }

  lemma {:induction false} ShlPlus(a: nat, b: nat, k: nat)
    ensures Shl(a + b, k) == Shl(a, k) + Shl(b, k)
  {
    if k > 0 { ShlPlus(a, b, k - 1); }
  }

  lemma {:induction false} ShlTwice(a: nat, j: nat, k: nat)
    ensures Shl(Shl(a, j), k) == Shl(a, j + k)
  {
    if k > 0 { ShlTwice(a, j, k - 1); }
  }

  lemma {:induction false} ShlZero(a: nat, k: nat)
    ensures Shl(a, k) >= a
    ensures a == 0 ==> Shl(a, k) == 0
  {
    if k > 0 { ShlZero(a, k - 1); }
  }

  lemma BitFour(w: nat, i: nat)
    ensures Bit(w, i + 4) == Bit(w / 16, i)
  {
    assert Bit(w, i + 4) == Bit(w / 2, i + 3) == Bit(w / 2 / 2, i + 2);
    assert Bit(w / 2 / 2, i + 2) == Bit(w / 2 / 2 / 2, i + 1) == Bit(w / 2 / 2 / 2 / 2, i);
    assert w / 2 / 2 / 2 / 2 == w / 16;
  }

  lemma {:induction false} Shl1Grows(m: nat, n: nat)
    requires m <= n
    ensures Shl1(m) <= Shl1(n)
  {
    if m < n { Shl1Grows(m, n - 1); }
  }

  lemma Quarter(n: nat)
    ensures n / 4 == n / 2 / 2
  {
  }

  /** `a >> k` */
  function Shr(a: nat, k: nat): nat {
    if k == 0 then a else Shr(a / 2, k - 1)
  }

  /** The lowest `k` bits of `a`. */
  function Low(a: nat, k: nat): nat {
    if k == 0 then 0 else a % 2 + 2 * Low(a / 2, k - 1)
  }

  lemma {:induction false} ShrBit(a: nat, k: nat, i: nat)
    ensures Bit(Shr(a, k), i) == Bit(a, i + k)
  {
    if k > 0 { ShrBit(a / 2, k - 1, i); }
  }

  lemma {:induction false} ShlBit(a: nat, k: nat, i: nat)
    ensures Bit(Shl(a, k), i) == (i >= k && Bit(a, i - k))
  {
    if k > 0 && i > 0 { ShlBit(a, k - 1, i - 1); }
  }

  lemma {:induction false} LowBit(a: nat, k: nat, i: nat)
    ensures Bit(Low(a, k), i) == (i < k && Bit(a, i))
  {
    if k == 0 {
      ZeroBit(i);
    } else if i > 0 {
      LowBit(a / 2, k - 1, i - 1);
    }
  }

  lemma {:induction false} LowSplit(a: nat, k: nat)
    ensures Shl(Shr(a, k), k) + Low(a, k) == a
    ensures Low(a, k) < Shl1(k)
  {
    if k > 0 { LowSplit(a / 2, k - 1); }
  }

  lemma Shl1At32()
    ensures Shl1(32) == 0x1_0000_0000
  {
    assert Shl1(8) == 0x100;
    assert Shl1(16) == 0x1_0000;
    assert Shl1(24) == 0x100_0000;
  }

  lemma {:induction false} ShlProduct(a: nat, k: nat)
    ensures Shl(a, k) == a * Shl1(k)
  {
    if k > 0 { ShlProduct(a, k - 1); }
  }

  lemma Low32(a: nat)
    ensures Low(a, 32) == a % 0x1_0000_0000
  {
    var q, low := Shr(a, 32), Low(a, 32);
    LowSplit(a, 32);
    ShlProduct(q, 32);
    Shl1At32();
    hide *;
    assert a == q * 0x1_0000_0000 + low;
  }

  lemma {:induction false} HighBit(a: nat, k: nat, i: nat)
    requires a < Shl1(k) && k <= i
    ensures !Bit(a, i)
  {
    if k == 0 {
      ZeroBit(i);
    } else {
      HighBit(a / 2, k - 1, i - 1);
    }
  }

  lemma Low8(a: nat)
    ensures Low(a, 8) == a % 256
  {
    var q, low := Shr(a, 8), Low(a, 8);
    LowSplit(a, 8);
    ShlProduct(q, 8);
    assert Shl1(8) == 256;
    hide *;
    assert a == q * 256 + low;
  }

  /** Words with the same bits are equal. */
  lemma {:induction false} SameBits(c: nat, d: nat, k: nat)
    requires c < Shl1(k) && d < Shl1(k)
    requires forall i: nat :: i < k ==> Bit(c, i) == Bit(d, i)
    ensures c == d
  {
    if k > 0 {
      assert Bit(c, 0) == Bit(d, 0);
      forall i: nat | i < k - 1
        ensures Bit(c / 2, i) == Bit(d / 2, i)
      {
        assert Bit(c, i + 1) == Bit(d, i + 1);
      }
      SameBits(c / 2, d / 2, k - 1);
    }
  }
}
