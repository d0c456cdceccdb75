/** Bit operations on unsigned integers, bit by bit. */
module Bits {
  import opened Bytes
  import opened Powers

  /** Bit i of x, counted from the lowest. */
  function Bit(x: nat, i: nat): (b: nat)
    ensures b <= 1
  {
    x / Power(2, i) % 2
  }

  lemma BitStep(x: nat, i: nat)
    ensures Bit(x, 0) == x % 2
    ensures i > 0 ==> Bit(x, i) == Bit(x / 2, i - 1)
  {
    if i > 0 {
      DivideTwice(x, 2, i - 1);
    }
  }

  lemma {:induction false} BitOfZero(i: nat)
    ensures Bit(0, i) == 0
  {
    BitStep(0, i);
    if i > 0 {
      BitOfZero(i - 1);
    }
  }

  function And(x: nat, y: nat): nat {
    if x == 0 || y == 0 then 0 else (if x % 2 == 1 && y % 2 == 1 then 1 else 0) + 2 * And(x / 2, y / 2)
  }

  function Or(x: nat, y: nat): nat {
    if x == 0 then y else if y == 0 then x else (if x % 2 == 1 || y % 2 == 1 then 1 else 0) + 2 * Or(x / 2, y / 2)
  }

  function Xor(x: nat, y: nat): nat {
    if x == 0 then y else if y == 0 then x else (if x % 2 != y % 2 then 1 else 0) + 2 * Xor(x / 2, y / 2)
  }

  /** The 32 bits of x turned over. */
  function Not(x: uint32): uint32 { 0xffff_ffff - x }

  lemma AndStep(x: nat, y: nat)
    ensures (x == 0 || y == 0 ==> And(x, y) == 0)
    ensures x != 0 && y != 0 ==> And(x, y) / 2 == And(x / 2, y / 2) && And(x, y) % 2 == if x % 2 == 1 && y % 2 == 1 then 1 else 0
  {
  }

  lemma {:induction false} AndBit(x: nat, y: nat, i: nat)
    ensures Bit(And(x, y), i) == if Bit(x, i) == 1 && Bit(y, i) == 1 then 1 else 0
    decreases i
  {
    AndStep(x, y);
    BitOfZero(i);
    BitStep(x, i);
    BitStep(y, i);
    BitStep(And(x, y), i);
    hide Bit, And;
    if x != 0 && y != 0 && i > 0 {
      AndBit(x / 2, y / 2, i - 1);
    }
  }

  lemma OrStep(x: nat, y: nat)
    ensures (x == 0 ==> Or(x, y) == y) && (y == 0 ==> Or(x, y) == x)
    ensures x != 0 && y != 0 ==> Or(x, y) / 2 == Or(x / 2, y / 2) && Or(x, y) % 2 == if x % 2 == 1 || y % 2 == 1 then 1 else 0
  {
  }

  lemma {:induction false} OrBit(x: nat, y: nat, i: nat)
    ensures Bit(Or(x, y), i) == if Bit(x, i) == 1 || Bit(y, i) == 1 then 1 else 0
    decreases i
  {
    OrStep(x, y);
    BitOfZero(i);
    BitStep(x, i);
    BitStep(y, i);
    BitStep(Or(x, y), i);
    hide Bit, Or;
    if x != 0 && y != 0 && i > 0 {
      OrBit(x / 2, y / 2, i - 1);
    }
  }

  lemma XorStep(x: nat, y: nat)
    ensures (x == 0 ==> Xor(x, y) == y) && (y == 0 ==> Xor(x, y) == x)
    ensures x != 0 && y != 0 ==> Xor(x, y) / 2 == Xor(x / 2, y / 2) && Xor(x, y) % 2 == if x % 2 != y % 2 then 1 else 0
  {
  }

  lemma {:induction false} XorBit(x: nat, y: nat, i: nat)
    ensures Bit(Xor(x, y), i) == if Bit(x, i) != Bit(y, i) then 1 else 0
    decreases i
  {
    XorStep(x, y);
    BitOfZero(i);
    BitStep(x, i);
    BitStep(y, i);
    BitStep(Xor(x, y), i);
    hide Bit, Xor;
    if x != 0 && y != 0 && i > 0 {
      XorBit(x / 2, y / 2, i - 1);
    }
  }

  lemma NotBit(x: uint32, i: nat)
    requires i < 32
    ensures Bit(Not(x), i) == 1 - Bit(x, i)
  {
    PowerOfTwo32();
    Complement(x, 32, i);
  }

  lemma PowerOfTwo32()
    ensures Power(2, 32) == 0x1_0000_0000
  {
    assert Power(2, 4) == 16;
    assert Power(2, 8) == 16 * Power(2, 4);
    assert Power(2, 12) == 16 * Power(2, 8);
    assert Power(2, 16) == 16 * Power(2, 12);
    assert Power(2, 20) == 16 * Power(2, 16);
    assert Power(2, 24) == 16 * Power(2, 20);
    assert Power(2, 28) == 16 * Power(2, 24);
    assert Power(2, 32) == 16 * Power(2, 28);
  }

  lemma {:induction false} Complement(x: nat, n: nat, i: nat)
    requires x < Power(2, n) && i < n
    ensures Bit(Power(2, n) - 1 - x, i) == 1 - Bit(x, i)
    decreases n
  {
    var c := Power(2, n) - 1 - x;
    BitStep(x, i);
    BitStep(c, i);
    assert Power(2, n) == 2 * Power(2, n - 1);
    assert c / 2 == Power(2, n - 1) - 1 - x / 2;
    hide Bit;
    if i > 0 {
      Complement(x / 2, n - 1, i - 1);
    }
  }

  /** No result has more bits than the arguments. */
  lemma {:induction false} Bounded(x: nat, y: nat, n: nat)
    requires x < Power(2, n) && y < Power(2, n)
    ensures And(x, y) < Power(2, n) && Or(x, y) < Power(2, n) && Xor(x, y) < Power(2, n)
    decreases n
  {
    if n > 0 {
      assert Power(2, n) == 2 * Power(2, n - 1);
      Bounded(x / 2, y / 2, n - 1);
    }
  }

  /** Numbers with no bit in common add up. */
  lemma {:induction false} OrOfDisjoint(x: nat, y: nat, n: nat)
    requires x % Power(2, n) == 0 && y < Power(2, n)
    ensures Or(x, y) == x + y
    decreases n
  {
    if n > 0 && x != 0 && y != 0 {
      HalfMultiple(x, n);
      OrOfDisjoint(x / 2, y / 2, n - 1);
    }
  }

  lemma HalfMultiple(x: nat, n: nat)
    requires n > 0 && x % Power(2, n) == 0
    ensures x % 2 == 0 && x / 2 % Power(2, n - 1) == 0
  {
    var p, q := Power(2, n - 1), x / Power(2, n);
    assert x == 2 * p * q;
    assert x == 2 * (p * q);
    assert x / 2 == p * q;
    MultipleOf(p, q);
  }

  lemma MultipleOf(p: nat, q: nat)
    requires p > 0
    ensures p * q % p == 0
  {
    QuotientIs(p * q, p, q, 0);
    WholeAndRest(p * q, p);
  }

  // ----- 32-bit words -----

  /** x << n and x >> n. */
  function ShiftLeft(x: uint32, n: nat): uint32 { x * Power(2, n) % 0x1_0000_0000 }

  function ShiftRight(x: uint32, n: nat): (r: uint32) {
    Quotient(x, Power(2, n));
    x / Power(2, n)
  }

  lemma Quotient(x: nat, d: nat)
    requires d > 0
    ensures 0 <= x / d <= x
  {
    WholeAndRest(x, d);
    AtLeastOnce(x / d, d - 1);
  }

  lemma AtLeastOnce(q: int, e: nat)
    ensures q >= 0 ==> (1 + e) * q >= q
  {
    assert (1 + e) * q == q + e * q;
    assert q >= 0 ==> e * q >= 0;
  }

  lemma BothBounded(x: uint32, y: uint32)
    ensures And(x, y) < 0x1_0000_0000 && Or(x, y) < 0x1_0000_0000 && Xor(x, y) < 0x1_0000_0000
  {
    PowerOfTwo32();
    hide Power;
    Bounded(x, y, 32);
  }

  function And32(x: uint32, y: uint32): uint32 {
    BothBounded(x, y);
    And(x, y)
  }

  function Or32(x: uint32, y: uint32): uint32 {
    BothBounded(x, y);
    Or(x, y)
  }

  function Xor32(x: uint32, y: uint32): uint32 {
    BothBounded(x, y);
    Xor(x, y)
  }

  lemma {:induction false} PowerSum(b: nat, m: nat, n: nat)
    ensures Power(b, m + n) == Power(b, m) * Power(b, n)
  {
    if m > 0 {
      PowerSum(b, m - 1, n);
      Grouped(b, Power(b, m - 1), Power(b, n));
    }
  }

  lemma Grouped(a: nat, b: nat, c: nat)
    ensures a * (b * c) == (a * b) * c
  {
  }

  lemma ModScaled(x: nat, hi: nat, lo: nat)
    requires hi > 0 && lo > 0
    ensures hi * lo > 0 && x * lo % (hi * lo) == x % hi * lo
  {
    ProductPositive(hi, lo);
    WholeAndRest(x, hi);
    Spread(x, hi, lo, x / hi, x % hi);
    Less(x % hi, hi, lo);
    RestIs(x * lo, hi * lo, x / hi, x % hi * lo);
  }

  lemma RestIs(v: nat, d: nat, q: nat, r: nat)
    requires d > 0 && v == d * q + r && r < d
    ensures v % d == r
  {
    QuotientIs(v, d, q, r);
    WholeAndRest(v, d);
  }

  lemma Spread(x: nat, hi: nat, lo: nat, q: nat, r: nat)
    requires x == hi * q + r
    ensures x * lo == (hi * lo) * q + r * lo
  {
    assert (hi * q + r) * lo == hi * q * lo + r * lo;
    assert hi * q * lo == (hi * lo) * q;
  }

  lemma Less(r: nat, hi: nat, lo: nat)
    requires r < hi && lo > 0
    ensures r * lo < hi * lo
  {
  }

  lemma Fewer(x: nat, hi: nat, lo: nat)
    requires hi > 0 && x < hi * lo
    ensures x / hi < lo
  {
    WholeAndRest(x, hi);
    var q := x / hi;
    assert q >= lo ==> hi * q >= hi * lo;
  }

  /** What a left shift keeps, the low bits, moved up; and where the others are after a right shift. */
  lemma Shifted(x: uint32, n: nat)
    requires 0 < n < 32
    ensures ShiftLeft(x, n) == x % Power(2, 32 - n) * Power(2, n) && ShiftLeft(x, n) % Power(2, n) == 0
    ensures ShiftRight(x, 32 - n) < Power(2, n)
  {
    PowerOfTwo32();
    PowerSum(2, 32 - n, n);
    hide Power;
    ModScaled(x, Power(2, 32 - n), Power(2, n));
    MultipleOf(Power(2, n), x % Power(2, 32 - n));
    Fewer(x, Power(2, 32 - n), Power(2, n));
  }

  /** (x << n) | (x >> (32 - n)): the low bits times 2^n, and the high bits. */
  function RotateLeft(x: uint32, n: nat): uint32
    requires 0 < n < 32
  {
    Or32(ShiftLeft(x, n), ShiftRight(x, 32 - n))
  }

  lemma RotateLeftIs(x: uint32, n: nat)
    requires 0 < n < 32
    ensures RotateLeft(x, n) == x * Power(2, n) % 0x1_0000_0000 + x / Power(2, 32 - n)
  {
    hide Or, Power;
    Shifted(x, n);
    OrOfDisjoint(ShiftLeft(x, n), ShiftRight(x, 32 - n), n);
  }

  lemma {:induction false} BitOfProduct(y: nat, n: nat, j: nat)
    ensures Bit(y * Power(2, n), j) == if j < n then 0 else Bit(y, j - n)
    decreases n
  {
    if n > 0 {
      var h := y * Power(2, n - 1);
      assert y * Power(2, n) == 2 * h;
      BitStep(2 * h, j);
      hide Bit;
      if j > 0 {
        BitOfProduct(y, n - 1, j - 1);
      }
    }
  }

  lemma {:induction false} BitOfRest(x: nat, m: nat, j: nat)
    ensures Bit(x % Power(2, m), j) == if j < m then Bit(x, j) else 0
    decreases m
  {
    if m == 0 {
      BitOfZero(j);
    } else {
      var r := x % Power(2, m);
      HalfRest(x, Power(2, m - 1));
      BitStep(x, j);
      BitStep(r, j);
      hide Bit;
      if j > 0 {
        BitOfRest(x / 2, m - 1, j - 1);
      }
    }
  }

  lemma HalfRest(x: nat, p: nat)
    requires p > 0
    ensures x % (2 * p) / 2 == x / 2 % p && x % (2 * p) % 2 == x % 2
  {
    WholeAndRest(x / 2, p);
    var q, r := x / 2 / p, x / 2 % p;
    assert x == 2 * (p * q + r) + x % 2;
    assert x == 2 * p * q + (2 * r + x % 2);
    RestIs(x, 2 * p, q, 2 * r + x % 2);
  }

  lemma BitOfQuotient(x: nat, m: nat, j: nat)
    ensures Bit(x / Power(2, m), j) == Bit(x, m + j)
  {
    PowerSum(2, m, j);
    DivideProduct(x, Power(2, m), Power(2, j));
  }

  lemma NoHighBit(x: uint32, j: nat)
    requires j >= 32
    ensures Bit(x, j) == 0
  {
    PowerOfTwo32();
    BitOfRest(x, 32, j);
  }

  lemma ShiftLeftBit(x: uint32, n: nat, j: nat)
    requires 0 < n < 32 && j < 32
    ensures Bit(ShiftLeft(x, n), j) == if j < n then 0 else Bit(x, j - n)
  {
    hide Power, Bit, ShiftLeft;
    Shifted(x, n);
    BitOfProduct(x % Power(2, 32 - n), n, j);
    if j >= n {
      BitOfRest(x, 32 - n, j - n);
    }
  }

  lemma ShiftRightBit(x: uint32, n: nat, j: nat)
    ensures Bit(ShiftRight(x, n), j) == Bit(x, n + j)
  {
    BitOfQuotient(x, n, j);
  }

  /** Bit i moves to i + n, and round to the bottom. */
  lemma RotateLeftBit(x: uint32, n: nat, i: nat)
    requires 0 < n < 32 && i < 32
    ensures Bit(RotateLeft(x, n), if i + n < 32 then i + n else i + n - 32) == Bit(x, i)
  {
    var j := if i + n < 32 then i + n else i + n - 32;
    hide Power, Bit, ShiftLeft, ShiftRight, Or;
    OrBit(ShiftLeft(x, n), ShiftRight(x, 32 - n), j);
    ShiftLeftBit(x, n, j);
    ShiftRightBit(x, 32 - n, j);
    if i + n < 32 {
      NoHighBit(x, 32 - n + j);
    }
    BitIsBit(x, i);
  }

  lemma BitIsBit(x: nat, i: nat)
    ensures Bit(x, i) == 0 || Bit(x, i) == 1
  {
  }
}
