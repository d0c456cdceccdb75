/** Digits of a number in any base. */
module Powers {
  import opened Bytes

  function Power(b: nat, n: nat): (r: nat)
    ensures b > 0 ==> r > 0
  {
    if n == 0 then 1 else b * Power(b, n - 1)
  }

  lemma DivideTwice(v: nat, b: nat, n: nat)
    requires b > 0
    ensures v / Power(b, n + 1) == v / b / Power(b, n)
  {
    DivideProduct(v, b, Power(b, n));
  }

  lemma DivideProduct(v: nat, a: nat, c: nat)
    requires a > 0 && c > 0
    ensures a * c > 0 && v / (a * c) == v / a / c
  {
    ProductPositive(a, c);
    WholeAndRest(v, a);
    WholeAndRest(v / a, c);
    TwoSteps(v, a, c, v / a, v % a, v / a / c, v / a % c);
  }

  lemma ProductPositive(a: nat, c: nat)
    requires a > 0 && c > 0
    ensures a * c > 0
  {
  }

  lemma WholeAndRest(v: nat, a: nat)
    requires a > 0
    ensures v == a * (v / a) + v % a && v % a < a
  {
  }

  lemma TwoSteps(v: nat, a: nat, c: nat, u: nat, s: nat, q: nat, r: nat)
    requires a * c > 0 && v == a * u + s && s < a && u == c * q + r && r < c
    ensures v / (a * c) == q
  {
    Regroup(v, a, c, q, r, s);
    Smaller(a, c, r, s);
    QuotientIs(v, a * c, q, a * r + s);
  }

  lemma Regroup(v: nat, a: nat, c: nat, q: nat, r: nat, s: nat)
    requires v == a * (c * q + r) + s
    ensures v == (a * c) * q + (a * r + s)
  {
    assert a * (c * q + r) == a * (c * q) + a * r;
    assert a * (c * q) == (a * c) * q;
  }

  lemma Smaller(a: nat, c: nat, r: nat, s: nat)
    requires r < c && s < a
    ensures a * r + s < a * c
  {
    assert a * (c - r - 1) >= 0;
    assert a * c == a * r + a + a * (c - r - 1);
  }

  lemma QuotientIs(v: nat, d: nat, q: nat, r: nat)
    requires d > 0 && v == d * q + r && r < d
    ensures v / d == q
  {
    var e := v / d - q;
    assert d * e == d * (v / d) - d * q;
    assert d * e == r - v % d;
    assert e >= 1 ==> d * e >= d;
    assert e <= -1 ==> d * e + d <= 0;
  }

  /** Byte i of a fixed-size number is its i-th base-256 digit. */
  lemma {:induction false} FixedBytes(v: nat, n: nat, i: nat)
    requires i < n
    ensures LittleEndian(v, n)[i] == v / Power(256, i) % 256
    decreases n
  {
    if i > 0 {
      FixedBytes(v / 256, n - 1, i - 1);
      DivideTwice(v, 256, i - 1);
    }
  }

  lemma PowersOf256()
    ensures Power(256, 0) == 1 && Power(256, 1) == 0x100 && Power(256, 2) == 0x1_0000 && Power(256, 3) == 0x100_0000
    ensures Power(256, 4) == 0x1_0000_0000 && Power(256, 5) == 0x100_0000_0000 && Power(256, 6) == 0x1_0000_0000_0000
    ensures Power(256, 7) == 0x100_0000_0000_0000
  {
    assert Power(256, 2) == 0x1_0000;
    assert Power(256, 4) == 256 * (256 * Power(256, 2));
    assert Power(256, 6) == 256 * (256 * Power(256, 4));
  }
}
