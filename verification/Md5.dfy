/** MD5 as section 3 of RFC 1321 defines it: padding, blocks and the table-driven steps. */
module Md5 {
  import opened Bytes
  import opened Bits
  import opened Powers

  const TWO_32 := 0x1_0000_0000
  const BLOCK := 64

  // ----- section 3.4: the functions and the steps -----

  function F(x: uint32, y: uint32, z: uint32): uint32 { Or32(And32(x, y), And32(Not(x), z)) }

  function G(x: uint32, y: uint32, z: uint32): uint32 { Or32(And32(x, z), And32(y, Not(z))) }

  function H(x: uint32, y: uint32, z: uint32): uint32 { Xor32(Xor32(x, y), z) }

  function I(x: uint32, y: uint32, z: uint32): uint32 { Xor32(y, Or32(x, Not(z))) }

  /** Bit by bit, F chooses y or z by x, G chooses x or y by z, H is the parity, and I says where y differs
      from x or not z. */
  lemma Choices(x: uint32, y: uint32, z: uint32, i: nat)
    requires i < 32
    ensures Bit(F(x, y, z), i) == if Bit(x, i) == 1 then Bit(y, i) else Bit(z, i)
    ensures Bit(G(x, y, z), i) == if Bit(z, i) == 1 then Bit(x, i) else Bit(y, i)
    ensures Bit(H(x, y, z), i) == (Bit(x, i) + Bit(y, i) + Bit(z, i)) % 2
    ensures Bit(I(x, y, z), i) == if Bit(y, i) == (if Bit(x, i) == 1 || Bit(z, i) == 0 then 1 else 0) then 0 else 1
  {
    hide Bit, And, Or, Xor, Not;
    NotBit(x, i);
    NotBit(z, i);
    AndBit(x, y, i);
    AndBit(Not(x), z, i);
    OrBit(And(x, y), And(Not(x), z), i);
    AndBit(x, z, i);
    AndBit(y, Not(z), i);
    OrBit(And(x, z), And(y, Not(z)), i);
    XorBit(x, y, i);
    XorBit(Xor(x, y), z, i);
    OrBit(x, Not(z), i);
    XorBit(y, Or(x, Not(z)), i);
    BitIsBit(x, i);
    BitIsBit(y, i);
    BitIsBit(z, i);
  }

  function Add(x: int, y: int): uint32 { (x + y) % TWO_32 }

  /** T[i + 1] of the table made from the sine function, a round at a time. */
  function Sine(i: nat): uint32
    requires i < 64
  {
    if i < 16 then Sine1(i) else if i < 32 then Sine2(i) else if i < 48 then Sine3(i) else Sine4(i)
  }

  function Sine1(i: nat): uint32
    requires 0 <= i < 16
  {
    match i
    case 0 => 0xd76aa478 case 1 => 0xe8c7b756 case 2 => 0x242070db case 3 => 0xc1bdceee
    case 4 => 0xf57c0faf case 5 => 0x4787c62a case 6 => 0xa8304613 case 7 => 0xfd469501
    case 8 => 0x698098d8 case 9 => 0x8b44f7af case 10 => 0xffff5bb1 case 11 => 0x895cd7be
    case 12 => 0x6b901122 case 13 => 0xfd987193 case 14 => 0xa679438e case 15 => 0x49b40821
  }

  function Sine2(i: nat): uint32
    requires 16 <= i < 32
  {
    match i
    case 16 => 0xf61e2562 case 17 => 0xc040b340 case 18 => 0x265e5a51 case 19 => 0xe9b6c7aa
    case 20 => 0xd62f105d case 21 => 0x2441453 case 22 => 0xd8a1e681 case 23 => 0xe7d3fbc8
    case 24 => 0x21e1cde6 case 25 => 0xc33707d6 case 26 => 0xf4d50d87 case 27 => 0x455a14ed
    case 28 => 0xa9e3e905 case 29 => 0xfcefa3f8 case 30 => 0x676f02d9 case 31 => 0x8d2a4c8a
  }

  function Sine3(i: nat): uint32
    requires 32 <= i < 48
  {
    match i
    case 32 => 0xfffa3942 case 33 => 0x8771f681 case 34 => 0x6d9d6122 case 35 => 0xfde5380c
    case 36 => 0xa4beea44 case 37 => 0x4bdecfa9 case 38 => 0xf6bb4b60 case 39 => 0xbebfbc70
    case 40 => 0x289b7ec6 case 41 => 0xeaa127fa case 42 => 0xd4ef3085 case 43 => 0x4881d05
    case 44 => 0xd9d4d039 case 45 => 0xe6db99e5 case 46 => 0x1fa27cf8 case 47 => 0xc4ac5665
  }

  function Sine4(i: nat): uint32
    requires 48 <= i < 64
  {
    match i
    case 48 => 0xf4292244 case 49 => 0x432aff97 case 50 => 0xab9423a7 case 51 => 0xfc93a039
    case 52 => 0x655b59c3 case 53 => 0x8f0ccc92 case 54 => 0xffeff47d case 55 => 0x85845dd1
    case 56 => 0x6fa87e4f case 57 => 0xfe2ce6e0 case 58 => 0xa3014314 case 59 => 0x4e0811a1
    case 60 => 0xf7537e82 case 61 => 0xbd3af235 case 62 => 0x2ad7d2bb case 63 => 0xeb86d391
  }

  /** The word step i takes. */
  function Word(i: nat): (k: nat)
    ensures k < 16
  {
    if i < 16 then i % 16 else if i < 32 then (1 + 5 * i) % 16 else if i < 48 then (5 + 3 * i) % 16 else 7 * i % 16
  }

  function Shift(i: nat): (s: nat)
    ensures 0 < s < 32
  {
    var j := i % 4;
    if i < 16 then (if j == 0 then 7 else if j == 1 then 12 else if j == 2 then 17 else 22)
    else if i < 32 then (if j == 0 then 5 else if j == 1 then 9 else if j == 2 then 14 else 20)
    else if i < 48 then (if j == 0 then 4 else if j == 1 then 11 else if j == 2 then 16 else 23)
    else (if j == 0 then 6 else if j == 1 then 10 else if j == 2 then 15 else 21)
  }

  function Mix(i: nat, x: uint32, y: uint32, z: uint32): uint32 {
    if i < 16 then F(x, y, z) else if i < 32 then G(x, y, z) else if i < 48 then H(x, y, z) else I(x, y, z)
  }

  datatype Quad = Quad(a: uint32, b: uint32, c: uint32, d: uint32)

  /** a = b + ((a + f(b, c, d) + X[k] + T[i]) <<< s). */
  function Apply(i: nat, a: uint32, b: uint32, c: uint32, d: uint32, x: seq<uint32>): uint32
    requires i < 64 && |x| == 16
  {
    Add(RotateLeft((a + Mix(i, b, c, d) + x[Word(i)] + Sine(i)) % TWO_32, Shift(i)), b)
  }

  /** The first n steps; the four words change places after each. */
  function Steps(q: Quad, x: seq<uint32>, n: nat): Quad
    requires n <= 64 && |x| == 16
  {
    if n == 0 then q
    else
      var p := Steps(q, x, n - 1);
      Quad(p.d, Apply(n - 1, p.a, p.b, p.c, p.d, x), p.b, p.c)
  }

  function Word4(b0: byte, b1: byte, b2: byte, b3: byte): uint32 {
    b0 as int + 0x100 * b1 as int + 0x10000 * b2 as int + 0x1000000 * b3 as int
  }

  /** n words from 4n bytes, low-order byte first. */
  function Words(s: seq<byte>, n: nat): (x: seq<uint32>)
    requires |s| == 4 * n
    ensures |x| == n
  {
    if n == 0 then []
    else
      var at := 4 * n - 4;
      Words(s[..at], n - 1) + [Word4(s[at], s[at + 1], s[at + 2], s[at + 3])]
  }

  /** One block. */
  function Compress(q: Quad, block: seq<byte>): Quad
    requires |block| == BLOCK
  {
    var r := Steps(q, Words(block, 16), 64);
    Quad(Add(q.a, r.a), Add(q.b, r.b), Add(q.c, r.c), Add(q.d, r.d))
  }

  /** Every whole block of s in turn. */
  function Blocks(q: Quad, s: seq<byte>): Quad
    decreases |s|
  {
    if |s| < BLOCK then q else Blocks(Compress(q, s[..BLOCK]), s[BLOCK..])
  }

  // ----- sections 3.1 to 3.3 and 3.5 -----

  const INITIAL := Quad(0x67452301, 0xefcdab89, 0x98badcfe, 0x10325476)

  /** How much padding comes before the length: at least one byte, up to 56 modulo 64. */
  function PadLength(n: nat): nat { if n % BLOCK < 56 then 56 - n % BLOCK else 120 - n % BLOCK }

  function Zeros(n: nat): (r: seq<byte>)
    ensures |r| == n
  {
    seq(n, _ => 0)
  }

  function Padding(n: nat): (r: seq<byte>)
    ensures |r| == PadLength(n)
  {
    [0x80] + Zeros(PadLength(n) - 1)
  }

  function Padded(message: seq<byte>): seq<byte> {
    message + Padding(|message|) + LittleEndian(8 * |message| % TWO_64, 8)
  }

  function Bytes4(w: uint32): seq<byte> { LittleEndian(w, 4) }

  function Digest(message: seq<byte>): seq<byte> {
    var q := Blocks(INITIAL, Padded(message));
    Bytes4(q.a) + Bytes4(q.b) + Bytes4(q.c) + Bytes4(q.d)
  }

  lemma PaddedIsWhole(message: seq<byte>)
    ensures |Padded(message)| % BLOCK == 0
  {
    hide LittleEndian, Padding, PadLength;
    PadIsWhole(|message|);
  }

  lemma PadIsWhole(n: nat)
    ensures (n + PadLength(n) + 8) % BLOCK == 0
  {
  }

  // ----- streaming -----

  /** What is left over of s after its whole blocks. */
  function Leftover(s: seq<byte>): (r: seq<byte>)
    ensures |r| == |s| % BLOCK
  {
    s[|s| - |s| % BLOCK..]
  }

  /** More input after s continues from the state and the leftover. */
  lemma {:induction false} BlocksAppend(q: Quad, s: seq<byte>, t: seq<byte>)
    ensures Blocks(q, s + t) == Blocks(Blocks(q, s), Leftover(s) + t)
    decreases |s|
  {
    hide Compress;
    if |s| < BLOCK {
      assert Leftover(s) == s;
    } else {
      BlocksAppend(Compress(q, s[..BLOCK]), s[BLOCK..], t);
      assert (s + t)[..BLOCK] == s[..BLOCK] && (s + t)[BLOCK..] == s[BLOCK..] + t;
      assert Leftover(s[BLOCK..]) == Leftover(s);
    }
  }

  lemma LeftoverAppend(s: seq<byte>, t: seq<byte>)
    ensures Leftover(s + t) == Leftover(Leftover(s) + t)
  {
    var k := |s| - |s| % BLOCK;
    assert k % BLOCK == 0;
    assert (s + t)[k..] == Leftover(s) + t;
    assert |s + t| % BLOCK == |Leftover(s) + t| % BLOCK;
  }

  /** Whole blocks one by one. */
  lemma BlocksSnoc(q: Quad, t: seq<byte>, p: nat)
    requires p % BLOCK == 0 && p + BLOCK <= |t|
    ensures Blocks(q, t[..p + BLOCK]) == Compress(Blocks(q, t[..p]), t[p..p + BLOCK])
  {
    hide Compress;
    var s, b := t[..p], t[p..p + BLOCK];
    assert t[..p + BLOCK] == s + b;
    BlocksAppend(q, s, b);
    assert Leftover(s) + b == b;
    assert b[..BLOCK] == b && b[BLOCK..] == [];
  }

  lemma BlocksRest(q: Quad, t: seq<byte>, p: nat)
    requires p % BLOCK == 0 && p <= |t| < p + BLOCK
    ensures Blocks(q, t) == Blocks(q, t[..p])
    ensures Leftover(t) == t[p..]
  {
    hide Compress;
    assert t == t[..p] + t[p..];
    BlocksAppend(q, t[..p], t[p..]);
    assert Leftover(t[..p]) + t[p..] == t[p..];
  }

  function EncodeWords(ws: seq<uint32>): (s: seq<byte>)
    ensures |s| == 4 * |ws|
  {
    if ws == [] then [] else EncodeWords(ws[..|ws| - 1]) + Bytes4(ws[|ws| - 1])
  }

  lemma EncodeTwo(lo: uint32, hi: uint32)
    ensures EncodeWords([lo, hi]) == LittleEndian(lo + TWO_32 * hi, 8)
  {
    assert [lo, hi][..1] == [lo] && [lo][..0] == [];
    SplitEight(lo, hi);
    hide LittleEndian;
    assert EncodeWords([lo]) == Bytes4(lo);
  }

  lemma SplitEight(lo: uint32, hi: uint32)
    ensures LittleEndian(lo + TWO_32 * hi, 8) == LittleEndian(lo, 4) + LittleEndian(hi, 4)
  {
    SplitStep(lo, 4, hi, 4);
  }

  /** A number below 256 to the n in front of another. */
  lemma {:induction false} SplitStep(lo: nat, n: nat, hi: nat, k: nat)
    requires lo < Pow256(n)
    ensures LittleEndian(lo + Pow256(n) * hi, n + k) == LittleEndian(lo, n) + LittleEndian(hi, k)
    ensures Pow256(4) == TWO_32
  {
    assert Pow256(4) == 256 * Pow256(3) == 65536 * Pow256(2);
    if n > 0 {
      var v, w := lo + Pow256(n) * hi, Pow256(n - 1) * hi;
      assert v == lo + 256 * w;
      assert v % 256 == lo % 256 && v / 256 == lo / 256 + w;
      SplitStep(lo / 256, n - 1, hi, k);
    }
  }

  /** decode undoes encode. */
  lemma {:induction false} WordsOfEncode(ws: seq<uint32>)
    ensures Words(EncodeWords(ws), |ws|) == ws
  {
    if ws != [] {
      var n := |ws|;
      var front, w := EncodeWords(ws[..n - 1]), ws[n - 1];
      WordsOfEncode(ws[..n - 1]);
      WordOfBytes(w);
      assert EncodeWords(ws) == front + Bytes4(w);
      hide *;
      WordsLast(front, Bytes4(w), n);
      assert ws == ws[..n - 1] + [w];
    }
  }

  /** The words of some bytes and of four more. */
  lemma WordsLast(front: seq<byte>, b: seq<byte>, n: nat)
    requires n > 0 && |front| == 4 * n - 4 && |b| == 4
    ensures |front + b| == 4 * n && Words(front + b, n) == Words(front, n - 1) + [Word4(b[0], b[1], b[2], b[3])]
  {
    assert (front + b)[..4 * n - 4] == front;
    hide Word4;
  }

  lemma WordOfBytes(w: uint32)
    ensures |Bytes4(w)| == 4 && Word4(Bytes4(w)[0], Bytes4(w)[1], Bytes4(w)[2], Bytes4(w)[3]) == w
  {
    var b := Bytes4(w);
    assert b == [w % 256] + LittleEndian(w / 256, 3);
    assert LittleEndian(w / 256, 3) == [w / 256 % 256] + LittleEndian(w / 65536, 2);
    assert LittleEndian(w / 65536, 2) == [w / 65536 % 256] + LittleEndian(w / 16777216, 1);
    assert LittleEndian(w / 16777216, 1) == [w / 16777216 % 256] + LittleEndian(w / 4294967296, 0);
  }

  function HexDigit(d: nat): char
    requires d < 16
  {
    "0123456789abcdef"[d]
  }

  /** Two digits a byte. */
  function HexOf(s: seq<byte>): string {
    if s == [] then "" else HexOf(s[..|s| - 1]) + [HexDigit(s[|s| - 1] / 16), HexDigit(s[|s| - 1] % 16)]
  }

  // ----- the same in figures -----

  /** The table of section 3.4, a round at a time. */
  lemma Table(i: nat)
    requires i < 16
    ensures Sine(i) == [
      0xd76aa478, 0xe8c7b756, 0x242070db, 0xc1bdceee,
      0xf57c0faf, 0x4787c62a, 0xa8304613, 0xfd469501,
      0x698098d8, 0x8b44f7af, 0xffff5bb1, 0x895cd7be,
      0x6b901122, 0xfd987193, 0xa679438e, 0x49b40821][i]
    ensures Sine(16 + i) == [
      0xf61e2562, 0xc040b340, 0x265e5a51, 0xe9b6c7aa,
      0xd62f105d, 0x02441453, 0xd8a1e681, 0xe7d3fbc8,
      0x21e1cde6, 0xc33707d6, 0xf4d50d87, 0x455a14ed,
      0xa9e3e905, 0xfcefa3f8, 0x676f02d9, 0x8d2a4c8a][i]
    ensures Sine(32 + i) == [
      0xfffa3942, 0x8771f681, 0x6d9d6122, 0xfde5380c,
      0xa4beea44, 0x4bdecfa9, 0xf6bb4b60, 0xbebfbc70,
      0x289b7ec6, 0xeaa127fa, 0xd4ef3085, 0x04881d05,
      0xd9d4d039, 0xe6db99e5, 0x1fa27cf8, 0xc4ac5665][i]
    ensures Sine(48 + i) == [
      0xf4292244, 0x432aff97, 0xab9423a7, 0xfc93a039,
      0x655b59c3, 0x8f0ccc92, 0xffeff47d, 0x85845dd1,
      0x6fa87e4f, 0xfe2ce6e0, 0xa3014314, 0x4e0811a1,
      0xf7537e82, 0xbd3af235, 0x2ad7d2bb, 0xeb86d391][i]
  {
    TableRows(i);
  }

  lemma TableRows(i: nat)
    requires i < 16
    ensures Sine(i) == Sine1(i) && Sine(16 + i) == Sine2(16 + i) && Sine(32 + i) == Sine3(32 + i) && Sine(48 + i) == Sine4(48 + i)
  {
    hide Sine1, Sine2, Sine3, Sine4;
  }

  /** The word each step takes, and how far it shifts. */
  lemma WordsAndShifts(i: nat)
    requires i < 16
    ensures Word(i) == i && Word(16 + i) == (1 + 5 * i) % 16 && Word(32 + i) == (5 + 3 * i) % 16 && Word(48 + i) == 7 * i % 16
    ensures Shift(i) == [7, 12, 17, 22][i % 4] && Shift(16 + i) == [5, 9, 14, 20][i % 4]
    ensures Shift(32 + i) == [4, 11, 16, 23][i % 4] && Shift(48 + i) == [6, 10, 15, 21][i % 4]
  {
    WordsOf(i);
    hide Word;
    assert (16 + i) % 4 == i % 4 && (32 + i) % 4 == i % 4 && (48 + i) % 4 == i % 4;
    ShiftsOf(i, i % 4);
    hide Shift;
  }

  lemma WordsOf(i: nat)
    requires i < 16
    ensures Word(i) == i && Word(16 + i) == (1 + 5 * i) % 16 && Word(32 + i) == (5 + 3 * i) % 16 && Word(48 + i) == 7 * i % 16
  {
    SixteenMore(1 + 5 * i, 5);
    SixteenMore(5 + 3 * i, 6);
    SixteenMore(7 * i, 21);
    assert 1 + 5 * (16 + i) == 1 + 5 * i + 16 * 5 && 5 + 3 * (32 + i) == 5 + 3 * i + 16 * 6 && 7 * (48 + i) == 7 * i + 16 * 21;
  }

  lemma SixteenMore(a: nat, k: nat)
    ensures (a + 16 * k) % 16 == a % 16
  {
  }

  lemma ShiftsOf(i: nat, j: nat)
    requires i < 16 && j < 4 && i % 4 == j && (16 + i) % 4 == j && (32 + i) % 4 == j && (48 + i) % 4 == j
    ensures Shift(i) == [7, 12, 17, 22][j] && Shift(16 + i) == [5, 9, 14, 20][j]
    ensures Shift(32 + i) == [4, 11, 16, 23][j] && Shift(48 + i) == [6, 10, 15, 21][j]
  {
  }

  /** A step: a is replaced by b + ((a + f(b, c, d) + X[k] + T[i]) <<< s), and the words change places. */
  lemma StepForm(q: Quad, x: seq<uint32>, i: nat)
    requires i < 64 && |x| == 16
    ensures Steps(q, x, 0) == q
    ensures var p, r := Steps(q, x, i), Steps(q, x, i + 1);
      var f := [F(p.b, p.c, p.d), G(p.b, p.c, p.d), H(p.b, p.c, p.d), I(p.b, p.c, p.d)][i / 16];
      && r.a == p.d && r.c == p.b && r.d == p.c
      && r.b == (p.b + RotateLeft((p.a + f + x[Word(i)] + Sine(i)) % 0x1_0000_0000, Shift(i))) % 0x1_0000_0000
  {
    hide F, G, H, I, RotateLeft, Word, Sine, Shift;
  }

  /** A block: what 64 steps make of the words is added to them. */
  lemma BlockForm(q: Quad, block: seq<byte>)
    requires |block| == 64
    ensures var r := Steps(q, Words(block, 16), 64);
      Compress(q, block) == Quad((q.a + r.a) % 0x1_0000_0000, (q.b + r.b) % 0x1_0000_0000,
                                 (q.c + r.c) % 0x1_0000_0000, (q.d + r.d) % 0x1_0000_0000)
  {
    hide Steps, Words;
  }

  /** Its words are low-order byte first. */
  lemma {:induction false} WordAt(s: seq<byte>, n: nat, k: nat)
    requires |s| == 4 * n && k < n
    ensures Words(s, n)[k] ==
      s[4 * k] as int + 0x100 * s[4 * k + 1] as int + 0x1_0000 * s[4 * k + 2] as int + 0x100_0000 * s[4 * k + 3] as int
    decreases n
  {
    if k < n - 1 {
      WordAt(s[..4 * n - 4], n - 1, k);
    }
  }

  /** The padding: a one bit, zeros, and the length in bits in eight bytes, up to a whole block. */
  lemma PaddedForm(message: seq<byte>)
    ensures var p, n := Padded(message), |message|;
      && |p| % 64 == 0 && n + 9 <= |p| < n + 73 && p[..n] == message && p[n] == 0x80
      && (forall i :: n < i < |p| - 8 ==> p[i] == 0)
      && forall i :: 0 <= i < 8 ==> p[|p| - 8 + i] == 8 * n % TWO_64 / Power(256, i) % 256
  {
    var p, n := Padded(message), |message|;
    PadIsWhole(n);
    hide LittleEndian;
    forall i | 0 <= i < 8
      ensures p[|p| - 8 + i] == 8 * n % TWO_64 / Power(256, i) % 256
    {
      FixedBytes(8 * n % TWO_64, 8, i);
    }
  }

  /** The digest: the four words after all blocks, from the words of section 3.3, low-order byte first. */
  lemma DigestForm(message: seq<byte>, i: nat)
    requires i < 16
    ensures var q := Blocks(Quad(0x67452301, 0xefcdab89, 0x98badcfe, 0x10325476), Padded(message));
      |Digest(message)| == 16 && Digest(message)[i] == [q.a, q.b, q.c, q.d][i / 4] / Power(256, i % 4) % 256
  {
    hide Blocks, Padded, LittleEndian;
    var q := Blocks(INITIAL, Padded(message));
    FixedBytes([q.a, q.b, q.c, q.d][i / 4], 4, i % 4);
  }

  /** Every block in turn, and nothing for less than one. */
  lemma BlocksForm(q: Quad, s: seq<byte>)
    ensures |s| < 64 ==> Blocks(q, s) == q
    ensures |s| >= 64 ==> Blocks(q, s) == Blocks(Compress(q, s[..64]), s[64..])
  {
    hide Compress;
  }

  /** Two digits for each byte. */
  lemma {:induction false} HexForm(s: seq<byte>, i: nat)
    requires i < |s|
    ensures |HexOf(s)| == 2 * |s|
    ensures HexOf(s)[2 * i] == "0123456789abcdef"[s[i] / 16] && HexOf(s)[2 * i + 1] == "0123456789abcdef"[s[i] % 16]
  {
    HexLength(s);
    if i < |s| - 1 {
      HexForm(s[..|s| - 1], i);
    }
  }

  lemma {:induction false} HexLength(s: seq<byte>)
    ensures |HexOf(s)| == 2 * |s|
  {
    if s != [] {
      HexLength(s[..|s| - 1]);
    }
  }
}
