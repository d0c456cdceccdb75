/** The MD5 class: a context updated in place by pieces of input of any size. */
module Md5Hash {
  import opened Bytes
  import opened Bits
  import opened Md5
  import opened Strings

  function FF(a: uint32, b: uint32, c: uint32, d: uint32, x: uint32, s: nat, ac: uint32): uint32
    requires 0 < s < 32
  {
    Add(RotateLeft((a + F(b, c, d) + x + ac) % TWO_32, s), b)
  }

  function GG(a: uint32, b: uint32, c: uint32, d: uint32, x: uint32, s: nat, ac: uint32): uint32
    requires 0 < s < 32
  {
    Add(RotateLeft((a + G(b, c, d) + x + ac) % TWO_32, s), b)
  }

  function HH(a: uint32, b: uint32, c: uint32, d: uint32, x: uint32, s: nat, ac: uint32): uint32
    requires 0 < s < 32
  {
    Add(RotateLeft((a + H(b, c, d) + x + ac) % TWO_32, s), b)
  }

  function II(a: uint32, b: uint32, c: uint32, d: uint32, x: uint32, s: nat, ac: uint32): uint32
    requires 0 < s < 32
  {
    Add(RotateLeft((a + I(b, c, d) + x + ac) % TWO_32, s), b)
  }

  // ----- the unrolled rounds -----

  lemma StepIsFF(i: nat, x: seq<uint32>)
    requires i < 16 && |x| == 16
    ensures forall a, b, c, d :: Apply(i, a, b, c, d, x) == FF(a, b, c, d, x[i], Shift(i), Sine1(i))
  {
    hide Add, RotateLeft, F, Shift, Sine1;
  }

  lemma StepIsGG(i: nat, x: seq<uint32>)
    requires 16 <= i < 32 && |x| == 16
    ensures forall a, b, c, d :: Apply(i, a, b, c, d, x) == GG(a, b, c, d, x[(1 + 5 * i) % 16], Shift(i), Sine2(i))
  {
    hide Add, RotateLeft, G, Shift, Sine2;
  }

  lemma StepIsHH(i: nat, x: seq<uint32>)
    requires 32 <= i < 48 && |x| == 16
    ensures forall a, b, c, d :: Apply(i, a, b, c, d, x) == HH(a, b, c, d, x[(5 + 3 * i) % 16], Shift(i), Sine3(i))
  {
    hide Add, RotateLeft, H, Shift, Sine3;
  }

  lemma StepIsII(i: nat, x: seq<uint32>)
    requires 48 <= i < 64 && |x| == 16
    ensures forall a, b, c, d :: Apply(i, a, b, c, d, x) == II(a, b, c, d, x[7 * i % 16], Shift(i), Sine4(i))
  {
    hide Add, RotateLeft, I, Shift, Sine4;
  }

  /** Four steps bring the words back to their places. */
  lemma FourSteps(q: Quad, x: seq<uint32>, i: nat)
    requires |x| == 16 && i + 4 <= 64
    ensures var p := Steps(q, x, i);
      var a := Apply(i, p.a, p.b, p.c, p.d, x);
      var d := Apply(i + 1, p.d, a, p.b, p.c, x);
      var c := Apply(i + 2, p.c, d, a, p.b, x);
      var b := Apply(i + 3, p.b, c, d, a, x);
      Steps(q, x, i + 4) == Quad(a, b, c, d)
  {
    hide Apply;
    StepOn(q, x, i);
    StepOn(q, x, i + 1);
    StepOn(q, x, i + 2);
    StepOn(q, x, i + 3);
    hide Steps;
  }

  lemma StepOn(q: Quad, x: seq<uint32>, i: nat)
    requires |x| == 16 && i < 64
    ensures var p := Steps(q, x, i); Steps(q, x, i + 1) == Quad(p.d, Apply(i, p.a, p.b, p.c, p.d, x), p.b, p.c)
  {
  }

  method Round1(a0: uint32, b0: uint32, c0: uint32, d0: uint32, x: seq<uint32>, ghost q: Quad)
      returns (a: uint32, b: uint32, c: uint32, d: uint32)
    requires |x| == 16 && Quad(a0, b0, c0, d0) == Steps(q, x, 0)
    ensures Quad(a, b, c, d) == Steps(q, x, 16)
  {
    hide F, G, H, I, RotateLeft, Add, Steps, Apply, Mix, Word, Sine, FF, GG, HH, II;
    a, b, c, d := a0, b0, c0, d0;
    FourSteps(q, x, 0);
    StepIsFF(0, x);
    StepIsFF(1, x);
    StepIsFF(2, x);
    StepIsFF(3, x);
    a := FF(a, b, c, d, x[0], 7, 0xd76aa478);
    d := FF(d, a, b, c, x[1], 12, 0xe8c7b756);
    c := FF(c, d, a, b, x[2], 17, 0x242070db);
    b := FF(b, c, d, a, x[3], 22, 0xc1bdceee);
    FourSteps(q, x, 4);
    StepIsFF(4, x);
    StepIsFF(5, x);
    StepIsFF(6, x);
    StepIsFF(7, x);
    a := FF(a, b, c, d, x[4], 7, 0xf57c0faf);
    d := FF(d, a, b, c, x[5], 12, 0x4787c62a);
    c := FF(c, d, a, b, x[6], 17, 0xa8304613);
    b := FF(b, c, d, a, x[7], 22, 0xfd469501);
    FourSteps(q, x, 8);
    StepIsFF(8, x);
    StepIsFF(9, x);
    StepIsFF(10, x);
    StepIsFF(11, x);
    a := FF(a, b, c, d, x[8], 7, 0x698098d8);
    d := FF(d, a, b, c, x[9], 12, 0x8b44f7af);
    c := FF(c, d, a, b, x[10], 17, 0xffff5bb1);
    b := FF(b, c, d, a, x[11], 22, 0x895cd7be);
    FourSteps(q, x, 12);
    StepIsFF(12, x);
    StepIsFF(13, x);
    StepIsFF(14, x);
    StepIsFF(15, x);
    a := FF(a, b, c, d, x[12], 7, 0x6b901122);
    d := FF(d, a, b, c, x[13], 12, 0xfd987193);
    c := FF(c, d, a, b, x[14], 17, 0xa679438e);
    b := FF(b, c, d, a, x[15], 22, 0x49b40821);
  }

  method Round2(a0: uint32, b0: uint32, c0: uint32, d0: uint32, x: seq<uint32>, ghost q: Quad)
      returns (a: uint32, b: uint32, c: uint32, d: uint32)
    requires |x| == 16 && Quad(a0, b0, c0, d0) == Steps(q, x, 16)
    ensures Quad(a, b, c, d) == Steps(q, x, 32)
  {
    hide F, G, H, I, RotateLeft, Add, Steps, Apply, Mix, Word, Sine, FF, GG, HH, II;
    a, b, c, d := a0, b0, c0, d0;
    FourSteps(q, x, 16);
    StepIsGG(16, x);
    StepIsGG(17, x);
    StepIsGG(18, x);
    StepIsGG(19, x);
    a := GG(a, b, c, d, x[1], 5, 0xf61e2562);
    d := GG(d, a, b, c, x[6], 9, 0xc040b340);
    c := GG(c, d, a, b, x[11], 14, 0x265e5a51);
    b := GG(b, c, d, a, x[0], 20, 0xe9b6c7aa);
    FourSteps(q, x, 20);
    StepIsGG(20, x);
    StepIsGG(21, x);
    StepIsGG(22, x);
    StepIsGG(23, x);
    a := GG(a, b, c, d, x[5], 5, 0xd62f105d);
    d := GG(d, a, b, c, x[10], 9, 0x2441453);
    c := GG(c, d, a, b, x[15], 14, 0xd8a1e681);
    b := GG(b, c, d, a, x[4], 20, 0xe7d3fbc8);
    FourSteps(q, x, 24);
    StepIsGG(24, x);
    StepIsGG(25, x);
    StepIsGG(26, x);
    StepIsGG(27, x);
    a := GG(a, b, c, d, x[9], 5, 0x21e1cde6);
    d := GG(d, a, b, c, x[14], 9, 0xc33707d6);
    c := GG(c, d, a, b, x[3], 14, 0xf4d50d87);
    b := GG(b, c, d, a, x[8], 20, 0x455a14ed);
    FourSteps(q, x, 28);
    StepIsGG(28, x);
    StepIsGG(29, x);
    StepIsGG(30, x);
    StepIsGG(31, x);
    a := GG(a, b, c, d, x[13], 5, 0xa9e3e905);
    d := GG(d, a, b, c, x[2], 9, 0xfcefa3f8);
    c := GG(c, d, a, b, x[7], 14, 0x676f02d9);
    b := GG(b, c, d, a, x[12], 20, 0x8d2a4c8a);
  }

  method Round3(a0: uint32, b0: uint32, c0: uint32, d0: uint32, x: seq<uint32>, ghost q: Quad)
      returns (a: uint32, b: uint32, c: uint32, d: uint32)
    requires |x| == 16 && Quad(a0, b0, c0, d0) == Steps(q, x, 32)
    ensures Quad(a, b, c, d) == Steps(q, x, 48)
  {
    hide F, G, H, I, RotateLeft, Add, Steps, Apply, Mix, Word, Sine, FF, GG, HH, II;
    a, b, c, d := a0, b0, c0, d0;
    FourSteps(q, x, 32);
    StepIsHH(32, x);
    StepIsHH(33, x);
    StepIsHH(34, x);
    StepIsHH(35, x);
    a := HH(a, b, c, d, x[5], 4, 0xfffa3942);
    d := HH(d, a, b, c, x[8], 11, 0x8771f681);
    c := HH(c, d, a, b, x[11], 16, 0x6d9d6122);
    b := HH(b, c, d, a, x[14], 23, 0xfde5380c);
    FourSteps(q, x, 36);
    StepIsHH(36, x);
    StepIsHH(37, x);
    StepIsHH(38, x);
    StepIsHH(39, x);
    a := HH(a, b, c, d, x[1], 4, 0xa4beea44);
    d := HH(d, a, b, c, x[4], 11, 0x4bdecfa9);
    c := HH(c, d, a, b, x[7], 16, 0xf6bb4b60);
    b := HH(b, c, d, a, x[10], 23, 0xbebfbc70);
    FourSteps(q, x, 40);
    StepIsHH(40, x);
    StepIsHH(41, x);
    StepIsHH(42, x);
    StepIsHH(43, x);
    a := HH(a, b, c, d, x[13], 4, 0x289b7ec6);
    d := HH(d, a, b, c, x[0], 11, 0xeaa127fa);
    c := HH(c, d, a, b, x[3], 16, 0xd4ef3085);
    b := HH(b, c, d, a, x[6], 23, 0x4881d05);
    FourSteps(q, x, 44);
    StepIsHH(44, x);
    StepIsHH(45, x);
    StepIsHH(46, x);
    StepIsHH(47, x);
    a := HH(a, b, c, d, x[9], 4, 0xd9d4d039);
    d := HH(d, a, b, c, x[12], 11, 0xe6db99e5);
    c := HH(c, d, a, b, x[15], 16, 0x1fa27cf8);
    b := HH(b, c, d, a, x[2], 23, 0xc4ac5665);
  }

  method Round4(a0: uint32, b0: uint32, c0: uint32, d0: uint32, x: seq<uint32>, ghost q: Quad)
      returns (a: uint32, b: uint32, c: uint32, d: uint32)
    requires |x| == 16 && Quad(a0, b0, c0, d0) == Steps(q, x, 48)
    ensures Quad(a, b, c, d) == Steps(q, x, 64)
  {
    hide F, G, H, I, RotateLeft, Add, Steps, Apply, Mix, Word, Sine, FF, GG, HH, II;
    a, b, c, d := a0, b0, c0, d0;
    FourSteps(q, x, 48);
    StepIsII(48, x);
    StepIsII(49, x);
    StepIsII(50, x);
    StepIsII(51, x);
    a := II(a, b, c, d, x[0], 6, 0xf4292244);
    d := II(d, a, b, c, x[7], 10, 0x432aff97);
    c := II(c, d, a, b, x[14], 15, 0xab9423a7);
    b := II(b, c, d, a, x[5], 21, 0xfc93a039);
    FourSteps(q, x, 52);
    StepIsII(52, x);
    StepIsII(53, x);
    StepIsII(54, x);
    StepIsII(55, x);
    a := II(a, b, c, d, x[12], 6, 0x655b59c3);
    d := II(d, a, b, c, x[3], 10, 0x8f0ccc92);
    c := II(c, d, a, b, x[10], 15, 0xffeff47d);
    b := II(b, c, d, a, x[1], 21, 0x85845dd1);
    FourSteps(q, x, 56);
    StepIsII(56, x);
    StepIsII(57, x);
    StepIsII(58, x);
    StepIsII(59, x);
    a := II(a, b, c, d, x[8], 6, 0x6fa87e4f);
    d := II(d, a, b, c, x[15], 10, 0xfe2ce6e0);
    c := II(c, d, a, b, x[6], 15, 0xa3014314);
    b := II(b, c, d, a, x[13], 21, 0x4e0811a1);
    FourSteps(q, x, 60);
    StepIsII(60, x);
    StepIsII(61, x);
    StepIsII(62, x);
    StepIsII(63, x);
    a := II(a, b, c, d, x[4], 6, 0xf7537e82);
    d := II(d, a, b, c, x[11], 10, 0xbd3af235);
    c := II(c, d, a, b, x[2], 15, 0x2ad7d2bb);
    b := II(b, c, d, a, x[9], 21, 0xeb86d391);
  }

  lemma WordsNone(s: seq<byte>)
    requires s == []
    ensures Words(s, 0) == []
  {
  }

  lemma WordsSnoc(s: seq<byte>, j: nat, i: nat)
    requires j == 4 * i && j + 4 <= |s|
    ensures Words(s[..j + 4], i + 1) == Words(s[..j], i) + [Word4(s[j], s[j + 1], s[j + 2], s[j + 3])]
  {
    assert s[..j + 4][..j] == s[..j];
  }

  /** decode, into an array of words. */
  method Decode(output: array<uint32>, input: seq<byte>)
    requires |input| == 4 * output.Length
    modifies output
    ensures output[..] == Words(input, output.Length)
  {
    hide Words, Word4;
    var j := 0;
    assert Words(input[..0], 0) == [] by { WordsNone(input[..0]); }
    for i := 0 to output.Length
      invariant j == 4 * i && output[..i] == Words(input[..j], i)
    {
      WordsSnoc(input, j, i);
      output[i] := Word4(input[j], input[j + 1], input[j + 2], input[j + 3]);
      assert output[..i + 1] == output[..i] + [output[i]];
      j := j + 4;
    }
    assert output[..] == output[..output.Length] && input[..j] == input;
  }

  /** encode: the bytes of each word, low-order first. */
  method Encode(output: array<byte>, input: seq<uint32>)
    requires output.Length == 4 * |input|
    modifies output
    ensures output[..] == EncodeWords(input)
  {
    var j := 0;
    for i := 0 to |input|
      invariant j == 4 * i && output[..j] == EncodeWords(input[..i])
    {
      ghost var was := output[..j];
      output[j] := input[i] % 256;
      output[j + 1] := input[i] / 0x100 % 256;
      output[j + 2] := input[i] / 0x10000 % 256;
      output[j + 3] := input[i] / 0x1000000 % 256;
      FourBytes(input[i]);
      assert output[..j + 4] == was + [output[j], output[j + 1], output[j + 2], output[j + 3]];
      assert input[..i + 1][..i] == input[..i];
      j := j + 4;
    }
    assert output[..] == output[..j] && input[..|input|] == input;
  }

  lemma FourBytes(w: uint32)
    ensures Bytes4(w) == [w % 256, w / 0x100 % 256, w / 0x10000 % 256, w / 0x1000000 % 256]
  {
    assert Bytes4(w) == [w % 256] + LittleEndian(w / 256, 3);
    assert LittleEndian(w / 256, 3) == [w / 256 % 256] + LittleEndian(w / 65536, 2);
    assert LittleEndian(w / 65536, 2) == [w / 65536 % 256] + LittleEndian(w / 16777216, 1);
    assert LittleEndian(w / 16777216, 1) == [w / 16777216 % 256] + LittleEndian(w / 4294967296, 0);
  }

  /** Where the loop's test i + blocksize <= length still means what it says in 32 bits. */
  predicate NoWrap(index: nat, length: nat) {
    if index == 0 then length < TWO_32 - BLOCK else length + index < TWO_32
  }

  /** The two-word counter before and after a piece of the given length. */
  lemma CountStep(c0: uint32, c1: uint32, n: nat, length: uint32)
    requires c0 + TWO_32 * c1 == 8 * n % TWO_64
    ensures var add := length * 8 % TWO_32;
      var d0 := (c0 + add) % TWO_32;
      var d1 := ((if d0 < add then (c1 + 1) % TWO_32 else c1) + length / 0x2000_0000) % TWO_32;
      d0 + TWO_32 * d1 == 8 * (n + length) % TWO_64
  {
    var add, top, k := length * 8 % TWO_32, length / 0x2000_0000, 8 * n / TWO_64;
    var carry := if c0 + add >= TWO_32 then 1 else 0;
    var d0, m := c0 + add - TWO_32 * carry, c1 + carry + top;
    var d1, h := m % TWO_32, m / TWO_32;
    ShiftSplit(length);
    LowWord(c0, add);
    HighWord(c1, carry, top);
    Remainder(8 * (n + length), d0 + TWO_32 * d1, h + k);
  }

  lemma ShiftSplit(length: uint32)
    ensures 8 * length == length * 8 % TWO_32 + TWO_32 * (length / 0x2000_0000)
  {
  }

  lemma LowWord(c0: uint32, add: uint32)
    ensures var d0 := (c0 + add) % TWO_32;
      && d0 == c0 + add - (if c0 + add >= TWO_32 then TWO_32 else 0)
      && (d0 < add <==> c0 + add >= TWO_32)
  {
  }

  lemma HighWord(c1: uint32, carry: nat, top: nat)
    requires carry <= 1
    ensures ((c1 + carry) % TWO_32 + top) % TWO_32 == (c1 + carry + top) % TWO_32
  {
  }

  lemma Remainder(x: nat, r: nat, q: nat)
    requires x == r + TWO_64 * q && r < TWO_64
    ensures x % TWO_64 == r
  {
  }

  lemma NothingYet(s: seq<byte>)
    requires |s| == 0
    ensures Blocks(INITIAL, []) == INITIAL && Leftover([]) == s
  {
  }

  lemma SliceOf(t: seq<byte>, index: nat, input: seq<byte>, i: nat, n: nat)
    requires index <= |t| && t[index..] == input && i + n <= |input|
    ensures t[index + i..index + i + n] == input[i..i + n]
  {
    assert t[index..][i..i + n] == t[index + i..index + i + n];
  }

  lemma IndexIs(c0: uint32, c1: uint32, n: nat)
    requires c0 + TWO_32 * c1 == 8 * n % TWO_64
    ensures c0 / 8 % BLOCK == n % BLOCK
  {
    var k := 8 * n / TWO_64;
    assert 8 * n == c0 + TWO_32 * c1 + TWO_64 * k;
    EighthOf(c0, c1, k, n);
    var m := 0x80_0000 * c1 + 0x80_0000_0000_0000 * k;
    assert n == c0 / 8 + BLOCK * m;
    AddBlocks(c0 / 8, m);
  }

  lemma EighthOf(c0: nat, c1: nat, k: nat, n: nat)
    requires 8 * n == c0 + TWO_32 * c1 + TWO_64 * k
    ensures n == c0 / 8 + 0x2000_0000 * c1 + 0x2000_0000_0000_0000 * k
  {
  }

  lemma AddBlocks(a: nat, m: nat)
    ensures (a + BLOCK * m) % BLOCK == a % BLOCK
  {
  }

  class Context {
    var finalized: bool
    const buffer: array<byte>
    const count: array<uint32>
    const state: array<uint32>
    const digest: array<byte>

    /** Everything fed in so far. */
    ghost var message: seq<byte>

    ghost predicate Shape() {
      buffer.Length == BLOCK && count.Length == 2 && state.Length == 4 && digest.Length == 16 && buffer != digest && count != state
    }

    ghost function Words4(): Quad
      reads state
      requires Shape()
    {
      Quad(state[0], state[1], state[2], state[3])
    }

    /** The state has taken in the whole blocks, the buffer holds the rest, the counter counts bits. */
    ghost predicate Ok()
      reads this, buffer, count, state
    {
      && Shape() && !finalized
      && Words4() == Blocks(INITIAL, message)
      && buffer[..|message| % BLOCK] == Leftover(message)
      && count[0] + TWO_32 * count[1] == 8 * |message| % TWO_64
    }

    /** init. */
    constructor ()
      ensures Ok() && message == [] && fresh(buffer) && fresh(count) && fresh(state) && fresh(digest)
    {
      buffer, digest := new byte[BLOCK], new byte[16];
      var c := new uint32[2];
      var s := new uint32[4];
      finalized := false;
      count, state := c, s;
      message := [];
      new;
      Init();
    }

    method Init()
      requires Shape() && !finalized && message == []
      modifies count, state
      ensures Ok()
    {
      count[0], count[1] := 0, 0;
      state[0], state[1], state[2], state[3] := 0x67452301, 0xefcdab89, 0x98badcfe, 0x10325476;
      Fresh();
    }

    lemma Fresh()
      requires Shape() && !finalized && message == [] && count[0] == count[1] == 0
      requires state[0] == INITIAL.a && state[1] == INITIAL.b && state[2] == INITIAL.c && state[3] == INITIAL.d
      ensures Ok()
    {
      NothingYet(buffer[..0]);
      hide Blocks, Leftover;
    }

    /** transform: one block, its four unrolled rounds. */
    method Transform(block: seq<byte>)
      requires Shape() && |block| == BLOCK
      modifies state
      ensures Words4() == Compress(old(Words4()), block)
    {
      hide Steps, Words;
      ghost var q := Words4();
      var x := new uint32[16];
      Decode(x, block);
      ghost var w := x[..];
      assert Steps(q, w, 0) == q by { StepsNone(q, w); }
      var a, b, c, d := Round1(state[0], state[1], state[2], state[3], x[..], q);
      a, b, c, d := Round2(a, b, c, d, x[..], q);
      a, b, c, d := Round3(a, b, c, d, x[..], q);
      a, b, c, d := Round4(a, b, c, d, x[..], q);
      state[0], state[1], state[2], state[3] := Add(state[0], a), Add(state[1], b), Add(state[2], c), Add(state[3], d);
    }

    lemma StepsNone(q: Quad, x: seq<uint32>)
      requires |x| == 16
      ensures Steps(q, x, 0) == q
    {
    }

    /** memcpy into the buffer. */
    method Fill(index: nat, data: seq<byte>)
      requires Shape() && index + |data| <= BLOCK
      modifies buffer
      ensures buffer[..index + |data|] == old(buffer[..index]) + data
    {
      for i := 0 to |data|
        invariant buffer[..index] == old(buffer[..index]) && buffer[index..index + i] == data[..i]
      {
        buffer[index + i] := data[i];
        assert data[..i + 1] == data[..i] + [data[i]];
      }
      assert data[..|data|] == data;
      assert buffer[..index + |data|] == buffer[..index] + buffer[index..index + |data|];
    }

    /** The counter goes on by the piece's bits. */
    method CountBits(length: uint32, ghost n: nat)
      requires Shape() && count[0] + TWO_32 * count[1] == 8 * n % TWO_64
      modifies count
      ensures count[0] + TWO_32 * count[1] == 8 * (n + length) % TWO_64
    {
      CountStep(count[0], count[1], n, length);
      var add := length * 8 % TWO_32;
      count[0] := (count[0] + add) % TWO_32;
      if count[0] < add {
        count[1] := (count[1] + 1) % TWO_32;
      }
      count[1] := (count[1] + length / 0x2000_0000) % TWO_32;
    }

    /** Transforms the whole blocks of a piece from i on; index bytes came before the piece. */
    method TransformWhole(input: seq<byte>, start: nat, ghost index: nat, ghost t: seq<byte>, ghost q: Quad) returns (i: nat)
      requires Shape() && start <= |input| < TWO_32 && index < BLOCK && (index + start) % BLOCK == 0 && NoWrap(index, |input|)
      requires |t| == index + |input| && t[index..] == input && Words4() == Blocks(q, t[..index + start])
      modifies state
      ensures start <= i <= |input| < i + BLOCK && (index + i) % BLOCK == 0
      ensures Words4() == Blocks(q, t[..index + i])
    {
      hide Blocks, Compress;
      i := start;
      while (i + BLOCK) % TWO_32 <= |input|
        invariant start <= i <= |input| && (index + i) % BLOCK == 0
        invariant Words4() == Blocks(q, t[..index + i])
        decreases |input| - i
      {
        WrapFree(index, i, |input|);
        BlocksSnoc(q, t, index + i);
        SliceOf(t, index, input, i, BLOCK);
        Transform(input[i..i + BLOCK]);
        i := (i + BLOCK) % TWO_32;
      }
      WrapFree(index, i, |input|);
    }

    /** The state and the buffer after a piece, the counter apart. */
    ghost predicate Taken(q: Quad, t: seq<byte>)
      reads buffer, state
    {
      Shape() && Words4() == Blocks(q, t) && buffer[..|t| % BLOCK] == Leftover(t)
    }

    /** update's memory: fill the buffer, transform what is whole, keep the rest. */
    method TakeIn(input: seq<byte>, index: nat, ghost front: seq<byte>)
      requires Shape() && index < BLOCK && |input| < TWO_32 && NoWrap(index, |input|)
      requires front == buffer[..index]
      modifies buffer, state
      ensures Taken(old(Words4()), front + input)
    {
      hide Blocks, Compress, Leftover, Words4, Taken, NoWrap;
      if |input| >= BLOCK - index {
        TakeBlocks(input, index, front);
      } else {
        Fill(index, input);
        StillShort(front + input);
      }
    }

    lemma StillShort(t: seq<byte>)
      requires Shape() && |t| < BLOCK && buffer[..|t|] == t
      ensures Taken(Words4(), t)
    {
      assert t[0..] == t;
    }

    /** The case in which the buffer fills up. */
    method TakeBlocks(input: seq<byte>, index: nat, ghost front: seq<byte>)
      requires Shape() && index < BLOCK && BLOCK - index <= |input| < TWO_32 && NoWrap(index, |input|)
      requires front == buffer[..index]
      modifies buffer, state
      ensures Taken(old(Words4()), front + input)
    {
      ghost var q, t := Words4(), front + input;
      hide Blocks, Compress, Leftover, Words4, NoWrap, Taken, Shape;
      assert index <= buffer.Length && |front| == index by { HasBuffer(); }
      BehindFront(t, front, input);
      TransformFirst(input, index, front);
      var i := TransformWhole(input, BLOCK - index, index, t, q);
      SuffixOf(t, index, input, i);
      KeepRest(input[i..], t, index + i, q);
    }

    /** Fills the buffer and transforms it. */
    method TransformFirst(input: seq<byte>, index: nat, ghost front: seq<byte>)
      requires Shape() && index < BLOCK && BLOCK - index <= |input| && front == buffer[..index]
      modifies buffer, state
      ensures Words4() == Blocks(old(Words4()), (front + input)[..BLOCK])
    {
      hide Blocks, Compress, Words4;
      FirstBlock(Words4(), front + input, front, input);
      Fill(index, input[..BLOCK - index]);
      assert buffer[..] == buffer[..BLOCK];
      Transform(buffer[..]);
    }

    /** What is not a whole block stays in the buffer. */
    method KeepRest(rest: seq<byte>, ghost t: seq<byte>, ghost p: nat, ghost q: Quad)
      requires Shape() && p <= |t| < p + BLOCK && p % BLOCK == 0 && rest == t[p..] && Words4() == Blocks(q, t[..p])
      modifies buffer
      ensures Taken(q, t)
    {
      hide Blocks, Leftover, Words4;
      BlocksRest(q, t, p);
      KeptRest(buffer[..0], rest, t, p);
      Fill(0, rest);
    }

    lemma FirstBlock(q: Quad, t: seq<byte>, front: seq<byte>, input: seq<byte>)
      requires t == front + input && |front| < BLOCK && |input| >= BLOCK - |front|
      ensures front + input[..BLOCK - |front|] == t[..BLOCK]
      ensures Blocks(q, t[..BLOCK]) == Compress(q, t[..BLOCK])
    {
      hide Compress;
      var b := t[..BLOCK];
      assert b[..BLOCK] == b && b[BLOCK..] == [];
    }

    lemma HasBuffer()
      requires Shape()
      ensures buffer.Length == BLOCK
    {
    }

    lemma BehindFront(t: seq<byte>, front: seq<byte>, input: seq<byte>)
      requires t == front + input
      ensures t[|front|..] == input
    {
    }

    lemma SuffixOf(t: seq<byte>, index: nat, input: seq<byte>, i: nat)
      requires index <= |t| && t[index..] == input && i <= |input|
      ensures t[index + i..] == input[i..]
    {
    }

    lemma KeptRest(none: seq<byte>, rest: seq<byte>, t: seq<byte>, p: nat)
      requires none == [] && p <= |t| < p + BLOCK && p % BLOCK == 0 && rest == t[p..]
      ensures none + rest == rest && 0 + |rest| == |t| % BLOCK
    {
    }

    /** update: one more piece of input. */
    method Update(input: seq<byte>)
      requires Ok() && |input| < TWO_32 && NoWrap(|message| % BLOCK, |input|)
      modifies this`message, buffer, count, state
      ensures Ok() && message == old(message) + input
    {
      hide Blocks, Leftover, Words4, Ok, Taken, NoWrap, INITIAL;
      OkParts();
      IndexIs(count[0], count[1], |message|);
      var index := count[0] / 8 % BLOCK;
      CountBits(|input|, |message|);
      TakeIn(input, index, Leftover(message));
      ghost var m := message;
      message := message + input;
      OkAgain(m, input);
    }

    lemma OkParts()
      requires Ok()
      ensures Shape() && !finalized && buffer[..|message| % BLOCK] == Leftover(message)
      ensures Words4() == Blocks(INITIAL, message) && count[0] + TWO_32 * count[1] == 8 * |message| % TWO_64
    {
    }

    lemma OkAgain(m: seq<byte>, input: seq<byte>)
      requires Taken(Blocks(INITIAL, m), Leftover(m) + input) && !finalized && message == m + input
      requires Shape() && count[0] + TWO_32 * count[1] == 8 * (|m| + |input|) % TWO_64
      ensures Ok()
    {
      hide Blocks, Leftover, Words4, Shape, INITIAL;
      BlocksAppend(INITIAL, m, input);
      LeftoverAppend(m, input);
      SameRemainder(|m|, |input|);
      assert |Leftover(m) + input| % BLOCK == |message| % BLOCK;
    }

    lemma SameRemainder(n: nat, k: nat)
      ensures (n % BLOCK + k) % BLOCK == (n + k) % BLOCK
    {
    }

    /** finalize: pads, appends the length before padding, and stores the digest; once only. */
    method Finalize()
      requires finalized || Ok()
      requires Shape()
      modifies this`finalized, this`message, buffer, count, state, digest
      ensures finalized && Shape() && message == old(message)
      ensures old(finalized) ==> digest[..] == old(digest[..])
      ensures !old(finalized) ==> digest[..] == Digest(message) && Words(digest[..], 4) == state[..] && Leftover(Padded(message)) == []
    {
      hide Ok, Padding, LittleEndian, Padded, Digest, NoWrap, Shape;
      if !finalized {
        ghost var m := message;
        var bits := LengthBits();
        var padding := PadBytes();
        ShortIsSafe(message, padding);
        Update(padding);
        ShortIsSafe(message, bits);
        Update(bits);
        IsPadded(m);
        HasShape(this);
        StoreDigest(m);
        message := m;
      }
    }

    lemma IsPadded(m: seq<byte>)
      ensures m + Padding(|m|) + LittleEndian(8 * |m| % TWO_64, 8) == Padded(m)
    {
    }

    /** The counter's image. */
    method LengthBits() returns (s: seq<byte>)
      requires Ok()
      ensures |s| == 8 && s == LittleEndian(8 * |message| % TWO_64, 8)
    {
      OkParts();
      hide Blocks, Leftover, Words4, LittleEndian, EncodeWords;
      var bits := new byte[8];
      assert count[..] == [count[0], count[1]];
      EncodeTwo(count[0], count[1]);
      Encode(bits, count[..]);
      s := bits[..];
    }

    /** As much of the padding table as brings the length to 56 modulo 64. */
    method PadBytes() returns (s: seq<byte>)
      requires Ok()
      ensures s == Padding(|message|) && |s| <= 64
    {
      OkParts();
      hide Blocks, Leftover, Words4;
      IndexIs(count[0], count[1], |message|);
      var index := count[0] / 8 % BLOCK;
      var padLen := if index < 56 then 56 - index else 120 - index;
      s := ([0x80] + Zeros(63))[..padLen];
    }

    /** Writes the state out and clears the context. */
    method StoreDigest(ghost m: seq<byte>)
      requires Ok() && message == Padded(m)
      modifies this`finalized, buffer, count, digest
      ensures finalized && Shape() && digest[..] == Digest(m)
      ensures Words(digest[..], 4) == state[..] && Leftover(Padded(m)) == []
    {
      assert state[..] == [state[0], state[1], state[2], state[3]];
      WordsOfEncode(state[..]);
      PaddedIsWhole(m);
      EncodeFour(state[0], state[1], state[2], state[3]);
      hide Blocks, Padded, EncodeWords, Bytes4, Words;
      Encode(digest, state[..]);
      for i := 0 to BLOCK
        invariant digest[..] == Digest(m) == EncodeWords(state[..])
      {
        buffer[i] := 0;
      }
      count[0], count[1] := 0, 0;
      finalized := true;
    }

    lemma EncodeFour(a: uint32, b: uint32, c: uint32, d: uint32)
      ensures EncodeWords([a, b, c, d]) == Bytes4(a) + Bytes4(b) + Bytes4(c) + Bytes4(d)
    {
      hide Bytes4;
      assert [a, b, c, d][..3] == [a, b, c] && [a, b, c][..2] == [a, b] && [a, b][..1] == [a] && [a][..0] == [];
      assert EncodeWords([]) == [] && EncodeWords([a]) == Bytes4(a);
      assert EncodeWords([a, b]) == Bytes4(a) + Bytes4(b);
      assert EncodeWords([a, b, c]) == Bytes4(a) + Bytes4(b) + Bytes4(c);
    }

    /** hexdigest: nothing before the end. */
    method HexDigest() returns (hex: string)
      requires Shape()
      ensures hex == if finalized then HexOf(digest[..]) else ""
    {
      if !finalized {
        return "";
      }
      hex := "";
      for i := 0 to 16
        invariant hex == HexOf(digest[..i])
      {
        assert digest[..i + 1][..i] == digest[..i];
        hex := hex + [Md5.HexDigit(digest[i] / 16), Md5.HexDigit(digest[i] % 16)];
      }
      assert digest[..16] == digest[..];
    }
  }

  /** However a message is cut into pieces, the digest is the one of the whole message. */
  method HashPieces(pieces: seq<seq<byte>>) returns (hex: string)
    requires forall p | p in pieces :: |p| < TWO_32 - BLOCK
    ensures hex == HexOf(Digest(Flat(pieces)))
  {
    hide *;
    var md5 := new Context();
    FlatNothing(pieces);
    for i := 0 to |pieces|
      invariant md5.Ok() && md5.message == Flat(pieces[..i])
      invariant fresh(md5) && fresh(md5.buffer) && fresh(md5.count) && fresh(md5.state) && fresh(md5.digest)
    {
      NextPiece(pieces, i);
      ShortIsSafe(md5.message, pieces[i]);
      md5.Update(pieces[i]);
    }
    HasShape(md5);
    md5.Finalize();
    hex := md5.HexDigest();
  }

  lemma FlatNothing(pieces: seq<seq<byte>>)
    ensures pieces[..0] == [] && Flat<byte>([]) == [] && pieces[..|pieces|] == pieces
  {
  }

  lemma NextPiece(pieces: seq<seq<byte>>, i: nat)
    requires i < |pieces|
    ensures Flat(pieces[..i + 1]) == Flat(pieces[..i]) + pieces[i] && pieces[i] in pieces
  {
    assert pieces[..i + 1] == pieces[..i] + [pieces[i]];
    FlatSnoc(pieces[..i], pieces[i]);
  }

  lemma ShortIsSafe(message: seq<byte>, piece: seq<byte>)
    requires |piece| < TWO_32 - BLOCK
    ensures |piece| < TWO_32 && NoWrap(|message| % BLOCK, |piece|)
  {
  }

  lemma HasShape(md5: Context)
    requires md5.Ok()
    ensures md5.Shape() && !md5.finalized
  {
  }

  /** The loop's sum does not wrap as long as the piece is short enough. */
  lemma WrapFree(index: nat, i: nat, length: nat)
    requires index < BLOCK && (index + i) % BLOCK == 0 && i <= length < TWO_32 && NoWrap(index, length)
    ensures i + BLOCK < TWO_32
  {
  }

  /** The loop's test at i, in 32 bits. */
  predicate GoesOn(i: nat, length: nat) { (i + BLOCK) % TWO_32 <= length }

  /** The test tells whether another whole block is there. */
  predicate TestsRight(i: nat, length: nat) {
    GoesOn(i, length) <==> i + BLOCK <= length
  }

  /** The test is right at every place it can be asked exactly for pieces of these lengths. */
  lemma NoWrapExact(index: nat, length: nat)
    requires index < BLOCK && length < TWO_32
    ensures NoWrap(index, length) <==>
      forall i :: 0 <= i <= length && (index + i) % BLOCK == 0 ==> TestsRight(i, length)
  {
    if NoWrap(index, length) {
      forall i | 0 <= i <= length && (index + i) % BLOCK == 0
        ensures TestsRight(i, length)
      {
        WrapFree(index, i, length);
      }
    } else {
      var i: nat := if index == 0 then TWO_32 - BLOCK else TWO_32 - index;
      assert 0 <= i <= length && (index + i) % BLOCK == 0 && !TestsRight(i, length);
    }
  }

  /** For any other length the loop, which starts behind the bytes that fill the buffer, passes its test
      at every place up to i, rightly before i and wrongly at i: it transforms a block that reaches past
      the end of the piece. */
  lemma LoopRunsOn(index: nat, length: nat) returns (i: nat)
    requires index < BLOCK && length < TWO_32 && !NoWrap(index, length)
    ensures BLOCK - index <= i <= length < i + BLOCK && (index + i) % BLOCK == 0
    ensures GoesOn(i, length)
    ensures forall j: nat :: BLOCK - index <= j < i && (index + j) % BLOCK == 0 ==> GoesOn(j, length) && TestsRight(j, length)
  {
    i := if index == 0 then TWO_32 - BLOCK else TWO_32 - index;
    forall j: nat | BLOCK - index <= j < i && (index + j) % BLOCK == 0
      ensures GoesOn(j, length) && TestsRight(j, length)
    {
      StepsOf(index, i, j);
    }
  }

  /** Two places of the loop are whole blocks apart. */
  lemma StepsOf(index: nat, i: nat, j: nat)
    requires (index + i) % BLOCK == 0 && (index + j) % BLOCK == 0 && j < i
    ensures j + BLOCK <= i
  {
  }
}
