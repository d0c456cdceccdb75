/** Base-128 variable-length integers: EncodeVarInt, GetVarIntSize and DecodeVarInt. */
module VarInt {
  import opened Bytes

  const MAX_BYTES := 16
  const OUT_OF_BOUNDS := 1
  const VARINT_TOO_BIG := 2

  /** The shortest base-128 form of num, least significant group first; every byte but
      the last has its top bit set. */
  function Digits(num: nat): (r: seq<byte>)
    ensures |r| >= 1
  {
    if num < 128 then [num] else [num % 128 + 128] + Digits(num / 128)
  }

  function Pow128(n: nat): (r: nat)
    ensures r >= 1
  {
    if n == 0 then 1 else 128 * Pow128(n - 1)
  }

  lemma {:induction false} DigitsLength(num: nat, k: nat)
    requires k >= 1 && num < Pow128(k)
    ensures |Digits(num)| <= k
  {
    if num >= 128 {
      assert Pow128(k) == 128 * Pow128(k - 1);
      assert Pow128(0) == 1;
      DigitsLength(num / 128, k - 1);
    }
  }

  /** Every 64-bit value takes at most ten bytes. */
  lemma DigitsAtMostTen(num: uint64)
    ensures |Digits(num)| <= 10
  {
    assert Pow128(10) == 0x40_0000_0000_0000_0000 by {
      assert Pow128(2) == 0x4000;
      assert Pow128(4) == 0x4000 * 0x4000;
      assert Pow128(6) == 0x4000 * 0x4000 * 0x4000;
      assert Pow128(8) == 0x4000 * 0x4000 * 0x4000 * 0x4000;
    }
    DigitsLength(num, 10);
  }

  lemma {:induction false} DigitsMonotone(a: nat, b: nat)
    requires a <= b
    ensures |Digits(a)| <= |Digits(b)|
  {
    if a >= 128 {
      DigitsMonotone(a / 128, b / 128);
    }
  }

  lemma DigitsStep(num: nat, n: nat, rest: nat)
    requires n < |Digits(num)| && Digits(num)[n..] == Digits(rest)
    ensures rest < 128 ==> Digits(num)[n] == rest && n + 1 == |Digits(num)|
    ensures rest >= 128 ==> Digits(num)[n] == rest % 128 + 128 && n + 1 < |Digits(num)|
    ensures rest >= 128 ==> Digits(num)[n + 1..] == Digits(rest / 128)
  {
    assert Digits(num)[n] == Digits(rest)[0];
    assert Digits(num)[n + 1..] == Digits(rest)[1..];
  }

  /** Appends num to the stream, as EncodeVarInt does to its output vector. */
  method EncodeVarInt(stream: seq<byte>, num: uint64) returns (out: seq<byte>)
    ensures out == stream + Digits(num)
  {
    DigitsAtMostTen(num);
    var digits := new byte[16];
    var numDigits: nat := 0;
    var rest: nat := num;
    ghost var d := Digits(num);
    while true
      invariant numDigits < |d| && d[numDigits..] == Digits(rest)
      invariant forall j :: 0 <= j < numDigits ==> digits[j] == d[j]
      decreases rest
    {
      DigitsStep(num, numDigits, rest);
      var thisByte := rest % 128;
      rest := rest / 128;
      digits[numDigits] := thisByte + 128;
      numDigits := numDigits + 1;
      if rest == 0 {
        break;
      }
    }
    digits[numDigits - 1] := digits[numDigits - 1] - 128;
    out := stream;
    for i := 0 to numDigits
      invariant out == stream + d[..i]
    {
      out := out + [digits[i]];
      assert d[..i + 1] == d[..i] + [d[i]];
    }
    assert d[..numDigits] == d;
  }

  method GetVarIntSize(num: uint64) returns (size: nat)
    ensures size == |Digits(num)| && size <= 10
  {
    DigitsAtMostTen(num);
    var rest: nat := num / 128;
    size := 1;
    while rest != 0
      decreases rest
      invariant size + (if rest == 0 then 0 else |Digits(rest)|) == |Digits(num)|
    {
      rest := rest / 128;
      size := size + 1;
    }
  }

  /** What a read leaves behind: the value (0 on error), the error code (0 on success) and
      the number of bytes taken from the input. */
  datatype Read = Read(value: uint64, error: int, used: nat)

  /** The number of leading bytes whose top bit is set. */
  function Continuations(s: seq<byte>): (k: nat)
    ensures k <= |s|
    ensures forall i :: 0 <= i < k ==> s[i] >= 128
    ensures k < |s| ==> s[k] < 128
  {
    if s == [] || s[0] < 128 then 0 else 1 + Continuations(s[1..])
  }

  /** The unbounded integer written by a run of base-128 groups. */
  function Groups(s: seq<byte>): nat {
    if s == [] then 0 else s[0] % 128 + 128 * Groups(s[1..])
  }

  /** What one read does at the front of s: sixteen bytes at most, the value taken modulo 2^64. */
  function ReadVarInt(s: seq<byte>): (r: Read)
    ensures r.used <= |s|
    ensures r.error == 0 ==> r.used >= 1
    ensures r.error != 0 ==> r.value == 0
  {
    var k := Continuations(s);
    if k >= MAX_BYTES then
      Read(0, if |s| > MAX_BYTES then VARINT_TOO_BIG else OUT_OF_BOUNDS, MAX_BYTES)
    else if k == |s| then
      Read(0, OUT_OF_BOUNDS, k)
    else
      Read(Groups(s[..k + 1]) % TWO_64, 0, k + 1)
  }

  lemma ModStep(a: nat, b: nat)
    ensures (a % TWO_64 * 128 + b) % TWO_64 == (b + 128 * a) % TWO_64
  {
    var q := a / TWO_64;
    assert b + 128 * a == (a % TWO_64 * 128 + b) + (128 * q) * TWO_64;
    ModShift(a % TWO_64 * 128 + b, 128 * q);
  }

  lemma ModShift(x: nat, q: nat)
    ensures (x + q * TWO_64) % TWO_64 == x % TWO_64
  {
    var r, p := x % TWO_64, x / TWO_64;
    assert x + q * TWO_64 == (p + q) * TWO_64 + r;
  }

  lemma {:induction false} ContinuationsAtLeast(s: seq<byte>, k: nat)
    requires k <= |s| && forall i :: 0 <= i < k ==> s[i] >= 128
    ensures Continuations(s) >= k
    ensures k < |s| && s[k] < 128 ==> Continuations(s) == k
  {
    if k > 0 {
      ContinuationsAtLeast(s[1..], k - 1);
    }
  }

  /** Reads one integer at data[offset..] and advances the offset past the bytes it took. */
  method DecodeVarInt(data: seq<byte>, offset: nat) returns (value: uint64, error: int, next: nat)
    requires offset <= |data|
    ensures offset <= next <= |data|
    ensures ReadVarInt(data[offset..]) == Read(value, error, next - offset)
  {
    var bytes := new byte[16];
    var byteCount: nat := 0;
    ghost var s := data[offset..];
    while true
      invariant byteCount <= 16 && byteCount <= |s|
      invariant bytes[..byteCount] == s[..byteCount]
      invariant forall i :: 0 <= i < byteCount ==> s[i] >= 128
      decreases |s| - byteCount
    {
      ContinuationsAtLeast(s, byteCount);
      if offset + byteCount >= |data| {
        return 0, OUT_OF_BOUNDS, offset + byteCount;
      }
      if byteCount >= 16 {
        return 0, VARINT_TOO_BIG, offset + byteCount;
      }
      bytes[byteCount] := data[offset + byteCount];
      byteCount := byteCount + 1;
      if bytes[byteCount - 1] < 128 {
        ContinuationsAtLeast(s, byteCount - 1);
        break;
      }
    }
    assert Continuations(s) == byteCount - 1;
    assert s[..byteCount - 1 + 1] == bytes[..byteCount];
    value := Combine(bytes, byteCount);
    return value, 0, offset + byteCount;
  }

  function CombineOne(high: uint64, b: byte): uint64 {
    (high * 128 + b % 128) % TWO_64
  }

  lemma CombineStep(t: seq<byte>, i: nat)
    requires i < |t|
    ensures Groups(t[i..]) % TWO_64 == CombineOne(Groups(t[i + 1..]) % TWO_64, t[i])
  {
    assert t[i..][1..] == t[i + 1..];
    ModStep(Groups(t[i + 1..]), t[i] % 128);
  }

  /** Folds the gathered groups into a value, most significant group first. */
  method Combine(bytes: array<byte>, byteCount: nat) returns (value: uint64)
    requires byteCount <= bytes.Length
    ensures value == Groups(bytes[..byteCount]) % TWO_64
  {
    value := 0;
    ghost var t := bytes[..byteCount];
    var i := byteCount;
    while i > 0
      invariant 0 <= i <= byteCount
      invariant value == Groups(t[i..]) % TWO_64
    {
      i := i - 1;
      CombineStep(t, i);
      value := CombineOne(value, bytes[i]);
    }
    assert t[0..] == t;
  }

  lemma {:induction false} DigitsShape(num: nat)
    ensures Groups(Digits(num)) == num
    ensures forall rest: seq<byte> :: Continuations(Digits(num) + rest) == |Digits(num)| - 1
  {
    if num >= 128 {
      DigitsShape(num / 128);
      assert Digits(num)[1..] == Digits(num / 128);
      forall rest: seq<byte> ensures Continuations(Digits(num) + rest) == |Digits(num)| - 1 {
        assert (Digits(num) + rest)[1..] == Digits(num / 128) + rest;
      }
    } else {
      assert Groups([num]) == num + 128 * Groups([num][1..]);
    }
  }

  /** Reading what was written gives the value back and takes exactly its bytes, whatever follows. */
  lemma VarIntRoundTrip(num: uint64, rest: seq<byte>)
    ensures ReadVarInt(Digits(num) + rest) == Read(num, 0, |Digits(num)|)
  {
    DigitsAtMostTen(num);
    DigitsShape(num);
    var s := Digits(num) + rest;
    assert Continuations(s) == |Digits(num)| - 1;
    assert s[..|Digits(num)|] == Digits(num);
  }

  lemma {:induction false} GroupsNotShorter(s: seq<byte>)
    requires s != []
    ensures |Digits(Groups(s))| <= |s|
  {
    if |s| > 1 {
      GroupsNotShorter(s[1..]);
      var n := Groups(s[1..]);
      assert Groups(s) / 128 == n;
    } else {
      assert Groups(s[1..]) == 0;
    }
  }

  /** A value read from the wire never needs more bytes than it was read from. */
  lemma RereadNotLonger(s: seq<byte>)
    requires ReadVarInt(s).error == 0
    ensures |Digits(ReadVarInt(s).value)| <= ReadVarInt(s).used
  {
    var t := s[..Continuations(s) + 1];
    GroupsNotShorter(t);
    DigitsMonotone(Groups(t) % TWO_64, Groups(t));
  }

  /** A read is in shortest form when the bytes it took are the ones the encoder writes for
      its value: no padding groups, and no bits lost beyond the 64th. */
  ghost predicate Shortest(s: seq<byte>) {
    var r := ReadVarInt(s);
    r.error == 0 && s[..r.used] == Digits(r.value)
  }
}
