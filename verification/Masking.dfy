/** Masking of WebSocket payloads a machine word at a time, against the byte rule of section 5.3
    of RFC 6455.  A size_t has four or eight bytes and its memory image starts with the lowest. */
module Masking {

  /** sizeof(size_t). */
  type WordSize = w: nat | w == 4 || w == 8 witness 8

  type Key = k: seq<bv8> | |k| == 4 witness [0, 0, 0, 0]

  // ----- the byte rule -----

  function Xor(x: bv8, y: bv8): bv8 { x ^ y }

  /** Byte i of the payload is combined with byte i modulo 4 of the key, counted from offset. */
  function Masked(data: seq<bv8>, key: Key, offset: nat): (r: seq<bv8>)
    ensures |r| == |data|
    ensures forall i :: 0 <= i < |data| ==> r[i] == Xor(data[i], key[(offset + i) % 4])
  {
    if data == [] then [] else Masked(data[..|data| - 1], key, offset) + [Xor(data[|data| - 1], key[(offset + |data| - 1) % 4])]
  }

  lemma XorTwice(x: bv8, y: bv8)
    ensures Xor(Xor(x, y), y) == x
  {
  }

  /** Masking twice gives the payload back. */
  lemma MaskTwice(data: seq<bv8>, key: Key, offset: nat)
    ensures Masked(Masked(data, key, offset), key, offset) == data
  {
    forall i | 0 <= i < |data|
      ensures Masked(Masked(data, key, offset), key, offset)[i] == data[i]
    {
      XorTwice(data[i], key[(offset + i) % 4]);
    }
  }

  lemma MaskedAppend(a: seq<bv8>, b: seq<bv8>, key: Key, offset: nat)
    ensures Masked(a + b, key, offset) == Masked(a, key, offset) + Masked(b, key, offset + |a|)
  {
  }

  // ----- words and their bytes -----

  /** A size_t of that many bytes: a short one leaves the upper half unused. */
  predicate Fits(w: bv64, size: WordSize) { size == 8 || w <= 0xffff_ffff }

  /** What a size_t of that many bytes keeps of a result. */
  function Truncated(w: bv64, size: WordSize): bv64 { if size == 8 then w else w & 0xffff_ffff }

  /** Byte i of a word's memory image. */
  function ByteAt(w: bv64, i: nat): bv8
    requires i < 8
  {
    match i
    case 0 => ((w >> 0) & 0xff) as bv8
    case 1 => ((w >> 8) & 0xff) as bv8
    case 2 => ((w >> 16) & 0xff) as bv8
    case 3 => ((w >> 24) & 0xff) as bv8
    case 4 => ((w >> 32) & 0xff) as bv8
    case 5 => ((w >> 40) & 0xff) as bv8
    case 6 => ((w >> 48) & 0xff) as bv8
    case 7 => ((w >> 56) & 0xff) as bv8
  }

  /** The word whose memory image is s. */
  function Load(s: seq<bv8>): bv64
    requires |s| == 4 || |s| == 8
  {
    if |s| == 8 then Join(s[0], s[1], s[2], s[3], s[4], s[5], s[6], s[7]) else Join(s[0], s[1], s[2], s[3], 0, 0, 0, 0)
  }

  function Image(w: bv64, size: WordSize): (s: seq<bv8>)
    ensures |s| == size && forall i :: 0 <= i < size ==> s[i] == ByteAt(w, i)
  {
    [ByteAt(w, 0), ByteAt(w, 1), ByteAt(w, 2), ByteAt(w, 3)]
    + if size == 4 then [] else [ByteAt(w, 4), ByteAt(w, 5), ByteAt(w, 6), ByteAt(w, 7)]
  }

  lemma LoadedByte(s: seq<bv8>, i: nat)
    requires (|s| == 4 || |s| == 8) && i < |s|
    ensures ByteAt(Load(s), i) == s[i]
  {
    var a, b, c, d := s[0], s[1], s[2], s[3];
    var e, f, g, h := if |s| == 8 then s[4] else 0, if |s| == 8 then s[5] else 0, if |s| == 8 then s[6] else 0, if |s| == 8 then s[7] else 0;
    if i < 4 {
      LoadedLow(a, b, c, d, Load(s), e, f, g, h);
    } else {
      LoadedHigh(a, b, c, d, Load(s), e, f, g, h);
    }
  }

  function Join(a: bv8, b: bv8, c: bv8, d: bv8, e: bv8, f: bv8, g: bv8, h: bv8): bv64 {
    a as bv64 | (b as bv64 << 8) | (c as bv64 << 16) | (d as bv64 << 24)
    | (e as bv64 << 32) | (f as bv64 << 40) | (g as bv64 << 48) | (h as bv64 << 56)
  }

  lemma LoadedLow(a: bv8, b: bv8, c: bv8, d: bv8, w: bv64, e: bv8, f: bv8, g: bv8, h: bv8)
    requires w == Join(a, b, c, d, e, f, g, h)
    ensures ByteAt(w, 0) == a && ByteAt(w, 1) == b && ByteAt(w, 2) == c && ByteAt(w, 3) == d
  {
  }

  lemma LoadedHigh(a: bv8, b: bv8, c: bv8, d: bv8, w: bv64, e: bv8, f: bv8, g: bv8, h: bv8)
    requires w == Join(a, b, c, d, e, f, g, h)
    ensures ByteAt(w, 4) == e && ByteAt(w, 5) == f && ByteAt(w, 6) == g && ByteAt(w, 7) == h
  {
  }

  lemma XorByte(a: bv64, b: bv64, i: nat)
    requires i < 8
    ensures ByteAt(a ^ b, i) == Xor(ByteAt(a, i), ByteAt(b, i))
  {
    hide ByteAt;
    XorByte0(a, b);
    XorByte2(a, b);
    XorByte4(a, b);
    XorByte6(a, b);
    assert i == 0 || i == 1 || i == 2 || i == 3 || i == 4 || i == 5 || i == 6 || i == 7;
  }

  lemma XorByte0(a: bv64, b: bv64)
    ensures ByteAt(a ^ b, 0) == Xor(ByteAt(a, 0), ByteAt(b, 0)) && ByteAt(a ^ b, 1) == Xor(ByteAt(a, 1), ByteAt(b, 1))
  {
  }

  lemma XorByte2(a: bv64, b: bv64)
    ensures ByteAt(a ^ b, 2) == Xor(ByteAt(a, 2), ByteAt(b, 2)) && ByteAt(a ^ b, 3) == Xor(ByteAt(a, 3), ByteAt(b, 3))
  {
  }

  lemma XorByte4(a: bv64, b: bv64)
    ensures ByteAt(a ^ b, 4) == Xor(ByteAt(a, 4), ByteAt(b, 4)) && ByteAt(a ^ b, 5) == Xor(ByteAt(a, 5), ByteAt(b, 5))
  {
  }

  lemma XorByte6(a: bv64, b: bv64)
    ensures ByteAt(a ^ b, 6) == Xor(ByteAt(a, 6), ByteAt(b, 6)) && ByteAt(a ^ b, 7) == Xor(ByteAt(a, 7), ByteAt(b, 7))
  {
  }

  // ----- prepared keys -----

  /** prepare_masking_key: the key as a word, in both halves of a long one. */
  function PrepareMaskingKey(key: Key, size: WordSize): bv64 {
    var i := key[0] as bv64 | (key[1] as bv64 << 8) | (key[2] as bv64 << 16) | (key[3] as bv64 << 24);
    if size == 8 then (i << 32) | i else i
  }

  lemma PreparedByte(key: Key, i: nat, size: WordSize)
    requires i < size
    ensures ByteAt(PrepareMaskingKey(key, size), i) == key[i % 4] && Fits(PrepareMaskingKey(key, size), size)
  {
    var e, f, g, h := if size == 8 then key[0] else 0, if size == 8 then key[1] else 0, if size == 8 then key[2] else 0, if size == 8 then key[3] else 0;
    PreparedIsJoin(key, size);
    LoadedLow(key[0], key[1], key[2], key[3], PrepareMaskingKey(key, size), e, f, g, h);
    LoadedHigh(key[0], key[1], key[2], key[3], PrepareMaskingKey(key, size), e, f, g, h);
    hide ByteAt, PrepareMaskingKey;
  }

  lemma PreparedIsJoin(key: Key, size: WordSize)
    ensures size == 8 ==> PrepareMaskingKey(key, size) == Join(key[0], key[1], key[2], key[3], key[0], key[1], key[2], key[3])
    ensures size == 4 ==> PrepareMaskingKey(key, size) == Join(key[0], key[1], key[2], key[3], 0, 0, 0, 0)
    ensures Fits(PrepareMaskingKey(key, size), size)
  {
  }

  function ShiftRight(w: bv64, bytes: nat): bv64
    requires bytes < 8
  {
    match bytes
    case 0 => w
    case 1 => w >> 8
    case 2 => w >> 16
    case 3 => w >> 24
    case 4 => w >> 32
    case 5 => w >> 40
    case 6 => w >> 48
    case 7 => w >> 56
  }

  function ShiftLeft(w: bv64, bytes: nat): bv64
    requires bytes < 8
  {
    match bytes
    case 0 => w
    case 1 => w << 8
    case 2 => w << 16
    case 3 => w << 24
    case 4 => w << 32
    case 5 => w << 40
    case 6 => w << 48
    case 7 => w << 56
  }

  /** circshift_prepared_key on a little-endian machine. */
  function CircshiftPreparedKey(prepared: bv64, offset: nat, size: WordSize): bv64
    requires offset < size
  {
    if offset == 0 then prepared else ShiftRight(prepared, offset) | Truncated(ShiftLeft(prepared, size - offset), size)
  }

  // ----- shifting a long word -----

  lemma RotatedLow(w: bv64)
    ensures var r := (w >> 8) | (w << 56);
      ByteAt(r, 0) == ByteAt(w, 1) && ByteAt(r, 1) == ByteAt(w, 2) && ByteAt(r, 2) == ByteAt(w, 3) && ByteAt(r, 3) == ByteAt(w, 4)
  {
  }

  lemma RotatedHigh(w: bv64)
    ensures var r := (w >> 8) | (w << 56);
      ByteAt(r, 4) == ByteAt(w, 5) && ByteAt(r, 5) == ByteAt(w, 6) && ByteAt(r, 6) == ByteAt(w, 7) && ByteAt(r, 7) == ByteAt(w, 0)
  {
  }

  lemma RotateOne(w: bv64, i: nat)
    requires i < 8
    ensures ByteAt(CircshiftPreparedKey(w, 1, 8), i) == ByteAt(w, (i + 1) % 8)
  {
    hide ByteAt;
    RotatedLow(w);
    RotatedHigh(w);
    OneByte(w);
    hide CircshiftPreparedKey;
  }

  lemma OneByte(w: bv64)
    ensures CircshiftPreparedKey(w, 1, 8) == (w >> 8) | (w << 56)
  {
    assert ShiftRight(w, 1) == w >> 8 && ShiftLeft(w, 7) == w << 56;
    hide ShiftRight, ShiftLeft;
  }

  lemma RotateMore(w: bv64, offset: nat)
    requires 0 < offset < 8 - 1
    ensures CircshiftPreparedKey(w, offset + 1, 8) == CircshiftPreparedKey(CircshiftPreparedKey(w, offset, 8), 1, 8)
  {
    hide CircshiftPreparedKey;
    if offset == 1 {
      Rotate2(w);
    } else if offset == 2 {
      Rotate3(w);
    } else if offset == 3 {
      Rotate4(w);
    } else if offset == 4 {
      Rotate5(w);
    } else if offset == 5 {
      Rotate6(w);
    } else if offset == 6 {
      Rotate7(w);
    }
  }

  lemma Rotate2(w: bv64)
    ensures CircshiftPreparedKey(w, 2, 8) == CircshiftPreparedKey(CircshiftPreparedKey(w, 1, 8), 1, 8)
  {
  }

  lemma Rotate3(w: bv64)
    ensures CircshiftPreparedKey(w, 3, 8) == CircshiftPreparedKey(CircshiftPreparedKey(w, 2, 8), 1, 8)
  {
  }

  lemma Rotate4(w: bv64)
    ensures CircshiftPreparedKey(w, 4, 8) == CircshiftPreparedKey(CircshiftPreparedKey(w, 3, 8), 1, 8)
  {
  }

  lemma Rotate5(w: bv64)
    ensures CircshiftPreparedKey(w, 5, 8) == CircshiftPreparedKey(CircshiftPreparedKey(w, 4, 8), 1, 8)
  {
  }

  lemma Rotate6(w: bv64)
    ensures CircshiftPreparedKey(w, 6, 8) == CircshiftPreparedKey(CircshiftPreparedKey(w, 5, 8), 1, 8)
  {
  }

  lemma Rotate7(w: bv64)
    ensures CircshiftPreparedKey(w, 7, 8) == CircshiftPreparedKey(CircshiftPreparedKey(w, 6, 8), 1, 8)
  {
  }

  lemma {:induction false} ShiftedLong(w: bv64, offset: nat, i: nat)
    requires offset < 8 && i < 8
    ensures ByteAt(CircshiftPreparedKey(w, offset, 8), i) == ByteAt(w, (i + offset) % 8)
    decreases offset
  {
    hide ByteAt, ShiftLeft, ShiftRight;
    if offset == 1 {
      RotateOne(w, i);
    } else if offset > 1 {
      RotateMore(w, offset - 1);
      hide CircshiftPreparedKey;
      RotateOne(CircshiftPreparedKey(w, offset - 1, 8), i);
      ShiftedLong(w, offset - 1, (i + 1) % 8);
    }
  }

  // ----- shifting a short word -----

  lemma Short1(w: bv64)
    requires Fits(w, 4)
    ensures var r := CircshiftPreparedKey(w, 1, 4);
      ByteAt(r, 0) == ByteAt(w, 1) && ByteAt(r, 1) == ByteAt(w, 2) && ByteAt(r, 2) == ByteAt(w, 3) && ByteAt(r, 3) == ByteAt(w, 0) && Fits(r, 4)
  {
    assert CircshiftPreparedKey(w, 1, 4) == (w >> 8) | ((w << 24) & 0xffff_ffff) by {
      assert ShiftRight(w, 1) == w >> 8 && ShiftLeft(w, 3) == w << 24;
      hide ShiftRight, ShiftLeft;
    }
    hide CircshiftPreparedKey, ByteAt;
    Short1Bytes(w);
    Short1Fits(w);
  }

  lemma Short1Bytes(w: bv64)
    requires Fits(w, 4)
    ensures var r := (w >> 8) | ((w << 24) & 0xffff_ffff);
      ByteAt(r, 0) == ByteAt(w, 1) && ByteAt(r, 1) == ByteAt(w, 2) && ByteAt(r, 2) == ByteAt(w, 3) && ByteAt(r, 3) == ByteAt(w, 0)
  {
  }

  lemma Short1Fits(w: bv64)
    requires Fits(w, 4)
    ensures Fits((w >> 8) | ((w << 24) & 0xffff_ffff), 4)
  {
  }

  lemma Short2(w: bv64)
    requires Fits(w, 4)
    ensures var r := CircshiftPreparedKey(w, 2, 4);
      ByteAt(r, 0) == ByteAt(w, 2) && ByteAt(r, 1) == ByteAt(w, 3) && ByteAt(r, 2) == ByteAt(w, 0) && ByteAt(r, 3) == ByteAt(w, 1) && Fits(r, 4)
  {
    assert CircshiftPreparedKey(w, 2, 4) == (w >> 16) | ((w << 16) & 0xffff_ffff) by {
      assert ShiftRight(w, 2) == w >> 16 && ShiftLeft(w, 2) == w << 16;
      hide ShiftRight, ShiftLeft;
    }
    hide CircshiftPreparedKey, ByteAt;
    Short2Bytes(w);
    Short2Fits(w);
  }

  lemma Short2Bytes(w: bv64)
    requires Fits(w, 4)
    ensures var r := (w >> 16) | ((w << 16) & 0xffff_ffff);
      ByteAt(r, 0) == ByteAt(w, 2) && ByteAt(r, 1) == ByteAt(w, 3) && ByteAt(r, 2) == ByteAt(w, 0) && ByteAt(r, 3) == ByteAt(w, 1)
  {
  }

  lemma Short2Fits(w: bv64)
    requires Fits(w, 4)
    ensures Fits((w >> 16) | ((w << 16) & 0xffff_ffff), 4)
  {
  }

  lemma Short3(w: bv64)
    requires Fits(w, 4)
    ensures var r := CircshiftPreparedKey(w, 3, 4);
      ByteAt(r, 0) == ByteAt(w, 3) && ByteAt(r, 1) == ByteAt(w, 0) && ByteAt(r, 2) == ByteAt(w, 1) && ByteAt(r, 3) == ByteAt(w, 2) && Fits(r, 4)
  {
    assert CircshiftPreparedKey(w, 3, 4) == (w >> 24) | ((w << 8) & 0xffff_ffff) by {
      assert ShiftRight(w, 3) == w >> 24 && ShiftLeft(w, 1) == w << 8;
      hide ShiftRight, ShiftLeft;
    }
    hide CircshiftPreparedKey, ByteAt;
    Short3Bytes(w);
    Short3Fits(w);
  }

  lemma Short3Bytes(w: bv64)
    requires Fits(w, 4)
    ensures var r := (w >> 24) | ((w << 8) & 0xffff_ffff);
      ByteAt(r, 0) == ByteAt(w, 3) && ByteAt(r, 1) == ByteAt(w, 0) && ByteAt(r, 2) == ByteAt(w, 1) && ByteAt(r, 3) == ByteAt(w, 2)
  {
  }

  lemma Short3Fits(w: bv64)
    requires Fits(w, 4)
    ensures Fits((w >> 24) | ((w << 8) & 0xffff_ffff), 4)
  {
  }

  /** The shift moves every byte of the image down, and the lowest ones round to the top. */
  lemma ShiftedByte(w: bv64, offset: nat, i: nat, size: WordSize)
    requires offset < size && i < size && Fits(w, size)
    ensures ByteAt(CircshiftPreparedKey(w, offset, size), i) == ByteAt(w, (i + offset) % size)
    ensures Fits(CircshiftPreparedKey(w, offset, size), size)
  {
    hide ByteAt, ShiftLeft, ShiftRight, Truncated;
    if size == 8 {
      ShiftedLong(w, offset, i);
    } else if offset > 0 {
      hide CircshiftPreparedKey, Fits;
      if offset == 1 {
        Short1(w);
      } else if offset == 2 {
        Short2(w);
      } else {
        Short3(w);
      }
    }
  }

  /** The word stands for the key at that offset into the payload. */
  ghost predicate Represents(prepared: bv64, key: Key, offset: nat, size: WordSize) {
    Fits(prepared, size) && forall i :: 0 <= i < size ==> ByteAt(prepared, i) == key[(offset + i) % 4]
  }
}
