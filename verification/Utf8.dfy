/** UTF-8: the grammar of section 4 of RFC 3629, the table-driven automaton that validates it, and
    the encoder that undoes its decoding. */
module Utf8 {
  import opened Bytes
  import opened Strings

  // ----- section 4: the grammar -----

  predicate Tail(b: byte) { 0x80 <= b <= 0xBF }

  /** One UTF8-char. */
  predicate Char(c: seq<byte>) {
    match |c|
    case 1 => c[0] <= 0x7F
    case 2 => 0xC2 <= c[0] <= 0xDF && Tail(c[1])
    case 3 =>
      && Tail(c[2])
      && ((c[0] == 0xE0 && 0xA0 <= c[1] <= 0xBF) || (0xE1 <= c[0] <= 0xEC && Tail(c[1]))
          || (c[0] == 0xED && 0x80 <= c[1] <= 0x9F) || (0xEE <= c[0] <= 0xEF && Tail(c[1])))
    case 4 =>
      && Tail(c[2]) && Tail(c[3])
      && ((c[0] == 0xF0 && 0x90 <= c[1] <= 0xBF) || (0xF1 <= c[0] <= 0xF3 && Tail(c[1]))
          || (c[0] == 0xF4 && 0x80 <= c[1] <= 0x8F))
    case _ => false
  }

  predicate AllChars(chars: seq<seq<byte>>) { forall c | c in chars :: Char(c) }

  /** UTF8-octets: any number of characters after one another. */
  ghost predicate WellFormed(s: seq<byte>) {
    exists chars: seq<seq<byte>> :: AllChars(chars) && Flat(chars) == s
  }

  /** The number a character stands for (section 3). */
  function Scalar(c: seq<byte>): nat
    requires Char(c)
  {
    match |c|
    case 1 => c[0]
    case 2 => Above(c[0], 0xC0) * 0x40 + Above(c[1], 0x80)
    case 3 => Above(c[0], 0xE0) * 0x1000 + Above(c[1], 0x80) * 0x40 + Above(c[2], 0x80)
    case _ => Above(c[0], 0xF0) * 0x40000 + Above(c[1], 0x80) * 0x1000 + Above(c[2], 0x80) * 0x40 + Above(c[3], 0x80)
  }

  function Above(b: byte, base: nat): nat
    requires base <= b
  {
    b as int - base
  }

  /** A Unicode scalar value: no surrogate. */
  predicate IsScalar(v: int) { 0 <= v < 0xD800 || 0xE000 <= v < 0x11_0000 }

  // ----- the automaton -----

  const ACCEPT := 0
  const REJECT := 1

  type State = s: int | 0 <= s <= 8

  /** The first 256 entries of utf8d: the class of a byte. */
  function ByteClass(b: byte): (t: nat)
    ensures t < 12
  {
    if b < 0x80 then 0 else if b < 0x90 then 1 else if b < 0xA0 then 9 else if b < 0xC0 then 7
    else if b < 0xC2 then 8 else if b < 0xE0 then 2 else if b == 0xE0 then 10 else if b == 0xED then 4
    else if b < 0xF0 then 3 else if b == 0xF0 then 11 else if b < 0xF4 then 6 else if b == 0xF4 then 5 else 8
  }

  /** The other entries: a row for each state, a column for each class. */
  function Transition(state: State, t: nat): State
    requires t < 12
  {
    match state
    case 0 =>
      if t == 0 then 0 else if t == 2 then 2 else if t == 3 then 3 else if t == 4 then 5
      else if t == 5 then 8 else if t == 6 then 7 else if t == 10 then 4 else if t == 11 then 6 else 1
    case 2 => if t == 1 || t == 7 || t == 9 then 0 else 1
    case 3 => if t == 1 || t == 7 || t == 9 then 2 else 1
    case 4 => if t == 7 then 2 else 1
    case 5 => if t == 1 || t == 9 then 2 else 1
    case 6 => if t == 7 || t == 9 then 3 else 1
    case 7 => if t == 1 || t == 7 || t == 9 then 3 else 1
    case 8 => if t == 1 then 3 else 1
    case _ => 1
  }

  /** 0xff >> t, as the modulus that masking with it amounts to. */
  function LeadModulus(t: nat): (m: nat)
    ensures m > 0
  {
    match t
    case 0 => 256 case 1 => 128 case 2 => 64 case 3 => 32 case 4 => 16 case 5 => 8 case 6 => 4 case 7 => 2
    case _ => 1
  }

  datatype Decoder = Decoder(state: State, codep: uint32)

  /** decode: the next byte. */
  function Step(d: Decoder, b: byte): Decoder {
    var t := ByteClass(b);
    Decoder(Transition(d.state, t),
            if d.state != ACCEPT then d.codep * 0x40 % 0x1_0000_0000 + b % 0x40 else b % LeadModulus(t))
  }

  function Run(d: Decoder, s: seq<byte>): Decoder
    decreases |s|
  {
    if s == [] then d else Run(Step(d, s[0]), s[1..])
  }

  // ----- what the automaton does with a character -----

  /** Where each byte leads, said of the byte itself. */
  lemma NextIs(d: Decoder, b: byte)
    ensures var n := Step(d, b).state;
      match d.state
      case 0 =>
        (n == 0 <==> b <= 0x7F) && (n == 2 <==> 0xC2 <= b <= 0xDF) && (n == 4 <==> b == 0xE0)
        && (n == 3 <==> 0xE1 <= b <= 0xEC || 0xEE <= b <= 0xEF) && (n == 5 <==> b == 0xED)
        && (n == 6 <==> b == 0xF0) && (n == 7 <==> 0xF1 <= b <= 0xF3) && (n == 8 <==> b == 0xF4)
      case 2 => n == if Tail(b) then 0 else 1
      case 3 => n == if Tail(b) then 2 else 1
      case 4 => n == if 0xA0 <= b <= 0xBF then 2 else 1
      case 5 => n == if 0x80 <= b <= 0x9F then 2 else 1
      case 6 => n == if 0x90 <= b <= 0xBF then 3 else 1
      case 7 => n == if Tail(b) then 3 else 1
      case 8 => n == if 0x80 <= b <= 0x8F then 3 else 1
      case _ => n == 1
  {
  }

  lemma {:induction false} Absorbing(d: Decoder, s: seq<byte>)
    requires d.state == REJECT
    ensures Run(d, s).state == REJECT
    decreases |s|
  {
    if s != [] {
      NextIs(d, s[0]);
      hide Step;
      Absorbing(Step(d, s[0]), s[1..]);
    }
  }

  lemma {:induction false} RunAppend(d: Decoder, a: seq<byte>, b: seq<byte>)
    ensures Run(d, a + b) == Run(Run(d, a), b)
    decreases |a|
  {
    hide Step;
    if a == [] {
      assert a + b == b;
    } else {
      assert (a + b)[1..] == a[1..] + b && (a + b)[0] == a[0];
      RunAppend(Step(d, a[0]), a[1..], b);
    }
  }

  lemma RunStep(d: Decoder, s: seq<byte>)
    requires s != []
    ensures Run(d, s) == Run(Step(d, s[0]), s[1..])
  {
  }

  /** How many bytes a character that starts with b has; 0 if none does. */
  function Width(b: byte): (w: nat)
    ensures w <= 4
  {
    if b <= 0x7F then 1 else if 0xC2 <= b <= 0xDF then 2 else if 0xE0 <= b <= 0xEF then 3
    else if 0xF0 <= b <= 0xF4 then 4 else 0
  }

  /** From an accepted text a character can be taken off the front. */
  lemma FirstChar(d: Decoder, s: seq<byte>) returns (w: nat)
    requires d.state == ACCEPT && s != [] && Run(d, s).state == ACCEPT
    ensures 0 < w <= |s| && w == Width(s[0]) && Char(s[..w])
  {
    w := Width(s[0]);
    NextIs(d, s[0]);
    RunStep(d, s);
    var d1 := Step(d, s[0]);
    if d1.state == REJECT {
      hide Step;
      Absorbing(d1, s[1..]);
    } else if w > 1 {
      hide Step;
      SecondByte(d1, s, w);
    }
  }

  lemma SecondByte(d1: Decoder, s: seq<byte>, w: nat)
    requires s != [] && w == Width(s[0]) > 1 && Run(d1, s[1..]).state == ACCEPT
    requires (d1.state == 2 <==> w == 2) && (d1.state == 4 <==> s[0] == 0xE0) && (d1.state == 5 <==> s[0] == 0xED)
    requires (d1.state == 3 <==> w == 3 && s[0] != 0xE0 && s[0] != 0xED)
    requires (d1.state == 6 <==> s[0] == 0xF0) && (d1.state == 7 <==> 0xF1 <= s[0] <= 0xF3) && (d1.state == 8 <==> s[0] == 0xF4)
    ensures w <= |s| && Char(s[..w])
  {
    hide Step;
    TailsFollow(d1, s[1..], w - 1);
    assert forall k :: 0 <= k < w - 1 ==> s[1..][k] == s[k + 1];
  }

  /** The bytes that must follow in a state, the first of them in the state's range. */
  lemma TailsFollow(d: Decoder, s: seq<byte>, k: nat)
    requires k == (if d.state == 2 then 1 else if d.state == 3 || d.state == 4 || d.state == 5 then 2 else 3)
    requires d.state >= 2 && Run(d, s).state == ACCEPT
    ensures k <= |s| && forall i :: 0 <= i < k ==> Tail(s[i])
    ensures d.state == 4 ==> s[0] >= 0xA0
    ensures d.state == 5 ==> s[0] <= 0x9F
    ensures d.state == 6 ==> s[0] >= 0x90
    ensures d.state == 8 ==> s[0] <= 0x8F
    decreases k
  {
    if s != [] {
      NextIs(d, s[0]);
      RunStep(d, s);
      hide Step;
      var e := Step(d, s[0]);
      if e.state == REJECT {
        Absorbing(e, s[1..]);
      } else if k > 1 {
        TailsFollow(e, s[1..], k - 1);
        assert forall i :: 0 <= i < k - 1 ==> s[1..][i] == s[i + 1];
      }
    }
  }

  /** A character takes the automaton from acceptance back to it, with the character's number; in
      between it is in neither of the two. */
  lemma CharRun(d: Decoder, c: seq<byte>)
    requires d.state == ACCEPT && Char(c)
    ensures Run(d, c) == Decoder(ACCEPT, Scalar(c))
  {
    NextIs(d, c[0]);
    RunStep(d, c);
    var e := Step(d, c[0]);
    FirstStep(d, c);
    hide Step;
    if |c| == 1 {
      assert c[1..] == [];
    } else if |c| == 2 {
      TailRun(e, c[1..]);
    } else if |c| == 3 {
      ThreeRun(e, c);
    } else {
      FourRun(e, c);
    }
  }

  lemma FirstStep(d: Decoder, c: seq<byte>)
    requires d.state == ACCEPT && Char(c)
    ensures Step(d, c[0]).codep == if |c| == 1 then c[0] else Above(c[0], if |c| == 2 then 0xC0 else if |c| == 3 then 0xE0 else 0xF0)
  {
    NextIs(d, c[0]);
  }

  lemma ThreeRun(e: Decoder, c: seq<byte>)
    requires Char(c) && |c| == 3 && e.codep == Above(c[0], 0xE0)
    requires (e.state == 4 <==> c[0] == 0xE0) && (e.state == 5 <==> c[0] == 0xED)
    requires e.state == 3 <==> c[0] != 0xE0 && c[0] != 0xED
    ensures Run(e, c[1..]) == Decoder(ACCEPT, Scalar(c))
  {
    NextIs(e, c[1]);
    TailStep(e, c[1..]);
    TailRun(Step(e, c[1]), c[2..]);
  }

  lemma FourRun(e: Decoder, c: seq<byte>)
    requires Char(c) && |c| == 4 && e.codep == Above(c[0], 0xF0)
    requires (e.state == 6 <==> c[0] == 0xF0) && (e.state == 7 <==> 0xF1 <= c[0] <= 0xF3) && (e.state == 8 <==> c[0] == 0xF4)
    ensures Run(e, c[1..]) == Decoder(ACCEPT, Scalar(c))
  {
    NextIs(e, c[1]);
    TailStep(e, c[1..]);
    var f := Step(e, c[1]);
    NextIs(f, c[2]);
    TailStep(f, c[2..]);
    TailRun(Step(f, c[2]), c[3..]);
  }

  lemma TailStep(d: Decoder, s: seq<byte>)
    requires s != [] && d.state >= 2 && d.codep < 0x4000 && Tail(s[0])
    ensures Step(d, s[0]).codep == d.codep * 0x40 + Above(s[0], 0x80)
    ensures Run(d, s) == Run(Step(d, s[0]), s[1..])
  {
  }

  lemma TailRun(d: Decoder, s: seq<byte>)
    requires |s| == 1 && d.state == 2 && d.codep < 0x8000 && Tail(s[0])
    ensures Run(d, s) == Decoder(ACCEPT, d.codep * 0x40 + Above(s[0], 0x80))
  {
    NextIs(d, s[0]);
    assert s[1..] == [];
  }

  // ----- whole texts -----

  lemma CharsSplit(chars: seq<seq<byte>>)
    requires AllChars(chars) && chars != []
    ensures Char(chars[0]) && AllChars(chars[1..])
  {
    assert chars[0] in chars && forall c | c in chars[1..] :: c in chars;
  }

  /** Characters one after another keep the automaton accepting. */
  lemma {:induction false} CharsRun(d: Decoder, chars: seq<seq<byte>>)
    requires d.state == ACCEPT && AllChars(chars)
    ensures Run(d, Flat(chars)) == if chars == [] then d else Decoder(ACCEPT, Scalar(chars[|chars| - 1]))
    decreases |chars|
  {
    if chars != [] {
      CharsSplit(chars);
      hide Step, Char, AllChars;
      CharRun(d, chars[0]);
      RunAppend(d, chars[0], Flat(chars[1..]));
      CharsRun(Decoder(ACCEPT, Scalar(chars[0])), chars[1..]);
    }
  }

  /** Whenever the automaton accepts, what it has read is a sequence of characters, and the number of
      the last of them is what it has decoded. */
  lemma {:induction false} Accepted(d: Decoder, s: seq<byte>) returns (chars: seq<seq<byte>>)
    requires d.state == ACCEPT && Run(d, s).state == ACCEPT
    ensures AllChars(chars) && Flat(chars) == s
    ensures chars != [] ==> Char(chars[|chars| - 1]) && Run(d, s).codep == Scalar(chars[|chars| - 1])
    ensures s == [] <==> chars == []
    decreases |s|
  {
    if s == [] {
      chars := [];
    } else {
      var w := FirstChar(d, s);
      var c, rest := s[..w], s[w..];
      CharRun(d, c);
      hide Step, Char;
      assert s == c + rest;
      RunAppend(d, c, rest);
      var later := Accepted(Run(d, c), rest);
      chars := [c] + later;
      assert chars[1..] == later;
      CharsRun(d, chars);
      assert chars[|chars| - 1] in chars;
    }
  }

  /** The automaton accepts exactly the sequences of characters. */
  lemma AcceptsWellFormed(s: seq<byte>)
    ensures Run(Decoder(ACCEPT, 0), s).state == ACCEPT <==> WellFormed(s)
  {
    var d := Decoder(ACCEPT, 0);
    if Run(d, s).state == ACCEPT {
      var chars := Accepted(d, s);
    }
    if WellFormed(s) {
      var chars: seq<seq<byte>> :| AllChars(chars) && Flat(chars) == s;
      CharsRun(d, chars);
    }
  }

  // ----- the encoder -----

  /** to_utf8; nothing for a surrogate or a number beyond the last. */
  function ToUtf8(code: int): seq<byte> {
    if code < 0x80 then [code % 0x80]
    else if code < 0x800 then [0xC0 + code / 0x40 % 0x20, 0x80 + code % 0x40]
    else if code < 0xD800 then [0xE0 + code / 0x1000 % 0x10, 0x80 + code / 0x40 % 0x40, 0x80 + code % 0x40]
    else if code < 0xE000 then []
    else if code < 0x10000 then [0xE0 + code / 0x1000 % 0x10, 0x80 + code / 0x40 % 0x40, 0x80 + code % 0x40]
    else if code < 0x110000 then
      [0xF0 + code / 0x40000 % 0x8, 0x80 + code / 0x1000 % 0x40, 0x80 + code / 0x40 % 0x40, 0x80 + code % 0x40]
    else []
  }

  /** The bytes of every number, and of none: six bits in each byte behind the first. */
  lemma EncodeForm(v: nat)
    ensures v < 0x80 ==> ToUtf8(v) == [v]
    ensures 0x80 <= v < 0x800 ==> ToUtf8(v) == [0xC0 + v / 0x40, 0x80 + v % 0x40]
    ensures 0x800 <= v < 0xD800 || 0xE000 <= v < 0x1_0000 ==>
      ToUtf8(v) == [0xE0 + v / 0x1000, 0x80 + v / 0x40 % 0x40, 0x80 + v % 0x40]
    ensures 0x1_0000 <= v < 0x11_0000 ==>
      ToUtf8(v) == [0xF0 + v / 0x4_0000, 0x80 + v / 0x1000 % 0x40, 0x80 + v / 0x40 % 0x40, 0x80 + v % 0x40]
    ensures 0xD800 <= v < 0xE000 || v >= 0x11_0000 ==> ToUtf8(v) == []
    ensures IsScalar(v) <==> v < 0xD800 || 0xE000 <= v < 0x11_0000
  {
    if v < 0x800 {
      EncodeShort(v);
    } else if v < 0xD800 || 0xE000 <= v < 0x1_0000 {
      EncodeThreeForm(v);
    } else if 0x1_0000 <= v < 0x11_0000 {
      EncodeFourForm(v);
    }
    hide ToUtf8;
    NoCode(v);
  }

  lemma EncodeShort(v: nat)
    requires v < 0x800
    ensures v < 0x80 ==> ToUtf8(v) == [v]
    ensures v >= 0x80 ==> ToUtf8(v) == [0xC0 + v / 0x40, 0x80 + v % 0x40]
  {
  }

  lemma EncodeThreeForm(v: nat)
    requires 0x800 <= v < 0xD800 || 0xE000 <= v < 0x1_0000
    ensures ToUtf8(v) == [0xE0 + v / 0x1000, 0x80 + v / 0x40 % 0x40, 0x80 + v % 0x40]
  {
  }

  lemma EncodeFourForm(v: nat)
    requires 0x1_0000 <= v < 0x11_0000
    ensures ToUtf8(v) == [0xF0 + v / 0x4_0000, 0x80 + v / 0x1000 % 0x40, 0x80 + v / 0x40 % 0x40, 0x80 + v % 0x40]
  {
  }

  lemma NoCode(v: nat)
    ensures 0xD800 <= v < 0xE000 || v >= 0x11_0000 ==> ToUtf8(v) == []
  {
  }

  /** A character's number is a scalar value, and encoding it gives the character back. */
  lemma EncodeDecoded(c: seq<byte>)
    requires Char(c)
    ensures IsScalar(Scalar(c)) && ToUtf8(Scalar(c)) == c
  {
    if |c| == 3 {
      EncodeThree(c);
    } else if |c| == 4 {
      EncodeFour(c);
    } else if |c| == 2 {
      EncodeTwo(c);
    } else {
      EncodeOne(c);
    }
  }

  lemma EncodeOne(c: seq<byte>)
    requires Char(c) && |c| == 1
    ensures IsScalar(Scalar(c)) && ToUtf8(Scalar(c)) == c
  {
  }

  lemma EncodeTwo(c: seq<byte>)
    requires Char(c) && |c| == 2
    ensures IsScalar(Scalar(c)) && ToUtf8(Scalar(c)) == c
  {
  }

  lemma EncodeThree(c: seq<byte>)
    requires Char(c) && |c| == 3
    ensures IsScalar(Scalar(c)) && ToUtf8(Scalar(c)) == c
  {
    var x, y, z := Above(c[0], 0xE0), Above(c[1], 0x80), Above(c[2], 0x80);
    ThreeDigits(x, y, z);
    var v := x * 0x1000 + y * 0x40 + z;
    assert v == Scalar(c) && 0x800 <= v < 0x10000;
    assert ToUtf8(v) == [0xE0 + x, 0x80 + y, 0x80 + z];
  }

  lemma EncodeFour(c: seq<byte>)
    requires Char(c) && |c| == 4
    ensures IsScalar(Scalar(c)) && ToUtf8(Scalar(c)) == c
  {
    var w, x, y, z := Above(c[0], 0xF0), Above(c[1], 0x80), Above(c[2], 0x80), Above(c[3], 0x80);
    FourDigits(w, x, y, z);
    var v := w * 0x40000 + x * 0x1000 + y * 0x40 + z;
    assert v == Scalar(c) && 0x10000 <= v < 0x110000;
    assert ToUtf8(v) == [0xF0 + w, 0x80 + x, 0x80 + y, 0x80 + z];
  }

  lemma ThreeDigits(a: nat, b: nat, c: nat)
    requires a < 16 && b < 64 && c < 64
    ensures var v := a * 0x1000 + b * 0x40 + c; v / 0x1000 % 0x10 == a && v / 0x40 % 0x40 == b && v % 0x40 == c
  {
  }

  lemma FourDigits(a: nat, b: nat, c: nat, d: nat)
    requires a < 8 && b < 64 && c < 64 && d < 64
    ensures var v := a * 0x40000 + b * 0x1000 + c * 0x40 + d;
      v / 0x40000 % 0x8 == a && v / 0x1000 % 0x40 == b && v / 0x40 % 0x40 == c && v % 0x40 == d
  {
    var u := a * 0x1000 + b * 0x40 + c;
    var v := u * 0x40 + d;
    LowDigit(u, d);
    ThreeDigits(a, b, c);
    Quotients(v);
  }

  lemma LowDigit(u: nat, d: nat)
    requires d < 64
    ensures (u * 0x40 + d) / 0x40 == u && (u * 0x40 + d) % 0x40 == d
  {
  }

  lemma Quotients(v: nat)
    ensures v / 0x1000 == v / 0x40 / 0x40 && v / 0x40000 == v / 0x40 / 0x1000
  {
  }

  /** Every scalar value's encoding is a character with that number; nothing else has one. */
  lemma DecodeEncoded(v: nat)
    ensures IsScalar(v) ==> Char(ToUtf8(v)) && Scalar(ToUtf8(v)) == v
    ensures !IsScalar(v) ==> ToUtf8(v) == []
  {
    if IsScalar(v) {
      if v >= 0x10000 {
        DecodeFour(v);
      } else if v >= 0x800 {
        DecodeThree(v);
      }
    }
  }

  lemma DecodeThree(v: nat)
    requires IsScalar(v) && 0x800 <= v < 0x10000
    ensures Char(ToUtf8(v)) && Scalar(ToUtf8(v)) == v
  {
    ThreeParts(v);
    var c := ToUtf8(v);
    assert Above(c[0], 0xE0) == v / 0x1000;
  }

  lemma DecodeFour(v: nat)
    requires 0x10000 <= v < 0x110000
    ensures Char(ToUtf8(v)) && Scalar(ToUtf8(v)) == v
  {
    FourParts(v);
    var c := ToUtf8(v);
    assert Above(c[0], 0xF0) == v / 0x40000;
  }

  lemma ThreeParts(v: nat)
    requires 0x800 <= v < 0x10000
    ensures v / 0x1000 < 16 && v == v / 0x1000 * 0x1000 + v / 0x40 % 0x40 * 0x40 + v % 0x40
    ensures v / 0x1000 == 0 ==> v / 0x40 % 0x40 >= 0x20
    ensures v / 0x1000 == 13 && v < 0xD800 ==> v / 0x40 % 0x40 < 0x20
    ensures v >= 0xE000 ==> v / 0x1000 >= 14
    ensures v < 0xD800 ==> v / 0x1000 <= 13
  {
  }

  lemma FourParts(v: nat)
    requires 0x10000 <= v < 0x110000
    ensures v / 0x40000 <= 4
    ensures v == v / 0x40000 * 0x40000 + v / 0x1000 % 0x40 * 0x1000 + v / 0x40 % 0x40 * 0x40 + v % 0x40
    ensures v / 0x40000 == 0 ==> v / 0x1000 % 0x40 >= 0x10
    ensures v / 0x40000 == 4 ==> v / 0x1000 % 0x40 < 0x10
  {
    var u := v / 0x40;
    var w := u / 0x40;
    Quotients(v);
    assert u / 0x1000 == w / 0x40 by { Quotients(u); }
    assert v == u * 0x40 + v % 0x40 && u == w * 0x40 + u % 0x40 && w == w / 0x40 * 0x40 + w % 0x40;
  }

  // ----- the validator -----

  class Validator {
    var state: State
    var codepoint: uint32

    function Model(): Decoder
      reads this
    {
      Decoder(state, codepoint)
    }

    constructor ()
      ensures Model() == Decoder(ACCEPT, 0)
    {
      state, codepoint := ACCEPT, 0;
    }

    /** decode on one byte, through the two members. */
    method Advance(b: byte)
      modifies this
      ensures Model() == Step(old(Model()), b)
    {
      var t := ByteClass(b);
      if state != ACCEPT {
        codepoint := codepoint * 0x40 % 0x1_0000_0000 + b % 0x40;
      } else {
        codepoint := b % LeadModulus(t);
      }
      state := Transition(state, t);
    }

    method Consume(b: byte) returns (ok: bool)
      modifies this
      ensures Model() == Step(old(Model()), b) && ok == (state != REJECT)
    {
      Advance(b);
      return state != REJECT;
    }

    /** decode on a range: stops at the first byte that is refused. */
    method Decode(s: seq<byte>) returns (ok: bool)
      modifies this
      ensures ok ==> Model() == Run(old(Model()), s)
      ensures ok <==> s == [] || Run(old(Model()), s).state != REJECT
      ensures !ok ==> state == REJECT
    {
      hide Step, Run;
      ghost var d := Model();
      RunNothing(d, s);
      for i := 0 to |s|
        invariant Run(Model(), s[i..]) == Run(d, s)
        invariant i > 0 ==> state != REJECT
      {
        RunStep(Model(), s[i..]);
        assert s[i..][1..] == s[i + 1..];
        Advance(s[i]);
        if state == REJECT {
          Absorbing(Model(), s[i + 1..]);
          return false;
        }
      }
      RunNothing(Model(), s);
      return true;
    }

    lemma RunNothing(d: Decoder, s: seq<byte>)
      ensures Run(d, s[|s|..]) == d && s[0..] == s
    {
    }

    predicate Complete()
      reads this
    {
      state == ACCEPT
    }

    method Reset()
      modifies this
      ensures Model() == Decoder(ACCEPT, 0)
    {
      state, codepoint := ACCEPT, 0;
    }
  }

  /** validate: true exactly for sequences of characters. */
  method Validate(s: seq<byte>) returns (ok: bool)
    ensures ok <==> WellFormed(s)
  {
    hide Step, Run;
    AcceptsWellFormed(s);
    EmptyRun();
    var v := new Validator();
    ok := v.Decode(s);
    if !ok {
      return false;
    }
    return v.Complete();
  }

  lemma EmptyRun()
    ensures Run(Decoder(ACCEPT, 0), []) == Decoder(ACCEPT, 0)
  {
  }
}
