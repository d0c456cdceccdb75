/** The chunked coding in plain figures: what is on the wire, and what the reader makes of each kind of
    line. */
module ChunkedForms {
  import opened Bytes
  import opened Powers
  import opened Strings
  import opened Chunked
  import opened ChunkedWriter

  // ----- on the wire -----

  lemma HexStep(n: nat)
    requires n >= 16
    ensures Hex(n) == Hex(n / 16) + [HexChar(n % 16)] && |Hex(n)| == |Hex(n / 16)| + 1 && |Hex(n / 16)| >= 1
  {
    HexIsValue(n / 16);
  }

  /** Digit i of a size, from the right. */
  lemma {:induction false} SizeDigits(n: nat, i: nat)
    requires i < |Hex(n)|
    ensures Hex(n)[|Hex(n)| - 1 - i] == "0123456789abcdef"[n / Power(16, i) % 16]
    decreases n
  {
    hide *;
    Unit(n);
    LowDigit(n % 16);
    if n >= 16 {
      HexStep(n);
      if i > 0 {
        SizeDigits(n / 16, i - 1);
        DivideTwice(n, 16, i - 1);
      }
    }
  }

  lemma LowDigit(d: nat)
    requires d < 16
    ensures HexChar(d) == "0123456789abcdef"[d]
  {
  }

  lemma Unit(n: nat)
    ensures n / Power(16, 0) % 16 == n % 16
    ensures n < 16 ==> |Hex(n)| == 1 && Hex(n)[0] == HexChar(n) && n % 16 == n
  {
  }

  /** There are no more digits than needed. */
  lemma {:induction false} SizeLength(n: nat)
    ensures Hex(n) != "" && n < Power(16, |Hex(n)|) && (|Hex(n)| > 1 ==> n >= Power(16, |Hex(n)| - 1))
  {
    if n >= 16 {
      HexStep(n);
      hide Hex;
      SizeLength(n / 16);
      var k := |Hex(n / 16)|;
      assert Power(16, k + 1) == 16 * Power(16, k);
      if k > 1 {
        assert Power(16, k) == 16 * Power(16, k - 1);
      }
    }
  }

  /** A write puts its size, its data and two line ends on the wire, an empty one nothing, and done the last
      chunk. */
  lemma EmittedForm(op: Op, rest: seq<Op>)
    ensures Emit([]) == ""
    ensures Emit([op] + rest) == (match op
      case Write(d) => if d == "" then "" else Hex(|d|) + "\r\n" + d + "\r\n"
      case Done => "0\r\n\r\n") + Emit(rest)
  {
    assert ([op] + rest)[1..] == rest;
    hide Hex;
  }

  // ----- sizes as they are read -----

  /** The digits, each times its power of sixteen; the other characters count for nothing. */
  function ValueOf(d: string): nat {
    if d == "" then 0 else ValueOf(d[1..]) + DigitOf(d[0]) * Power(16, |d| - 1)
  }

  function DigitOf(c: char): nat {
    if '0' <= c <= '9' then c as int - '0' as int
    else if 'a' <= c <= 'f' then c as int - 'a' as int + 10
    else if 'A' <= c <= 'F' then c as int - 'A' as int + 10
    else 0
  }

  predicate Digits(d: string) { forall c | c in d :: '0' <= c <= '9' || 'a' <= c <= 'f' || 'A' <= c <= 'F' }

  lemma DigitIs(c: char)
    ensures IsHex(c) <==> '0' <= c <= '9' || 'a' <= c <= 'f' || 'A' <= c <= 'F'
    ensures IsHex(c) ==> DigitValue(c) == DigitOf(c)
  {
  }

  lemma {:induction false} ValueIs(d: string)
    requires Digits(d)
    ensures AllHex(d) && HexValue(d) == ValueOf(d)
  {
    forall c | c in d
      ensures IsHex(c)
    {
      DigitIs(c);
    }
    if d != "" {
      var front, c := d[..|d| - 1], d[|d| - 1];
      assert c in d && forall e | e in front :: e in d;
      ValueIs(front);
      DigitIs(c);
      ValueSnoc(front, c);
      assert d == front + [c];
    }
  }

  lemma {:induction false} ValueSnoc(d: string, c: char)
    ensures ValueOf(d + [c]) == 16 * ValueOf(d) + DigitOf(c)
  {
    if d == "" {
      assert ([] + [c])[1..] == "";
    } else {
      assert (d + [c])[1..] == d[1..] + [c] && (d + [c])[0] == d[0];
      ValueSnoc(d[1..], c);
      Scaled(DigitOf(d[0]), Power(16, |d| - 1));
    }
  }

  lemma Scaled(d: nat, p: nat)
    ensures d * (16 * p) == 16 * (d * p)
  {
  }

  lemma {:induction false} RunIs(d: string, rest: string)
    requires Digits(d) && (rest != "" ==> !Digits([rest[0]]))
    ensures HexRun(d + rest) == |d|
  {
    if d == "" {
      assert d + rest == rest;
      if rest != "" {
        DigitIs(rest[0]);
        assert rest[0] in [rest[0]];
      }
    } else {
      assert d[0] in d && forall c | c in d[1..] :: c in d;
      DigitIs(d[0]);
      assert (d + rest)[1..] == d[1..] + rest;
      RunIs(d[1..], rest);
    }
  }

  /** A size is read in base sixteen up to the first other character.  From 2^32 - 1 on it saturates. */
  lemma ReadSize(d: string, rest: string)
    requires Digits(d) && (rest != "" ==> !Digits([rest[0]]))
    requires d == "0" ==> rest == "" || (rest[0] != 'x' && rest[0] != 'X')
    requires d == "" && rest != "" ==> !IsSpace(rest[0]) && rest[0] != '-' && rest[0] != '+'
    requires |d| >= 1 || rest == "" || rest[0] != '0'
    ensures Strtoul(d + rest) ==
      if d == "" then Number(0, false) else Number(if ValueOf(d) >= 0xFFFF_FFFF then 0xFFFF_FFFF else ValueOf(d), true)
  {
    hide HexRun, HexValue, SkipSpace, ValueOf, Digits, AllHex;
    var s := d + rest;
    ValueIs(d);
    RunIs(d, rest);
    NoSign(d, rest);
    NoPrefix(d, rest);
    assert s[..|d|] == d;
  }

  lemma NoSign(d: string, rest: string)
    requires Digits(d) && (d == "" && rest != "" ==> !IsSpace(rest[0]) && rest[0] != '-' && rest[0] != '+')
    ensures var s := d + rest; SkipSpace(s) == s && (s != "" ==> s[0] != '-' && s[0] != '+')
  {
    var s := d + rest;
    assert d != "" ==> s[0] == d[0] && d[0] in d;
    assert d == "" ==> s == rest;
  }

  /** What the code takes for a prefix needs a digit behind it. */
  lemma NoPrefix(d: string, rest: string)
    requires Digits(d) && (d == "0" ==> rest == "" || (rest[0] != 'x' && rest[0] != 'X'))
    requires d == "" && rest != "" ==> rest[0] != '0'
    ensures var s := d + rest; |s| >= 3 ==> !(s[0] == '0' && (s[1] == 'x' || s[1] == 'X'))
  {
    var s := d + rest;
    assert d == "" ==> s == rest;
    assert |d| >= 2 ==> s[1] == d[1] && d[1] in d;
    assert |d| == 1 && |s| >= 2 ==> s[1] == rest[0] && s[0] == d[0] && d == [d[0]];
  }

  /** White space, a sign and a prefix in front of it: the minus sign turns the number over. */
  lemma ReadSigned(space: string, sign: string, prefix: string, d: string, rest: string)
    requires forall c | c in space :: c == ' ' || '\t' <= c <= '\r'
    requires (sign == "" || sign == "-" || sign == "+") && (prefix == "0x" || prefix == "0X")
    requires Digits(d) && d != "" && (rest != "" ==> !Digits([rest[0]]))
    ensures Strtoul(space + (sign + (prefix + (d + rest)))) ==
      Number(if ValueOf(d) >= 0x1_0000_0000 then 0xFFFF_FFFF
             else if sign == "-" && ValueOf(d) > 0 then 0x1_0000_0000 - ValueOf(d) else ValueOf(d), true)
  {
    assert d[0] in d && Digits([d[0]]);
    hide *;
    var body := prefix + (d + rest);
    MagnitudeOf(prefix, d, rest);
    SignedStart(space, sign, body);
    SignedValue(space, sign, body, ValueOf(d));
  }

  lemma MagnitudeOf(prefix: string, d: string, rest: string)
    requires (prefix == "0x" || prefix == "0X") && Digits(d) && d != "" && (rest != "" ==> !Digits([rest[0]]))
    ensures Magnitude(prefix + (d + rest)) == Some(ValueOf(d))
  {
    assert d[0] in d;
    DigitIs(d[0]);
    ValueIs(d);
    RunIs(d, rest);
    hide HexRun, HexValue, ValueOf, Digits, AllHex;
    var body := prefix + (d + rest);
    assert body[2..] == d + rest && body[2] == d[0] && (d + rest)[..|d|] == d;
  }

  lemma SignedStart(space: string, sign: string, body: string)
    requires forall c | c in space :: c == ' ' || '\t' <= c <= '\r'
    requires (sign == "" || sign == "-" || sign == "+") && body != "" && body[0] == '0'
    ensures SkipSpace(space + (sign + body)) == sign + body
  {
    SkipsAll(space, sign + body);
  }

  lemma SignedValue(space: string, sign: string, body: string, v: nat)
    requires (sign == "" || sign == "-" || sign == "+") && body != "" && body[0] == '0'
    requires SkipSpace(space + (sign + body)) == sign + body && Magnitude(body) == Some(v)
    ensures Strtoul(space + (sign + body)) ==
      Number(if v >= 0x1_0000_0000 then 0xFFFF_FFFF else if sign == "-" && v > 0 then 0x1_0000_0000 - v else v, true)
  {
    hide SkipSpace, Magnitude;
    var a := sign + body;
    assert sign != "" ==> a[1..] == body && a[0] == sign[0];
    assert sign == "" ==> a == body;
  }

  lemma {:induction false} SkipsAll(space: string, s: string)
    requires forall c | c in space :: c == ' ' || '\t' <= c <= '\r'
    requires s != "" ==> s[0] != ' ' && !('\t' <= s[0] <= '\r')
    ensures SkipSpace(space + s) == s
  {
    if space == "" {
      assert space + s == s;
    } else {
      assert space[0] in space && forall c | c in space[1..] :: c in space;
      assert (space + s)[1..] == space[1..] + s;
      SkipsAll(space[1..], s);
    }
  }

  // ----- one chunk as it is read -----

  /** What C's string functions see ends at the first NUL. */
  lemma {:induction false} SeenForm(a: string, b: string)
    requires '\0' !in a
    ensures CString(a) == a && CString(a + "\0" + b) == a
  {
    if a == "" {
      assert (a + "\0" + b)[0] == '\0';
    } else {
      assert (a + "\0" + b)[1..] == a[1..] + "\0" + b && (a + "\0" + b)[0] == a[0];
      assert a[0] in a && forall c | c in a[1..] :: c in a;
      SeenForm(a[1..], b);
    }
  }

  /** A line ends behind its line feed, or with the stream. */
  lemma {:induction false} LineForm(line: string, more: string)
    requires '\n' !in line
    ensures LineLength(line) == |line| && LineLength(line + "\n" + more) == |line| + 1
  {
    if line != "" {
      assert line[0] in line && forall c | c in line[1..] :: c in line;
      assert (line + "\n" + more)[1..] == line[1..] + "\n" + more;
      LineForm(line[1..], more);
    }
  }

  lemma LineIs(line: string, more: string)
    requires '\n' !in line
    ensures var s := line + "\n" + more;
      s != "" && LineLength(s) == |line| + 1 && s[LineLength(s)..] == more && s[..LineLength(s)] == line + "\n"
  {
    LineForm(line, more);
    hide LineLength;
  }

  /** What a size line leads to.  No number, or one that is too large, is refused; zero needs an empty line
      behind it; less data than announced is delivered and refused. */
  lemma ChunkRead(line: string, data: string)
    requires '\n' !in line
    ensures var r, n := Dechunk(line + "\n" + data), Strtoul(CString(line + "\n"));
      && (!n.any || n.value == 0xFFFF_FFFF ==> r == Read(false, "", data))
      && (n.any && 0 < n.value < 0xFFFF_FFFF && |data| <= n.value ==> r == Read(false, data, ""))
      && (n.any && n.value == 0 && data == "" ==> r == Read(false, "", ""))
  {
    LineIs(line, data);
    hide Strtoul, LineLength, CString;
    assert data[|data|..] == "";
    LineOfNothing();
  }

  /** A stream that has nothing, or ends within a size line. */
  lemma SizeOnly(line: string)
    requires '\n' !in line
    ensures !Dechunk(line).ok && Dechunk(line).body == ""
  {
    LineForm(line, "");
    LineOfNothing();
    hide Strtoul, LineLength, CString;
    assert line[|line|..] == "";
  }

  lemma LineOfNothing()
    ensures LineLength("") == 0
  {
  }

  lemma CloseIs(close: string)
    requires '\n' !in close
    ensures CString(close + "\n") == "\r\n" <==> close == "\r"
  {
    if '\0' in close {
      var i := FirstNul(close);
      SeenForm(close[..i], close[i + 1..] + "\n");
      assert close + "\n" == close[..i] + "\0" + (close[i + 1..] + "\n");
      assert '\n' !in close[..i] && '\n' == "\r\n"[1];
    } else {
      SeenForm(close + "\n", "");
      assert (close + "\n")[..|close|] == close && "\r\n"[..1] == "\r";
    }
  }

  lemma {:induction false} FirstNul(s: string) returns (i: nat)
    requires '\0' in s
    ensures i < |s| && s[i] == '\0' && '\0' !in s[..i]
  {
    if s[0] == '\0' {
      i := 0;
    } else {
      var j := FirstNul(s[1..]);
      i := j + 1;
      assert s[..i] == [s[0]] + s[1..][..i - 1];
    }
  }

  /** The line behind a chunk's data: if it is empty the next chunk follows, and if it is not the reader is
      satisfied with what it has; behind the last chunk it must be empty. */
  lemma CloseRead(line: string, w: string, close: string, rest: string)
    requires '\n' !in line && '\n' !in close
    ensures var r, n := Dechunk(line + "\n" + (w + (close + "\n" + rest))), Strtoul(CString(line + "\n"));
      && (n == Number(|w|, true) && 0 < |w| < 0xFFFF_FFFF ==>
            r == if close == "\r" then Read(Dechunk(rest).ok, w + Dechunk(rest).body, Dechunk(rest).rest) else Read(true, w, rest))
      && (n == Number(0, true) && w == "" ==> r == Read(close == "\r", "", rest))
  {
    var after := close + "\n" + rest;
    var data := w + after;
    LineIs(line, data);
    LineIs(close, rest);
    CloseIs(close);
    assert data[..|w|] == w && data[|w|..] == after;
    assert w == "" ==> data == after;
    hide Strtoul, LineLength, CString;
  }

  // ----- the provider's loop -----

  /** The loop goes on behind a call whose last operation wrote something, or that did nothing; it ends behind
      done, behind an empty write, and behind a refusal. */
  lemma LoopForm(call: Call, calls: seq<Call>)
    ensures Executed([], true) == [] && Executed([call] + calls, false) == []
    ensures !call.goOn ==> Executed([call] + calls, true) == call.ops
    ensures call.goOn && (call.ops == [] || (call.ops[|call.ops| - 1].Write? && call.ops[|call.ops| - 1].data != "")) ==>
      Executed([call] + calls, true) == call.ops + Executed(calls, true)
    ensures call.goOn && call.ops != [] && (call.ops[|call.ops| - 1] == Done || call.ops[|call.ops| - 1] == Op.Write("")) ==>
      Executed([call] + calls, true) == call.ops
  {
    assert ([call] + calls)[1..] == calls;
    assert Executed(calls, false) == [];
    assert call.ops + [] == call.ops;
  }
}
