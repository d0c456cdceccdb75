/** The chunked transfer coding of section 4.1 of RFC 7230: what the writer emits, and what the
    reader makes of any byte string. */
module Chunked {
  import opened Bytes
  import opened Strings

  /** unsigned long has 32 bits on the program's platform. */
  const ULONG_MAX := 0xFFFF_FFFF

  // ----- numbers -----

  function HexChar(d: nat): char
    requires d < 16
  {
    if d < 10 then '0' + d as char else 'a' + (d - 10) as char
  }

  /** from_i_to_hex. */
  function Hex(n: nat): string {
    if n < 16 then [HexChar(n)] else Hex(n / 16) + [HexChar(n % 16)]
  }

  predicate IsHex(c: char) { '0' <= c <= '9' || 'a' <= c <= 'f' || 'A' <= c <= 'F' }

  function DigitValue(c: char): (d: nat)
    requires IsHex(c)
    ensures d < 16
  {
    if c <= '9' then (c - '0') as int else if c <= 'F' then (c - 'A') as int + 10 else (c - 'a') as int + 10
  }

  predicate AllHex(s: string) { forall c | c in s :: IsHex(c) }

  function HexValue(s: string): nat
    requires AllHex(s)
  {
    if s == "" then 0 else HexValue(s[..|s| - 1]) * 16 + DigitValue(s[|s| - 1])
  }

  /** How many of the first characters are hexadecimal digits. */
  function HexRun(s: string): (k: nat)
    ensures k <= |s| && AllHex(s[..k])
    ensures k < |s| ==> !IsHex(s[k])
  {
    if s == "" || !IsHex(s[0]) then 0 else
      var k := HexRun(s[1..]);
      assert s[..k + 1] == [s[0]] + s[1..][..k];
      1 + k
  }

  /** What strtoul reads, and whether it read anything. */
  datatype Number = Number(value: nat, any: bool)

  /** A 0x prefix and digits. */
  function Magnitude(b: string): Option<nat> {
    var c := if |b| >= 3 && b[0] == '0' && (b[1] == 'x' || b[1] == 'X') && IsHex(b[2]) then b[2..] else b;
    var k := HexRun(c);
    if k == 0 then None else Some(HexValue(c[..k]))
  }

  /** strtoul in base 16: white space, a sign, a 0x prefix, digits; too large a number saturates. */
  function Strtoul(s: string): Number {
    var a := SkipSpace(s);
    var signed := a != "" && (a[0] == '-' || a[0] == '+');
    match Magnitude(if signed then a[1..] else a)
    case None => Number(0, false)
    case Some(v) =>
      if v > ULONG_MAX then Number(ULONG_MAX, true)
      else if signed && a[0] == '-' && v > 0 then Number(ULONG_MAX + 1 - v, true)
      else Number(v, true)
  }

  // ----- lines -----

  /** The length of the first line, its line feed included; a last line may lack one. */
  function LineLength(s: string): (n: nat)
    ensures n <= |s| && (s != "" ==> n > 0)
  {
    if s == "" then 0 else if s[0] == '\n' then 1 else 1 + LineLength(s[1..])
  }

  /** The part of a line that C's string functions see. */
  function CString(line: string): string {
    if line == "" || line[0] == '\0' then "" else [line[0]] + CString(line[1..])
  }

  // ----- the coded form -----

  function Chunk(w: string): (c: string) { Hex(|w|) + "\r\n" + w + "\r\n" }

  function Chunks(ws: seq<string>): string {
    if ws == [] then "" else Chunk(ws[0]) + Chunks(ws[1..])
  }

  /** A complete body: a chunk for each write, and the last chunk. */
  function Coded(ws: seq<string>): string {
    if ws == [] then "0\r\n\r\n" else Chunk(ws[0]) + Coded(ws[1..])
  }

  // ----- the reader -----

  /** Whether the reader is satisfied, what it handed on, and what it left in the stream. */
  datatype Read = Read(ok: bool, body: string, rest: string)

  /** read_content_chunked on a stream that ends after s. */
  function Dechunk(s: string): Read {
    if s == "" then Read(false, "", "") else
    var n := Strtoul(CString(s[..LineLength(s)]));
    var data := s[LineLength(s)..];
    if !n.any || n.value == ULONG_MAX then Read(false, "", data)
    else if n.value == 0 then
      Read(data != "" && CString(data[..LineLength(data)]) == "\r\n", "", data[LineLength(data)..])
    else if |data| < n.value then Read(false, data, "")
    else
      var w, after := data[..n.value], data[n.value..];
      var rest := after[LineLength(after)..];
      if after == "" then Read(false, w, "")
      else if CString(after[..LineLength(after)]) != "\r\n" then Read(true, w, rest)
      else
        var r := Dechunk(rest);
        Read(r.ok, w + r.body, r.rest)
  }

  // ----- hexadecimal numbers read back -----

  lemma HexCharIsDigit(d: nat)
    requires d < 16
    ensures IsHex(HexChar(d)) && DigitValue(HexChar(d)) == d
  {
  }

  lemma {:induction false} HexIsValue(n: nat)
    ensures Hex(n) != "" && AllHex(Hex(n)) && HexValue(Hex(n)) == n
    ensures n > 0 ==> Hex(n)[0] != '0'
  {
    HexCharIsDigit(n % 16);
    if n >= 16 {
      HexIsValue(n / 16);
      var h := Hex(n / 16);
      assert Hex(n)[..|Hex(n)| - 1] == h;
    } else {
      assert Hex(n)[..0] == "";
    }
  }

  /** No digit is taken for white space, a sign or part of a prefix. */
  lemma StrtoulDigits(d: string, more: string)
    requires d != "" && AllHex(d) && (more == "" || (!IsHex(more[0]) && more[0] != 'x' && more[0] != 'X'))
    ensures var v := HexValue(d); Strtoul(d + more) == Number(if v > ULONG_MAX then ULONG_MAX else v, true)
  {
    var s := d + more;
    assert s[0] == d[0] && IsHex(d[0]);
    assert SkipSpace(s) == s;
    assert |s| >= 2 ==> s[1] != 'x' && s[1] != 'X' by {
      if |d| >= 2 {
        assert s[1] == d[1] && IsHex(d[1]);
      }
    }
    RunOfDigits(d, more);
    assert s[..|d|] == d;
    hide HexRun, HexValue, SkipSpace;
  }

  lemma {:induction false} RunOfDigits(d: string, more: string)
    requires AllHex(d) && (more == "" || !IsHex(more[0]))
    ensures HexRun(d + more) == |d|
  {
    if d == "" {
      assert d + more == more;
    } else {
      assert AllHex(d[1..]);
      RunOfDigits(d[1..], more);
      assert (d + more)[1..] == d[1..] + more;
    }
  }

  lemma {:induction false} FirstLine(a: string, more: string)
    requires '\n' !in a
    ensures LineLength(a + "\n" + more) == |a| + 1
    ensures LineLength(a) == |a|
  {
    if a != "" {
      FirstLine(a[1..], more);
      assert (a + "\n" + more)[1..] == a[1..] + "\n" + more;
    }
  }

  lemma {:induction false} NoNul(s: string)
    requires '\0' !in s
    ensures CString(s) == s
  {
    if s != "" {
      NoNul(s[1..]);
    }
  }

  // ----- one chunk -----

  /** A size line of n, whatever follows it. */
  lemma SizeLine(n: nat, more: string)
    ensures var s := Hex(n) + "\r\n" + more;
      && LineLength(s) == |Hex(n)| + 2 && s[LineLength(s)..] == more
      && Strtoul(CString(s[..LineLength(s)])) == Number(if n > ULONG_MAX then ULONG_MAX else n, true)
  {
    hide Hex, Strtoul, LineLength, CString;
    var h := Hex(n);
    HexIsValue(n);
    assert '\n' !in h + "\r" && '\0' !in h + "\r\n";
    assert h + "\r\n" + more == (h + "\r") + "\n" + more;
    FirstLine(h + "\r", more);
    NoNul(h + "\r\n");
    StrtoulDigits(h, "\r\n");
    assert (h + "\r\n" + more)[..|h| + 2] == h + "\r\n";
  }

  lemma EmptyLine(more: string)
    ensures var s := "\r\n" + more;
      s != "" && LineLength(s) == 2 && s[2..] == more && CString(s[..2]) == "\r\n"
  {
    FirstLine("\r", more);
    assert "\r\n" + more == "\r" + "\n" + more;
    NoNul("\r\n");
    assert ("\r\n" + more)[..2] == "\r\n";
  }

  /** The reader hands a chunk on and goes on behind it, unless its size is out of range. */
  lemma ReadChunk(w: string, more: string)
    requires w != ""
    ensures var o, r := Dechunk(Chunk(w) + more), Dechunk(more);
      if |w| < ULONG_MAX then o == Read(r.ok, w + r.body, r.rest) else !o.ok
  {
    var s, data, after := Chunk(w) + more, w + ("\r\n" + more), "\r\n" + more;
    assert s == Hex(|w|) + "\r\n" + data;
    SizeLine(|w|, data);
    EmptyLine(more);
    assert data[..|w|] == w && data[|w|..] == after;
    hide Hex, Strtoul, LineLength, CString, Chunk;
  }

  lemma ReadLast(more: string)
    ensures Dechunk("0\r\n\r\n" + more) == Read(true, "", more)
  {
    var s := "0\r\n\r\n" + more;
    assert Hex(0) == "0";
    assert s == Hex(0) + "\r\n" + ("\r\n" + more);
    SizeLine(0, "\r\n" + more);
    EmptyLine(more);
    hide Hex, Strtoul, LineLength, CString;
  }

  // ----- whole bodies -----

  predicate Sized(ws: seq<string>) { forall w | w in ws :: |w| < ULONG_MAX }

  predicate NonEmpty(ws: seq<string>) { forall w | w in ws :: w != "" }

  lemma WritesSplit(ws: seq<string>)
    requires ws != []
    ensures NonEmpty(ws) ==> ws[0] != "" && NonEmpty(ws[1..])
    ensures Sized(ws) <==> |ws[0]| < ULONG_MAX && Sized(ws[1..])
  {
    assert ws[0] in ws && forall w | w in ws[1..] :: w in ws;
    assert ws == [ws[0]] + ws[1..];
  }

  /** Reading a coded body delivers exactly the bytes written and leaves exactly what follows it,
      unless a chunk is too large for the reader's number; then the reader refuses. */
  lemma {:induction false} RoundTrip(ws: seq<string>, more: string)
    requires NonEmpty(ws)
    ensures var r := Dechunk(Coded(ws) + more);
      if Sized(ws) then r == Read(true, Flat(ws), more) else !r.ok
  {
    if ws == [] {
      ReadLast(more);
    } else {
      WritesSplit(ws);
      hide Dechunk, Sized, NonEmpty, Chunk;
      RoundTrip(ws[1..], more);
      ReadChunk(ws[0], Coded(ws[1..]) + more);
      assert Coded(ws) + more == Chunk(ws[0]) + (Coded(ws[1..]) + more);
    }
  }

  // ----- bodies cut short -----

  /** p stops between the carriage return and the line feed that close some chunk's data. */
  predicate StopsInClose(ws: seq<string>, p: string) {
    ws != [] &&
    var c := Chunk(ws[0]);
    p == c[..|c| - 1] || (c <= p && StopsInClose(ws[1..], p[|c|..]))
  }

  lemma {:induction false} HexPositive(d: string)
    requires AllHex(d) && d != "" && d[0] != '0'
    ensures HexValue(d) > 0
  {
    if |d| > 1 {
      assert d[..|d| - 1][0] == d[0];
      HexPositive(d[..|d| - 1]);
    } else {
      assert d[0] in d && HexValue(d[..0]) == 0;
    }
  }

  lemma DigitsCut(n: nat, d: string)
    requires n > 0 && d != "" && d <= Hex(n)
    ensures AllHex(d) && HexValue(d) > 0 && '\n' !in d && '\0' !in d
  {
    HexIsValue(n);
    assert forall c | c in d :: c in Hex(n);
    HexPositive(d);
  }

  /** A size line that is not finished. */
  lemma CutSize(n: nat, p: string)
    requires n > 0 && p <= Hex(n) + "\r"
    ensures !Dechunk(p).ok
  {
    if p != "" {
      hide Hex, HexValue, Strtoul, CString, LineLength, AllHex;
      HexNotEmpty(n);
      var d := if |p| <= |Hex(n)| then p else Hex(n);
      PrefixOf(p, Hex(n), "\r");
      var more := p[|d|..];
      assert more == "" || more == "\r";
      DigitsCut(n, d);
      StrtoulDigits(d, more);
      FirstLine(p, "");
      NoNul(p);
      assert p == d + more;
      hide Dechunk;
      SizeOnly(p);
    }
  }

  /** A size other than zero with nothing behind it. */
  lemma SizeOnly(p: string)
    requires p != "" && LineLength(p) == |p| && Strtoul(CString(p)).value > 0
    ensures !Dechunk(p).ok
  {
    hide Strtoul, CString, LineLength;
    assert p[..|p|] == p;
  }

  lemma HexNotEmpty(n: nat)
    ensures Hex(n) != ""
  {
  }

  /** A size line with less behind it than the whole chunk. */
  lemma CutData(w: string, data: string)
    requires 0 < |w| < ULONG_MAX && data <= w + "\r"
    ensures Dechunk(Hex(|w|) + "\r\n" + data).ok <==> data == w + "\r"
  {
    SizeLine(|w|, data);
    if |data| >= |w| {
      var after := data[|w|..];
      assert after == "" || after == "\r";
      assert data[..|w|] == w;
      FirstLine("\r", "");
      NoNul("\r");
      assert after[..|after|] == after;
    }
    hide Hex, Strtoul, CString, LineLength;
  }

  lemma PrefixOf(p: string, a: string, b: string)
    requires p <= a + b
    ensures |p| <= |a| ==> p <= a
    ensures |p| >= |a| ==> a <= p && p == a + p[|a|..] && p[|a|..] <= b
  {
    assert forall i :: 0 <= i < |p| ==> p[i] == (a + b)[i];
  }

  lemma ChunkFront(w: string)
    ensures var front := Hex(|w|) + "\r\n" + (w + "\r"); Chunk(w) == front + "\n" && Chunk(w)[..|Chunk(w)| - 1] == front
  {
    hide Hex;
    var front := Hex(|w|) + "\r\n" + (w + "\r");
    assert Chunk(w) == front + "\n";
  }

  lemma CutFrontOf(w: string, p: string)
    requires 0 < |w| < ULONG_MAX && p <= Hex(|w|) + "\r\n" + (w + "\r")
    ensures Dechunk(p).ok <==> p == Hex(|w|) + "\r\n" + (w + "\r")
  {
    var h, data := Hex(|w|), w + "\r";
    hide Dechunk, Hex;
    if |p| <= |h| + 1 {
      assert h + "\r\n" + data == (h + "\r") + ("\n" + data);
      PrefixOf(p, h + "\r", "\n" + data);
      CutSize(|w|, p);
    } else {
      PrefixOf(p, h + "\r\n", data);
      CutData(w, p[|h| + 2..]);
    }
  }

  lemma CutChunk(w: string, p: string)
    requires 0 < |w| < ULONG_MAX && p <= Chunk(w) && |p| < |Chunk(w)|
    ensures Dechunk(p).ok <==> p == Chunk(w)[..|Chunk(w)| - 1]
  {
    hide Dechunk, Chunk, Hex;
    ChunkFront(w);
    var front := Hex(|w|) + "\r\n" + (w + "\r");
    PrefixOf(p, front, "\n");
    CutFrontOf(w, p);
  }

  /** A lone last-chunk line with less than the closing line behind it. */
  lemma CutClose(data: string)
    requires data <= "\r"
    ensures !Dechunk(Hex(0) + "\r\n" + data).ok
  {
    SizeLine(0, data);
    FirstLine("\r", "");
    NoNul("\r");
    hide Hex, Strtoul, CString, LineLength;
    assert data[..|data|] == data;
    assert data == "" || data == "\r";
  }

  lemma CutZero(more: string)
    requires more <= "\r"
    ensures !Dechunk("0" + more).ok
  {
    var p := "0" + more;
    assert more == "" || more == "\r";
    StrtoulDigits("0", more);
    FirstLine(p, "");
    NoNul(p);
    HexIsValue(0);
    assert p[..|p|] == p && Hex(0) == "0";
    hide Hex, HexValue, Strtoul, CString, LineLength;
  }

  lemma LastParts()
    ensures Hex(0) + "\r\n" == "0\r\n"
    ensures "0\r\n\r\n" == "0\r\n" + "\r\n" == "0" + "\r\n\r\n"
    ensures "\r\n" == "\r" + "\n" && "\r\n\r\n" == "\r" + "\n\r\n"
  {
    assert Hex(0) == "0";
  }

  lemma CutLast(p: string)
    requires p <= "0\r\n\r\n" && |p| < 5
    ensures !Dechunk(p).ok
  {
    LastParts();
    if |p| >= 3 {
      hide *;
      PrefixOf(p, "0\r\n", "\r\n");
      PrefixOf(p[3..], "\r", "\n");
      CutClose(p[3..]);
    } else if |p| > 0 {
      hide *;
      PrefixOf(p, "0", "\r\n\r\n");
      PrefixOf(p[1..], "\r", "\n\r\n");
      CutZero(p[1..]);
    }
  }

  /** A stream that ends before the coded body does is refused, with one exception: when it ends
      between the carriage return and the line feed after a chunk, the reader is satisfied with
      what it has. */
  lemma {:induction false} CutShort(ws: seq<string>, p: string)
    requires NonEmpty(ws) && Sized(ws) && p <= Coded(ws) && p != Coded(ws)
    ensures Dechunk(p).ok <==> StopsInClose(ws, p)
  {
    if ws == [] {
      assert |p| < 5;
      CutLast(p);
    } else {
      hide *;
      WritesSplit(ws);
      CutParts(ws, p);
      var c := Chunk(ws[0]);
      if |p| < |c| {
        CutChunk(ws[0], p);
      } else {
        ReadChunk(ws[0], p[|c|..]);
        CutShort(ws[1..], p[|c|..]);
      }
    }
  }

  /** Whether the cut is in the first chunk, and what is cut if it is not. */
  lemma CutParts(ws: seq<string>, p: string)
    requires ws != [] && p <= Coded(ws) && p != Coded(ws)
    ensures var c := Chunk(ws[0]);
      if |p| < |c| then p <= c && p != c && (StopsInClose(ws, p) <==> p == c[..|c| - 1])
      else
        var rest := p[|c|..];
        && c + rest == p && rest <= Coded(ws[1..]) && rest != Coded(ws[1..])
        && (StopsInClose(ws, p) <==> StopsInClose(ws[1..], rest))
  {
    var c := Chunk(ws[0]);
    assert Coded(ws) == c + Coded(ws[1..]);
    hide Chunk, Coded;
    PrefixSplit(p, c, Coded(ws[1..]));
  }

  lemma PrefixSplit(p: string, c: string, d: string)
    requires p <= c + d && p != c + d
    ensures |p| < |c| ==> p <= c && p != c && !(c <= p)
    ensures |p| >= |c| ==> c <= p && c + p[|c|..] == p && p[|c|..] <= d && p[|c|..] != d
  {
    var s := c + d;
    assert s[..|c|] == c && s[|c|..] == d;
    if |p| >= |c| {
      assert p[..|c|] == c;
      assert p == c + p[|c|..];
      assert p[|c|..] == s[|c|..|p|] == d[..|p| - |c|];
    }
  }
}
