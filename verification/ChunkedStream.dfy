/** The chunked reader over a stream that gives its bytes in arbitrary portions, and the writer. */
module ChunkedStream {
  import opened Chunked

  const RECV_BUFSIZ := 16384

  /** A stream: what the peer sent and how much of it has been read. */
  class InStream {
    const input: string
    var pos: nat

    constructor (input: string)
      ensures this.input == input && pos == 0
    {
      this.input, pos := input, 0;
    }

    ghost predicate Valid() reads this { pos <= |input| }

    ghost function Left(): string
      reads this
      requires Valid()
    {
      input[pos..]
    }

    /** read: at most max bytes, as few as the network likes, none only at the end. */
    method Read(max: nat) returns (data: string)
      requires Valid() && max > 0
      modifies this
      ensures Valid() && old(Left()) == data + Left() && |data| <= max
      ensures data == "" <==> old(Left()) == ""
    {
      if pos == |input| {
        return "";
      }
      var n: nat :| 1 <= n <= max && n <= |input| - pos;
      data := input[pos..pos + n];
      pos := pos + n;
    }
  }

  /** stream_line_reader: a fixed buffer, and a growing one for what does not fit in it. */
  class LineReader {
    const fixed: array<char>
    var used: nat
    var growable: string

    constructor (size: nat)
      requires size > 1
      ensures Valid() && fresh(fixed) && fixed.Length == size
    {
      fixed := new char[size];
      used, growable := 0, "";
    }

    ghost predicate Valid()
      reads this, fixed
    {
      && used < fixed.Length && (used > 0 ==> fixed[used] == '\0')
      && (growable != "" ==> used == fixed.Length - 1 && fixed[..used] <= growable && |growable| > used)
    }

    /** The bytes of the line. */
    ghost function Line(): string
      reads this, fixed
      requires Valid()
    {
      if growable == "" then fixed[..used] else growable
    }

    /** append. */
    method Append(c: char)
      requires Valid() && fixed.Length > 1
      modifies this`used, this`growable, fixed
      ensures Valid() && Line() == old(Line()) + [c]
    {
      if used < fixed.Length - 1 {
        fixed[used] := c;
        used := used + 1;
        fixed[used] := '\0';
      } else {
        if growable == "" {
          growable := fixed[..used];
        }
        growable := growable + [c];
      }
    }

    /** ptr, as the C string it points to: the buffer up to its first NUL. */
    method Text() returns (s: string)
      requires Valid()
      ensures s == CString(Line())
    {
      hide CString;
      if growable == "" {
        s := UpToNul(fixed[..used]);
      } else {
        s := UpToNul(growable);
      }
    }

    /** Reads one byte, if there is one. */
    method Take(strm: InStream) returns (data: string)
      requires Valid() && fixed.Length > 1 && strm.Valid()
      modifies this`used, this`growable, fixed, strm
      ensures Valid() && strm.Valid() && |data| <= 1
      ensures data == "" <==> old(strm.Left()) == ""
      ensures Line() == old(Line()) + data && old(strm.Left()) == data + strm.Left()
    {
      data := strm.Read(1);
      if data != "" {
        Append(data[0]);
      }
    }

    /** getline: reads byte by byte up to a line feed or the end of the stream. */
    method GetLine(strm: InStream) returns (ok: bool)
      requires Valid() && fixed.Length > 1 && strm.Valid()
      modifies this`used, this`growable, fixed, strm
      ensures Valid() && strm.Valid()
      ensures ok <==> old(strm.Left()) != ""
      ensures ok ==> Line() == old(strm.Left())[..LineLength(old(strm.Left()))]
      ensures strm.Left() == old(strm.Left())[LineLength(old(strm.Left()))..]
    {
      used, growable := 0, "";
      ghost var s := strm.Left();
      var i := 0;
      hide Valid, Line, strm.Valid, strm.Left, LineLength;
      assert Line() == "" by { EmptyNow(); }
      while true
        invariant Valid() && strm.Valid() && i <= |s|
        invariant Line() == s[..i] && strm.Left() == s[i..]
        invariant LineLength(s) == i + LineLength(s[i..])
        decreases |s| - i
      {
        LineStep(s[i..]);
        var data := Take(strm);
        if data == "" {
          if i == 0 {
            return false;
          }
          break;
        }
        OneMore(s, i, data, strm.Left());
        i := i + 1;
        if data[0] == '\n' {
          break;
        }
      }
      return true;
    }

    lemma EmptyNow()
      requires used == 0 && growable == "" && fixed.Length > 1
      ensures Valid() && Line() == ""
    {
    }
  }

  /** What C's string functions see of a buffer. */
  method UpToNul(buf: string) returns (s: string)
    ensures s == CString(buf)
  {
    var n := 0;
    while n < |buf| && buf[n] != '\0'
      invariant n <= |buf| && buf[..n] + CString(buf[n..]) == CString(buf)
    {
      assert buf[n..][1..] == buf[n + 1..];
      n := n + 1;
    }
    s := buf[..n];
  }

  lemma LineStep(s: string)
    ensures LineLength(s) == if s == "" then 0 else if s[0] == '\n' then 1 else 1 + LineLength(s[1..])
  {
  }

  lemma OneMore(s: string, i: nat, data: string, left: string)
    requires i <= |s| && s[i..] == data + left && |data| == 1
    ensures i < |s| && s[..i] + data == s[..i + 1] && left == s[i + 1..] && s[i..][1..] == s[i + 1..] && data[0] == s[i..][0]
  {
    assert s[i..][0] == s[i] && s[i..][1..] == s[i + 1..];
  }

  // ----- the reader -----

  /** Where the body goes. */
  class Receiver {
    var body: string

    constructor ()
      ensures body == ""
    {
      body := "";
    }
  }

  /** read_content_with_length: len bytes, in whatever portions they come. */
  method ReadContentWithLength(strm: InStream, len: nat, out: Receiver) returns (ok: bool)
    requires strm.Valid()
    modifies strm, out
    ensures strm.Valid() && (ok <==> len <= |old(strm.Left())|)
    ensures var n := if ok then len else |old(strm.Left())|;
      out.body == old(out.body) + old(strm.Left())[..n] && strm.Left() == old(strm.Left())[n..]
  {
    ghost var s := strm.Left();
    var r := 0;
    while r < len
      invariant strm.Valid() && r <= len && r <= |s|
      invariant out.body == old(out.body) + s[..r] && strm.Left() == s[r..]
    {
      var want := if len - r < RECV_BUFSIZ then len - r else RECV_BUFSIZ;
      var data := strm.Read(want);
      if data == "" {
        return false;
      }
      Portion(s, r, data, strm.Left());
      out.body := out.body + data;
      r := r + |data|;
    }
    return true;
  }

  lemma Portion(s: string, r: nat, data: string, left: string)
    requires r <= |s| && s[r..] == data + left
    ensures r + |data| <= |s| && s[..r] + data == s[..r + |data|] && left == s[r + |data|..]
  {
    assert forall i :: 0 <= i < |data| ==> s[r + i] == s[r..][i] == data[i];
    assert forall i :: 0 <= i < |left| ==> s[r + |data| + i] == s[r..][|data| + i] == left[i];
  }

  /** The reader stands behind the first line of s. */
  ghost predicate Behind(reader: LineReader, strm: InStream, s: string)
    reads reader, reader.fixed, strm
  {
    && reader.Valid() && reader.fixed.Length > 1 && strm.Valid()
    && s != "" && reader.Line() == s[..LineLength(s)] && strm.Left() == s[LineLength(s)..]
  }

  /** What the reader makes of a chunk's data and what follows it. */
  function AfterSize(data: string, n: nat): Read {
    if |data| < n then Read(false, data, "")
    else
      var w, after := data[..n], data[n..];
      var rest := after[LineLength(after)..];
      if after == "" then Read(false, w, "")
      else if CString(after[..LineLength(after)]) != "\r\n" then Read(true, w, rest)
      else var r := Dechunk(rest); Read(r.ok, w + r.body, r.rest)
  }

  lemma DechunkStep(s: string)
    requires s != ""
    ensures var n, data := Strtoul(CString(s[..LineLength(s)])), s[LineLength(s)..];
      Dechunk(s) ==
        if !n.any || n.value == ULONG_MAX then Read(false, "", data)
        else if n.value == 0 then
          Read(data != "" && CString(data[..LineLength(data)]) == "\r\n", "", data[LineLength(data)..])
        else AfterSize(data, n.value)
  {
    hide Strtoul, CString, LineLength;
  }

  lemma NothingLeft(s: string)
    requires s == ""
    ensures Dechunk(s) == Read(false, "", "") && s[LineLength(s)..] == ""
  {
  }

  /** The closing line after the last chunk. */
  method ReadClose(strm: InStream, reader: LineReader) returns (ok: bool)
    requires reader.Valid() && reader.fixed.Length > 1 && strm.Valid()
    modifies reader`used, reader`growable, reader.fixed, strm
    ensures strm.Valid()
    ensures var data := old(strm.Left());
      && (ok <==> data != "" && CString(data[..LineLength(data)]) == "\r\n")
      && strm.Left() == data[LineLength(data)..]
  {
    hide CString, LineLength;
    ok := reader.GetLine(strm);
    if ok {
      var text := reader.Text();
      ok := text == "\r\n";
    }
  }

  /** How far a reader has come: at the end with a verdict, or behind the next size line. */
  ghost predicate Came(r: Read, w: string, done: bool, ok: bool, next: string, reader: LineReader, strm: InStream)
    reads reader, reader.fixed, strm
  {
    && strm.Valid()
    && if done then r == Read(ok, w, strm.Left())
       else Behind(reader, strm, next) && r == Read(Dechunk(next).ok, w + Dechunk(next).body, Dechunk(next).rest)
  }

  lemma CameToEnd(r: Read, w: string, ok: bool, reader: LineReader, strm: InStream)
    requires strm.Valid() && r == Read(ok, w, strm.Left())
    ensures Came(r, w, true, ok, "", reader, strm)
  {
  }

  lemma AfterSizeShort(data: string, n: nat)
    requires |data| < n
    ensures AfterSize(data, n) == Read(false, data[..|data|], data[|data|..])
  {
  }

  lemma AfterSizeEnd(data: string, n: nat)
    requires n <= |data| && data[n..] == ""
    ensures AfterSize(data, n) == Read(false, data[..n], data[n..][LineLength(data[n..])..])
  {
  }

  lemma AfterSizeOdd(data: string, n: nat)
    requires n <= |data| && data[n..] != "" && CString(data[n..][..LineLength(data[n..])]) != "\r\n"
    ensures AfterSize(data, n) == Read(true, data[..n], data[n..][LineLength(data[n..])..])
  {
    hide Dechunk, CString, LineLength;
  }

  lemma AfterSizeNext(data: string, n: nat)
    requires n <= |data| && data[n..] != "" && CString(data[n..][..LineLength(data[n..])]) == "\r\n"
    ensures var rest := data[n..][LineLength(data[n..])..];
      AfterSize(data, n) == Read(Dechunk(rest).ok, data[..n] + Dechunk(rest).body, Dechunk(rest).rest)
  {
    hide Dechunk, CString, LineLength;
  }

  lemma NoNext(r: Read, w: string)
    requires r == Read(Dechunk("").ok, w + Dechunk("").body, Dechunk("").rest)
    ensures r == Read(false, w, ""[LineLength("")..])
  {
  }

  /** A chunk's data and the lines up to the next size line. */
  method ReadData(strm: InStream, reader: LineReader, out: Receiver, len: nat)
      returns (done: bool, ok: bool, ghost w: string, ghost next: string)
    requires reader.Valid() && reader.fixed.Length > 1 && strm.Valid()
    modifies reader`used, reader`growable, reader.fixed, strm, out
    ensures Came(AfterSize(old(strm.Left()), len), w, done, ok, next, reader, strm)
    ensures out.body == old(out.body) + w && (!done ==> |next| < |old(strm.Left())|)
  {
    hide *;
    ghost var data := strm.Left();
    next := "";
    ok := ReadContentWithLength(strm, len, out);
    if !ok {
      w := data[..|data|];
      AfterSizeShort(data, len);
      CameToEnd(AfterSize(data, len), w, false, reader, strm);
      return true, false, w, next;
    }
    w := data[..len];
    done, ok, next := ReadCloseAndSize(strm, reader, data, len);
  }

  /** The line that closes a chunk's data, and the next size line. */
  method ReadCloseAndSize(strm: InStream, reader: LineReader, ghost data: string, ghost len: nat)
      returns (done: bool, ok: bool, ghost next: string)
    requires reader.Valid() && reader.fixed.Length > 1 && strm.Valid() && len <= |data| && strm.Left() == data[len..]
    modifies reader`used, reader`growable, reader.fixed, strm
    ensures Came(AfterSize(data, len), data[..len], done, ok, next, reader, strm)
    ensures !done ==> |next| < |data|
  {
    hide *;
    ghost var after := strm.Left();
    next := "";
    ok := reader.GetLine(strm);
    if !ok {
      AfterSizeEnd(data, len);
      CameToEnd(AfterSize(data, len), data[..len], false, reader, strm);
      return true, false, next;
    }
    var text := reader.Text();
    if text != "\r\n" {
      AfterSizeOdd(data, len);
      CameToEnd(AfterSize(data, len), data[..len], true, reader, strm);
      return true, true, next;
    }
    AfterSizeNext(data, len);
    done, ok, next := ReadSize(strm, reader, AfterSize(data, len), data[..len]);
  }

  /** The next size line, if there is one. */
  method ReadSize(strm: InStream, reader: LineReader, ghost r: Read, ghost w: string)
      returns (done: bool, ok: bool, ghost next: string)
    requires reader.Valid() && reader.fixed.Length > 1 && strm.Valid()
    requires var s := strm.Left(); r == Read(Dechunk(s).ok, w + Dechunk(s).body, Dechunk(s).rest)
    modifies reader`used, reader`growable, reader.fixed, strm
    ensures Came(r, w, done, ok, next, reader, strm)
    ensures !done ==> next == old(strm.Left())
  {
    ghost var s := strm.Left();
    hide Dechunk, LineLength, InStream.Left, LineReader.Line, LineReader.Valid;
    ok := reader.GetLine(strm);
    done, next := !ok, s;
    if done {
      NoNext(r, w);
    }
  }

  /** From one size line to the next, or to the end. */
  method OneChunk(strm: InStream, reader: LineReader, out: Receiver, ghost s: string)
      returns (done: bool, ok: bool, ghost w: string, ghost next: string)
    requires Behind(reader, strm, s)
    modifies reader`used, reader`growable, reader.fixed, strm, out
    ensures Came(Dechunk(s), w, done, ok, next, reader, strm)
    ensures out.body == old(out.body) + w && (!done ==> |next| < |s|)
  {
    DechunkStep(s);
    hide Strtoul, CString, LineLength, Dechunk, InStream.Left, LineReader.Line, LineReader.Valid, Came, AfterSize;
    w, next := "", "";
    var text := reader.Text();
    var n := Strtoul(text);
    if !n.any || n.value == ULONG_MAX {
      CameToEnd(Dechunk(s), "", false, reader, strm);
      return true, false, w, next;
    }
    if n.value == 0 {
      ok := ReadClose(strm, reader);
      CameToEnd(Dechunk(s), "", ok, reader, strm);
      return true, ok, w, next;
    }
    done, ok, w, next := ReadData(strm, reader, out, n.value);
  }

  /** After w has been handed on, b is all that is left of a. */
  ghost predicate Leads(a: Read, w: string, b: Read) {
    a == Read(b.ok, w + b.body, b.rest)
  }

  lemma LeadsOn(a: Read, b: Read, w1: string, done: bool, ok: bool, w2: string, next: string, reader: LineReader, strm: InStream)
    requires Leads(a, w1, b) && Came(b, w2, done, ok, next, reader, strm)
    ensures strm.Valid() && (done ==> a == Read(ok, w1 + w2, strm.Left()))
    ensures !done ==> Behind(reader, strm, next) && Leads(a, w1 + w2, Dechunk(next))
  {
    if !done {
      assert w1 + (w2 + Dechunk(next).body) == w1 + w2 + Dechunk(next).body;
    }
  }

  lemma LeadsSelf(a: Read)
    ensures Leads(a, "", a)
  {
    assert "" + a.body == a.body;
  }

  /** The receiver has got w on top of what it had. */
  ghost predicate Got(before: string, w: string, now: string) {
    now == before + w
  }

  lemma GotNothing(body: string)
    ensures Got(body, "", body)
  {
  }

  lemma GotMore(before: string, w: string, mid: string, more: string, now: string)
    requires Got(before, w, mid) && now == mid + more
    ensures Got(before, w + more, now)
  {
  }

  /** read_content_chunked, with its line buffer of 16 bytes. */
  method ReadContentChunked(strm: InStream, out: Receiver) returns (ok: bool)
    requires strm.Valid()
    modifies strm, out
    ensures strm.Valid()
    ensures Dechunk(old(strm.Left())).ok == ok && Dechunk(old(strm.Left())).rest == strm.Left()
    ensures out.body == old(out.body) + Dechunk(old(strm.Left())).body
  {
    hide Strtoul, CString, LineLength, Dechunk, InStream.Left, InStream.Valid, LineReader.Line, LineReader.Valid;
    var reader := new LineReader(16);
    ghost var w;
    ok, w := ReadBody(strm, reader, out, strm.Left());
  }

  lemma EmptyStream()
    ensures Dechunk("") == Read(false, "", "")
  {
  }

  method ReadBody(strm: InStream, reader: LineReader, out: Receiver, ghost s0: string) returns (ok: bool, ghost w: string)
    requires reader.Valid() && reader.fixed.Length > 1 && strm.Valid() && strm.Left() == s0
    modifies reader`used, reader`growable, reader.fixed, strm, out
    ensures strm.Valid() && Dechunk(s0) == Read(ok, w, strm.Left()) && Got(old(out.body), w, out.body)
  {
    hide *;
    ok := ReadSizeLine(strm, reader, s0);
    if ok {
      ok, w := ReadChunks(strm, reader, out, s0);
    } else {
      EmptyStream();
      w := "";
      GotNothing(out.body);
    }
  }

  /** A size line, if the stream has anything left. */
  method ReadSizeLine(strm: InStream, reader: LineReader, ghost s: string) returns (ok: bool)
    requires reader.Valid() && reader.fixed.Length > 1 && strm.Valid() && strm.Left() == s
    modifies reader`used, reader`growable, reader.fixed, strm
    ensures ok ==> Behind(reader, strm, s)
    ensures !ok ==> s == "" && strm.Valid() && strm.Left() == ""
  {
    hide Dechunk, LineLength, InStream.Left, LineReader.Line, LineReader.Valid;
    ok := reader.GetLine(strm);
  }

  method ReadChunks(strm: InStream, reader: LineReader, out: Receiver, ghost s0: string) returns (ok: bool, ghost w: string)
    requires Behind(reader, strm, s0)
    modifies reader`used, reader`growable, reader.fixed, strm, out
    ensures strm.Valid() && Dechunk(s0) == Read(ok, w, strm.Left()) && Got(old(out.body), w, out.body)
  {
    hide *;
    ghost var r, s := Dechunk(s0), s0;
    w := "";
    LeadsSelf(r);
    GotNothing(out.body);
    while true
      invariant Behind(reader, strm, s) && Leads(r, w, Dechunk(s)) && Got(old(out.body), w, out.body)
      decreases |s|
    {
      ghost var b, body := Dechunk(s), out.body;
      var done;
      ghost var w1, next;
      done, ok, w1, next := OneChunk(strm, reader, out, s);
      LeadsOn(r, b, w, done, ok, w1, next, reader, strm);
      GotMore(old(out.body), w, body, w1, out.body);
      s, w := next, w + w1;
      if done {
        return;
      }
    }
  }
}
