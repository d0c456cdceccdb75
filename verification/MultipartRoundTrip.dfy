/** The incremental parser rebuilds the items a serialiser wrote, however the bytes are cut. */
module MultipartRoundTrip {
  import opened Multipart
  import opened Strings

  // ----- searching a prefix of a longer text -----

  predicate Occurs(s: string, pat: string) {
    exists i :: 0 <= i <= |s| && pat <= s[i..]
  }

  /** pat's first character comes up only once in it. */
  predicate Unbordered(pat: string) {
    pat != "" && pat[0] !in pat[1..]
  }

  lemma FirstAfter(s: string, pat: string, more: string, p: nat)
    requires Unbordered(pat) && !Occurs(s, pat) && p < |s|
    ensures !(pat <= (s + pat + more)[p..])
  {
    var z := s + pat + more;
    if p + |pat| <= |s| {
      assert z[p..][..|pat|] == s[p..][..|pat|];
      assert !(pat <= s[p..]);
    } else if p + |pat| <= |z| {
      assert z[p..][|s| - p] == pat[0];
      assert pat[|s| - p] in pat[1..];
    }
  }

  /** A search that sees only the front of s + pat + more. */
  lemma FindInFront(s: string, pat: string, more: string, buf: string)
    requires Unbordered(pat) && !Occurs(s, pat) && buf <= s + pat + more
    ensures Find(buf, pat) == if |s| + |pat| <= |buf| then |s| else |buf|
    ensures |s| + |pat| <= |buf| ==> buf[..|s|] == s && s + pat <= buf
  {
    var z, at := s + pat + more, Find(buf, pat);
    assert forall i :: 0 <= i < |buf| ==> buf[i] == z[i];
    if at < |s| && at < |buf| {
      assert pat <= z[at..] by {
        assert buf[at..] <= z[at..];
      }
      FirstAfter(s, pat, more, at);
    }
    if |s| + |pat| <= |buf| {
      assert buf[|s|..][..|pat|] == z[|s|..][..|pat|] == pat;
      assert pat <= buf[|s|..];
      assert buf[..|s|] == s;
      assert buf[..|s| + |pat|] == s + pat;
    }
  }

  lemma FreeSuffix(s: string, pat: string, k: nat)
    requires k <= |s| && !Occurs(s, pat)
    ensures !Occurs(s[k..], pat)
  {
    forall i | 0 <= i <= |s[k..]|
      ensures !(pat <= s[k..][i..])
    {
      assert s[k..][i..] == s[k + i..];
    }
  }

  lemma CharFree(s: string, pat: string)
    requires pat != "" && pat[0] !in s
    ensures !Occurs(s, pat)
  {
    forall i | 0 <= i <= |s|
      ensures !(pat <= s[i..])
    {
      if i < |s| {
        assert s[i..][0] == s[i];
      }
    }
  }

  // ----- what the serialiser's callers keep to -----

  predicate PlainName(s: string) {
    '\r' !in s && '\n' !in s && '"' !in s
  }

  /** Nothing trim_copy would remove. */
  predicate Trimmed(s: string) {
    s != "" ==> !IsBlank(s[0]) && !IsBlank(s[|s| - 1])
  }

  predicate GoodItem(it: Item, boundary: string) {
    && PlainName(it.name) && PlainName(it.filename)
    && Trimmed(it.contentType) && !Occurs(it.contentType, CRLF())
    && |DispositionLine(it)| < HEADER_MAX_LENGTH && |TypeLine(it)| < HEADER_MAX_LENGTH
    && !Occurs(it.content, Delimiter(boundary))
  }

  predicate Good(items: seq<Item>, boundary: string) {
    '\r' !in boundary && forall it | it in items :: GoodItem(it, boundary)
  }

  // ----- header lines -----

  lemma LowerDisposition(line: string)
    requires DispositionHead() <= line
    ensures !StartsWithNoCase(line, TypeName())
    ensures StartsWithNoCase(line, DispositionHead())
  {
    assert line[8] == DispositionHead()[8] == 'D' && TypeName()[8] == 't';
    assert ToLower('D') == 'd' && ToLower('t') == 't';
  }

  lemma FindQuote(s: string, more: string)
    requires '"' !in s
    ensures Find(s + "\"" + more, "\"") == |s|
  {
    CharFree(s, "\"");
    FindInFront(s, "\"", more, s + "\"" + more);
  }

  /** The disposition line gives back the names it was made of. */
  lemma DispositionReadsBack(it: Item)
    requires PlainName(it.name) && PlainName(it.filename)
    ensures Disposition(DispositionLine(it)) == [it.name, it.filename]
    ensures !StartsWithNoCase(DispositionLine(it), TypeName())
  {
    var line := DispositionLine(it);
    LowerDisposition(line);
    var after := if it.filename == "" then "" else FilenameHead() + it.filename + "\"";
    hide DispositionHead, TypeName, StartsWithNoCase, Find;
    assert line[|DispositionHead()|..] == it.name + "\"" + after;
    FindQuote(it.name, after);
    assert (it.name + "\"" + after)[..|it.name|] == it.name;
    assert (it.name + "\"" + after)[|it.name| + 1..] == after;
    if it.filename != "" {
      FilenameReadsBack(it.filename);
    }
  }

  lemma FilenameReadsBack(filename: string)
    requires '"' !in filename
    ensures var after := FilenameHead() + filename + "\"";
      && after != "" && StartsWithNoCase(after, FilenameHead())
      && var file := after[|FilenameHead()|..];
      && Find(file, "\"") == |filename| && |file| == |filename| + 1 && file[..|filename|] == filename
  {
    hide FilenameHead, Find;
    var after := FilenameHead() + filename + "\"";
    assert after[|FilenameHead()|..] == filename + "\"" + "";
    FindQuote(filename, "");
    assert (filename + "\"")[..|filename|] == filename;
  }

  lemma TypeReadsBack(it: Item)
    requires Trimmed(it.contentType) && it.contentType != ""
    ensures StartsWithNoCase(TypeLine(it), TypeName())
    ensures Trim(TypeLine(it)[|TypeName()|..]) == it.contentType
  {
    TypeHeadMatches();
    var line, rest := TypeLine(it), TypeLine(it)[|TypeName()|..];
    assert rest == " " + it.contentType;
    assert rest[1..] == it.contentType;
    assert TrimLeft(rest) == it.contentType;
  }

  lemma TypeHeadMatches()
    ensures StartsWithNoCase(TypeHead(), TypeName())
    ensures |TypeHead()| == 14 && |TypeName()| == 13 && TypeHead()[13] == ' '
  {
  }

  // ----- how far a parse has come -----

  /** What is still to be read: everything, the headers of item k from some line on, the rest of
      its content, what follows a boundary, or nothing. */
  datatype Stage = Start | Head(k: nat, lines: nat) | Content(k: nat, done: nat) | Next(k: nat) | Finished

  predicate InRange(st: Stage, items: seq<Item>) {
    match st
    case Head(k, lines) => k < |items| && lines <= 2
    case Content(k, done) => k < |items| && done <= |items[k].content|
    case Next(k) => k <= |items|
    case _ => true
  }

  function Rest(items: seq<Item>, k: nat, boundary: string): string
    requires k < |items|
  {
    Delimiter(boundary) + Tail(items[k + 1..], boundary)
  }

  function Remaining(st: Stage, items: seq<Item>, boundary: string): string
    requires InRange(st, items)
  {
    match st
    case Start => "--" + boundary + Tail(items, boundary)
    case Head(k, lines) => Headers(items[k], lines) + (items[k].content + Rest(items, k, boundary))
    case Content(k, done) => items[k].content[done..] + Rest(items, k, boundary)
    case Next(k) => Tail(items[k..], boundary)
    case Finished => ""
  }

  /** The item as far as it has been read. */
  function Partial(it: Item, lines: nat): Item {
    Item(if lines >= 1 then it.name else "", if lines >= 1 then it.filename else "",
         if lines >= 2 then it.contentType else "", "")
  }

  predicate At(p: Parser, st: Stage, items: seq<Item>)
    requires InRange(st, items)
  {
    match st
    case Start => p.state == Initial && p.items == [] && !p.valid
    case Head(k, lines) =>
      && p.items == items[..k] && !p.valid
      && ((p.state == Entry && lines == 0) || (p.state == InHeaders && p.file == Partial(items[k], lines)))
    case Content(k, done) =>
      p.state == Body && !p.valid && p.items == items[..k] + [items[k].(content := items[k].content[..done])]
    case Next(k) => p.state == Boundary && !p.valid && p.items == items[..k]
    case Finished => p.state == Boundary && p.valid && p.items == items
  }

  /** The parser holds the front of what remains, and rest is still to come. */
  predicate Holding(p: Parser, st: Stage, items: seq<Item>, boundary: string, rest: string) {
    InRange(st, items) && At(p, st, items) && p.buf + rest == Remaining(st, items, boundary)
  }

  // ----- the header block -----

  function CurrentLine(it: Item, lines: nat): string {
    if lines == 0 then DispositionLine(it) else if lines == 1 && it.contentType != "" then TypeLine(it) else ""
  }

  lemma HeadersSplit(it: Item, lines: nat)
    requires lines <= 2
    ensures Headers(it, lines) == CurrentLine(it, lines) + CRLF() + if CurrentLine(it, lines) == "" then "" else Headers(it, lines + 1)
    ensures CurrentLine(it, lines) == "" <==> lines == 2 || (lines == 1 && it.contentType == "")
  {
    hide DispositionHead, TypeHead;
    assert DispositionLine(it) != "" && TypeLine(it) != "" by {
      HeadsNotEmpty();
    }
  }

  lemma HeadsNotEmpty()
    ensures DispositionHead() != "" && TypeHead() != ""
  {
  }

  lemma HeadsHaveNoReturn()
    ensures '\r' !in DispositionHead() && '\r' !in FilenameHead() && '\r' !in TypeHead()
  {
  }

  lemma LineFree(it: Item, lines: nat, boundary: string)
    requires GoodItem(it, boundary)
    ensures !Occurs(CurrentLine(it, lines), CRLF()) && |CurrentLine(it, lines)| < HEADER_MAX_LENGTH
  {
    HeadsHaveNoReturn();
    hide DispositionHead, FilenameHead, TypeHead;
    var line := CurrentLine(it, lines);
    if lines == 1 && it.contentType != "" {
      forall i | 0 <= i <= |line|
        ensures !(CRLF() <= line[i..])
      {
        if i < |TypeHead()| {
          assert line[i..][0] == TypeHead()[i];
        } else {
          assert line[i..] == it.contentType[i - |TypeHead()|..];
        }
      }
    } else {
      CharFree(line, CRLF());
    }
  }

  /** The parser after reading one whole header line. */
  function AfterLine(p: Parser, it: Item, lines: nat): Parser
    requires |CurrentLine(it, lines)| + 2 <= |p.buf|
  {
    p.(file := Partial(it, lines + 1), buf := p.buf[|CurrentLine(it, lines)| + 2..])
  }

  lemma LineRead(it: Item, lines: nat, boundary: string)
    requires GoodItem(it, boundary) && lines < 2 && CurrentLine(it, lines) != ""
    ensures ReadLine(Partial(it, lines), CurrentLine(it, lines)) == Known(Partial(it, lines + 1))
  {
    if lines == 0 {
      DispositionReadsBack(it);
    } else {
      TypeReadsBack(it);
    }
    hide Trim, Disposition, StartsWithNoCase, TypeLine, DispositionLine, TypeName, PlainName, Occurs;
  }

  /** HeaderLines takes a whole line off and records it. */
  lemma LineTaken(p: Parser, it: Item, lines: nat, boundary: string, limit: nat)
    requires GoodItem(it, boundary) && lines < 2 && CurrentLine(it, lines) != "" && p.file == Partial(it, lines)
    requires CurrentLine(it, lines) <= p.buf && Find(p.buf, CRLF()) == |CurrentLine(it, lines)| <= |p.buf| - 2
    ensures HeaderLines(p, limit) == HeaderLines(AfterLine(p, it, lines), limit)
  {
    assert AfterLine(p, it, lines) == p.(file := Partial(it, lines + 1), buf := p.buf[|CurrentLine(it, lines)| + 2..]);
    hide *;
    LineRead(it, lines, boundary);
    assert p.buf[..|CurrentLine(it, lines)|] == CurrentLine(it, lines);
    KnownLine(p, limit, Partial(it, lines + 1));
  }

  lemma KnownLine(p: Parser, limit: nat, f: Item)
    requires 0 < Find(p.buf, CRLF()) <= |p.buf| - 2 && ReadLine(p.file, p.buf[..Find(p.buf, CRLF())]) == Known(f)
    ensures HeaderLines(p, limit) == HeaderLines(p.(file := f, buf := p.buf[Find(p.buf, CRLF()) + 2..]), limit)
  {
    hide CRLF, Find, ReadLine;
  }

  lemma NoWholeLine(p: Parser, limit: nat)
    requires Find(p.buf, CRLF()) == |p.buf|
    ensures HeaderLines(p, limit) == Outcome(p, true)
  {
  }

  /** The empty line hands the item to the receiver. */
  lemma EmptyLine(p: Parser, limit: nat)
    requires Find(p.buf, CRLF()) == 0 < |p.buf| - 1
    ensures HeaderLines(p, limit) ==
      if |p.items| == limit then Outcome(p.(valid := false), false)
      else Outcome(p.(items := p.items + [p.file], buf := p.buf[2..], state := Body), true)
  {
  }

  lemma HeadersDone(p: Parser, k: nat, lines: nat, items: seq<Item>, limit: nat)
    requires InRange(Head(k, lines), items) && At(p, Head(k, lines), items) && p.state == InHeaders
    requires CurrentLine(items[k], lines) == "" && Find(p.buf, CRLF()) == 0 < |p.buf| - 1
    ensures var o := HeaderLines(p, limit);
      && (o.ok <==> k != limit) && !o.parser.valid
      && (o.ok ==> At(o.parser, Content(k, 0), items) && o.parser.buf == p.buf[2..])
  {
    EmptyLine(p, limit);
    HeadsNotEmpty();
    hide HeaderLines, Find, DispositionHead, TypeHead, FilenameHead;
    assert items[k].content[..0] == "";
  }

  /** What follows the current line. */
  function More(items: seq<Item>, k: nat, lines: nat, boundary: string): string
    requires k < |items| && lines <= 2
  {
    (if CurrentLine(items[k], lines) == "" then "" else Headers(items[k], lines + 1)) + (items[k].content + Rest(items, k, boundary))
  }

  /** The parser sees the current line whole, or no line end at all. */
  lemma LineInSight(buf: string, rest: string, items: seq<Item>, k: nat, lines: nat, boundary: string)
    requires Good(items, boundary) && k < |items| && lines <= 2
    requires buf + rest == Remaining(Head(k, lines), items, boundary)
    ensures var line := CurrentLine(items[k], lines);
      && Find(buf, CRLF()) == (if |line| + 2 <= |buf| then |line| else |buf|)
      && |line| < HEADER_MAX_LENGTH
      && (|line| + 2 <= |buf| ==> line <= buf && buf[|line| + 2..] + rest == More(items, k, lines, boundary))
      && (|line| + 2 > |buf| ==> rest != "")
  {
    var it, line, more := items[k], CurrentLine(items[k], lines), More(items, k, lines, boundary);
    LineFree(it, lines, boundary);
    LineFirst(items, k, lines, boundary);
    CRLFShape();
    hide *;
    FindInFront(line, CRLF(), more, buf);
    if |line| + 2 <= |buf| {
      assert |line + CRLF()| == |line| + 2;
      CutFront(buf, rest, line + CRLF(), more);
    } else {
      assert |buf + rest| == |line| + 2 + |more|;
    }
  }

  lemma CRLFShape()
    ensures |CRLF()| == 2 && Unbordered(CRLF())
  {
  }

  lemma LineFirst(items: seq<Item>, k: nat, lines: nat, boundary: string)
    requires k < |items| && lines <= 2
    ensures Remaining(Head(k, lines), items, boundary) == CurrentLine(items[k], lines) + CRLF() + More(items, k, lines, boundary)
  {
    var it, line := items[k], CurrentLine(items[k], lines);
    HeadersSplit(it, lines);
    Regrouped(line, CRLF(), if line == "" then "" else Headers(it, lines + 1), it.content + Rest(items, k, boundary));
    hide CurrentLine, Headers, CRLF, Rest;
  }

  lemma Regrouped(a: string, b: string, c: string, d: string)
    ensures a + b + c + d == a + b + (c + d)
  {
  }

  lemma LineGone(p: Parser, k: nat, lines: nat, items: seq<Item>, boundary: string, rest: string)
    requires InRange(Head(k, lines), items) && At(p, Head(k, lines), items) && p.state == InHeaders
    requires var line := CurrentLine(items[k], lines);
      && line != "" && |line| + 2 <= |p.buf| && p.buf[|line| + 2..] + rest == More(items, k, lines, boundary)
    ensures Holding(AfterLine(p, items[k], lines), Head(k, lines + 1), items, boundary, rest)
    ensures lines < 2
  {
  }

  lemma ContentNext(p: Parser, k: nat, lines: nat, items: seq<Item>, boundary: string, rest: string)
    requires InRange(Head(k, lines), items) && At(p, Content(k, 0), items) && CurrentLine(items[k], lines) == ""
    requires p.buf + rest == More(items, k, lines, boundary)
    ensures Holding(p, Content(k, 0), items, boundary, rest)
  {
    assert items[k].content[0..] == items[k].content;
  }

  lemma {:induction false} HeaderLinesKeep(p: Parser, k: nat, lines: nat, items: seq<Item>, boundary: string, rest: string, limit: nat)
      returns (st: Stage)
    requires Good(items, boundary) && Holding(p, Head(k, lines), items, boundary, rest) && p.state == InHeaders
    ensures var o := HeaderLines(p, limit);
      && (o.ok <==> st.Head? || k != limit) && !o.parser.valid
      && (o.ok ==> Holding(o.parser, st, items, boundary, rest))
      && (st.Head? ==> o.parser.state == InHeaders && rest != "" && st.k == k)
      && (!st.Head? ==> st == Content(k, 0))
    decreases 2 - lines
  {
    var line := CurrentLine(items[k], lines);
    LineInSight(p.buf, rest, items, k, lines, boundary);
    hide CurrentLine, GoodItem, HeaderLines, Find, Partial, More, Remaining;
    if |line| + 2 > |p.buf| {
      NoWholeLine(p, limit);
      st := Head(k, lines);
    } else if line == "" {
      HeadersDone(p, k, lines, items, limit);
      st := Content(k, 0);
      if k != limit {
        ContentNext(HeaderLines(p, limit).parser, k, lines, items, boundary, rest);
      }
    } else {
      LineGone(p, k, lines, items, boundary, rest);
      LineTaken(p, items[k], lines, boundary, limit);
      st := HeaderLinesKeep(AfterLine(p, items[k], lines), k, lines + 1, items, boundary, rest, limit);
    }
  }

  lemma CutFront(buf: string, rest: string, front: string, more: string)
    requires buf + rest == front + more && |front| <= |buf|
    ensures buf[..|front|] == front && buf[|front|..] + rest == more
  {
    assert (buf + rest)[..|front|] == front;
    assert (buf + rest)[|front|..] == more;
  }

  // ----- one turn of the loop -----

  lemma RunEmpty(p: Parser, boundary: string, limit: nat)
    requires p.buf == ""
    ensures Run(p, boundary, limit) == Outcome(p, true)
  {
  }

  lemma RunInitial(p: Parser, boundary: string, limit: nat)
    requires p.state == Initial && Opening(boundary) <= p.buf
    ensures Run(p, boundary, limit) == Run(p.(buf := p.buf[|Opening(boundary)|..], state := Entry), boundary, limit)
  {
    assert p.buf[0..] == p.buf;
    assert Find(p.buf, Opening(boundary)) == 0;
    hide Find, HeaderLines;
  }

  lemma RunEntry(p: Parser, boundary: string, limit: nat)
    requires p.state == Entry && p.buf != ""
    ensures Run(p, boundary, limit) == Run(p.(file := NoFile(), state := InHeaders), boundary, limit)
  {
    hide Find, HeaderLines;
  }

  lemma RunHeaders(p: Parser, boundary: string, limit: nat)
    requires p.state == InHeaders && p.buf != "" && Find(p.buf, CRLF()) <= HEADER_MAX_LENGTH
    ensures var o := HeaderLines(p, limit);
      Run(p, boundary, limit) == if o.ok && o.parser.state == Body then Run(o.parser, boundary, limit) else o
  {
    hide Find, HeaderLines;
  }

  /** The parser once the rest of a content, and once all but the last bytes of the buffer, have
      gone to the receiver. */
  function BodyEnd(p: Parser, pos: nat, boundary: string): Parser
    requires pos + |Delimiter(boundary)| <= |p.buf|
  {
    p.(items := AppendContent(p.items, p.buf[..pos]), buf := p.buf[pos + |Delimiter(boundary)|..], state := Boundary)
  }

  function BodyHeld(p: Parser, boundary: string): Parser
    requires |Delimiter(boundary)| <= |p.buf|
  {
    var len := |p.buf| - |Delimiter(boundary)|;
    p.(items := AppendContent(p.items, p.buf[..len]), buf := p.buf[len..])
  }

  lemma RunBody(p: Parser, boundary: string, limit: nat)
    requires p.state == Body && p.buf != ""
    ensures var pos, d := Find(p.buf, Delimiter(boundary)), |Delimiter(boundary)|;
      Run(p, boundary, limit) ==
        if d > |p.buf| then Outcome(p, true)
        else if pos < |p.buf| then Run(BodyEnd(p, pos, boundary), boundary, limit)
        else Outcome(BodyHeld(p, boundary), true)
  {
    hide Find, HeaderLines, AppendContent, Delimiter;
  }

  lemma RunBoundary(p: Parser, boundary: string, limit: nat)
    requires p.state == Boundary && p.buf != ""
    ensures Run(p, boundary, limit) ==
      if 2 > |p.buf| then Outcome(p, true)
      else if CRLF() <= p.buf then Run(p.(buf := p.buf[2..], state := Entry), boundary, limit)
      else if "--\r\n" <= p.buf then Outcome(p.(valid := true, buf := ""), true)
      else Outcome(p, true)
  {
    hide Find, HeaderLines, AppendContent, CRLF;
  }

  // ----- what each turn does to the stage -----

  lemma TailSplit(items: seq<Item>, k: nat, boundary: string)
    requires k < |items|
    ensures Remaining(Next(k), items, boundary) == CRLF() + Remaining(Head(k, 0), items, boundary)
  {
    var it, rest := items[k], Rest(items, k, boundary);
    assert items[k..][0] == it && items[k..][1..] == items[k + 1..];
    hide Headers, CRLF, Delimiter;
    Regrouped(CRLF(), Headers(it, 0), it.content, rest);
    assert it.content + Delimiter(boundary) + Tail(items[k + 1..], boundary) == it.content + rest;
    assert CRLF() + Headers(it, 0) + (it.content + rest) == CRLF() + (Headers(it, 0) + (it.content + rest));
  }

  lemma StartSplit(items: seq<Item>, boundary: string)
    requires items != []
    ensures Remaining(Start, items, boundary) == Opening(boundary) + Remaining(Head(0, 0), items, boundary)
  {
    TailSplit(items, 0, boundary);
    assert items[0..] == items;
    hide Headers, CRLF, Delimiter, Tail;
  }

  lemma StartTurn(p: Parser, items: seq<Item>, boundary: string, rest: string)
    requires Holding(p, Start, items, boundary, rest) && |p.buf| >= |Opening(boundary)| && items != []
    ensures Opening(boundary) <= p.buf
    ensures Holding(p.(buf := p.buf[|Opening(boundary)|..], state := Entry), Head(0, 0), items, boundary, rest)
  {
    StartSplit(items, boundary);
    hide Remaining, Opening;
    CutFront(p.buf, rest, Opening(boundary), Remaining(Head(0, 0), items, boundary));
  }

  lemma BodyFound(p: Parser, k: nat, done: nat, items: seq<Item>, boundary: string, rest: string)
    requires Holding(p, Content(k, done), items, boundary, rest)
    requires |items[k].content| - done + |Delimiter(boundary)| <= |p.buf|
    ensures var pos := |items[k].content| - done;
      Holding(BodyEnd(p, pos, boundary), Next(k + 1), items, boundary, rest)
  {
    var left, tail := items[k].content[done..], Tail(items[k + 1..], boundary);
    ContentWhole(items, k, done);
    hide Delimiter, Tail, AppendContent;
    BodyCut(p.buf, rest, left, Delimiter(boundary), tail);
  }

  lemma BodyCut(buf: string, rest: string, left: string, d: string, tail: string)
    requires buf + rest == left + (d + tail) && |left| + |d| <= |buf|
    ensures buf[..|left|] == left && buf[|left| + |d|..] + rest == tail
  {
    assert left + (d + tail) == (left + d) + tail;
    CutFront(buf, rest, left + d, tail);
    assert buf[..|left|] == (left + d)[..|left|];
  }

  lemma ContentWhole(items: seq<Item>, k: nat, done: nat)
    requires k < |items| && done <= |items[k].content|
    ensures AppendContent(items[..k] + [items[k].(content := items[k].content[..done])], items[k].content[done..]) == items[..k + 1]
  {
    assert items[k].content[..done] + items[k].content[done..] == items[k].content;
  }

  lemma BodyNotFound(p: Parser, k: nat, done: nat, items: seq<Item>, boundary: string, rest: string)
    requires Holding(p, Content(k, done), items, boundary, rest)
    requires |Delimiter(boundary)| <= |p.buf| < |items[k].content| - done + |Delimiter(boundary)|
    ensures var len := |p.buf| - |Delimiter(boundary)|;
      Holding(BodyHeld(p, boundary), Content(k, done + len), items, boundary, rest)
  {
    var len, c := |p.buf| - |Delimiter(boundary)|, items[k].content;
    hide Delimiter, Tail, Rest;
    assert c[done..] + Rest(items, k, boundary) == c[done..done + len] + (c[done + len..] + Rest(items, k, boundary));
    CutFront(p.buf, rest, c[done..done + len], c[done + len..] + Rest(items, k, boundary));
    assert c[..done] + c[done..done + len] == c[..done + len];
  }

  lemma TailTurn(p: Parser, k: nat, items: seq<Item>, boundary: string, rest: string)
    requires Holding(p, Next(k), items, boundary, rest) && k < |items| && |p.buf| >= 2
    ensures CRLF() <= p.buf
    ensures Holding(p.(buf := p.buf[2..], state := Entry), Head(k, 0), items, boundary, rest)
  {
    TailSplit(items, k, boundary);
    CRLFShape();
    hide Remaining, CRLF;
    CutFront(p.buf, rest, CRLF(), Remaining(Head(k, 0), items, boundary));
  }

  lemma LastTurn(p: Parser, items: seq<Item>, boundary: string, rest: string)
    requires Holding(p, Next(|items|), items, boundary, rest) && p.buf != ""
    ensures !(CRLF() <= p.buf) && ("--\r\n" <= p.buf <==> |p.buf| == 4) && |p.buf| + |rest| == 4
    ensures |p.buf| == 4 ==> Holding(p.(valid := true, buf := ""), Finished, items, boundary, rest)
  {
    assert p.buf + rest == "--\r\n";
    assert (p.buf + rest)[0] == '-' && items[|items|..] == [];
  }

  lemma TailLength(items: seq<Item>, k: nat, boundary: string)
    requires k <= |items|
    ensures |Remaining(Next(k), items, boundary)| >= 4
  {
    hide Headers;
    if k < |items| {
      assert |Rest(items, k, boundary)| >= 4;
    }
  }

  // ----- the whole loop -----

  lemma RemainingNotEmpty(st: Stage, items: seq<Item>, boundary: string)
    requires InRange(st, items) && !st.Finished?
    ensures Remaining(st, items, boundary) != ""
  {
    match st
    case Next(k) => TailLength(items, k, boundary);
    case Head(k, _) => assert |Rest(items, k, boundary)| >= 4;
    case Content(k, _) => assert |Rest(items, k, boundary)| >= 4;
    case Start =>
  }

  /** How a run ends: holding the front of what remains, or refused because a receiver that takes
      limit items was given another. */
  predicate Ends(o: Outcome, st: Stage, items: seq<Item>, boundary: string, rest: string, limit: nat) {
    if o.ok then
      && Holding(o.parser, st, items, boundary, rest) && |o.parser.items| <= limit
      && (st.Start? ==> o.parser.buf == "" && rest != "") && (rest == "" ==> st.Finished?)
    else !o.parser.valid && limit < |items|
  }

  /** What a run may start from. */
  predicate Starts(p: Parser, st: Stage, items: seq<Item>, boundary: string, rest: string, limit: nat) {
    && Good(items, boundary) && items != []
    && Holding(p, st, items, boundary, rest) && |p.items| <= limit
    && (st.Start? ==> (p.buf == "" && rest != "") || |p.buf| >= |Opening(boundary)|)
  }

  lemma NoInput(p: Parser, st: Stage, items: seq<Item>, boundary: string, rest: string, limit: nat)
    requires Starts(p, st, items, boundary, rest, limit) && p.buf == ""
    ensures Ends(Run(p, boundary, limit), st, items, boundary, rest, limit)
  {
    RunEmpty(p, boundary, limit);
    if !st.Finished? {
      RemainingNotEmpty(st, items, boundary);
    }
    hide Run, Remaining;
    assert p.buf + rest == rest;
  }

  lemma EntryTurn(p: Parser, st: Stage, items: seq<Item>, boundary: string, rest: string, limit: nat)
    requires Starts(p, st, items, boundary, rest, limit) && p.state == Entry && p.buf != ""
    ensures var q := p.(file := NoFile(), state := InHeaders);
      Starts(q, st, items, boundary, rest, limit) && Run(p, boundary, limit) == Run(q, boundary, limit)
  {
    RunEntry(p, boundary, limit);
    hide Run, Remaining, Good;
  }

  /** A turn in the header block ends the run or reaches the content. */
  lemma HeadersTurn(p: Parser, k: nat, lines: nat, items: seq<Item>, boundary: string, rest: string, limit: nat)
      returns (st: Stage)
    requires Starts(p, Head(k, lines), items, boundary, rest, limit) && p.state == InHeaders && p.buf != ""
    ensures !st.Start?
    ensures var o := HeaderLines(p, limit);
      if o.ok && st.Content? then
        && Run(p, boundary, limit) == Run(o.parser, boundary, limit)
        && Starts(o.parser, st, items, boundary, rest, limit) && |o.parser.buf| < |p.buf|
      else Ends(Run(p, boundary, limit), st, items, boundary, rest, limit)
  {
    LineInSight(p.buf, rest, items, k, lines, boundary);
    st := HeaderLinesKeep(p, k, lines, items, boundary, rest, limit);
    hide CurrentLine, More, Find, HeaderLines, Run, Remaining, Good;
    RunHeaders(p, boundary, limit);
  }

  lemma BodyInSight(p: Parser, k: nat, done: nat, items: seq<Item>, boundary: string, rest: string, limit: nat)
    requires Starts(p, Content(k, done), items, boundary, rest, limit)
    ensures Find(p.buf, Delimiter(boundary)) ==
      var left := |items[k].content| - done; if left + |Delimiter(boundary)| <= |p.buf| then left else |p.buf|
    ensures rest == "" ==> |items[k].content| - done + |Delimiter(boundary)| <= |p.buf|
  {
    var it, left, tail := items[k], items[k].content[done..], Tail(items[k + 1..], boundary);
    assert GoodItem(it, boundary);
    FreeSuffix(it.content, Delimiter(boundary), done);
    assert Unbordered(Delimiter(boundary)) by {
      DelimiterShape(boundary);
    }
    hide Delimiter, Tail, Find, Good, GoodItem, Occurs;
    assert left + (Delimiter(boundary) + tail) == left + Delimiter(boundary) + tail;
    assert rest == "" ==> |p.buf| == |p.buf + rest|;
    FindInFront(left, Delimiter(boundary), tail, p.buf);
  }

  lemma DelimiterShape(boundary: string)
    requires '\r' !in boundary
    ensures Delimiter(boundary)[0] == '\r' && Unbordered(Delimiter(boundary))
  {
    assert Delimiter(boundary)[1..] == "\n--" + boundary;
  }

  /** A turn in the content that sees the next boundary. */
  lemma BodyTurn(p: Parser, k: nat, done: nat, items: seq<Item>, boundary: string, rest: string, limit: nat)
    requires Starts(p, Content(k, done), items, boundary, rest, limit) && p.buf != ""
    requires |items[k].content| - done + |Delimiter(boundary)| <= |p.buf|
    ensures var q := BodyEnd(p, |items[k].content| - done, boundary);
      && Run(p, boundary, limit) == Run(q, boundary, limit)
      && Starts(q, Next(k + 1), items, boundary, rest, limit) && |q.buf| < |p.buf|
  {
    assert Holding(p, Content(k, done), items, boundary, rest) && p.state == Body && k < |items|;
    hide *;
    RunBody(p, boundary, limit);
    BodyInSight(p, k, done, items, boundary, rest, limit);
    BodyFound(p, k, done, items, boundary, rest);
    SameCount(p, |items[k].content| - done, boundary);
    StaysStarted(p, Content(k, done), BodyEnd(p, |items[k].content| - done, boundary), Next(k + 1), items, boundary, rest, limit);
  }

  /** A turn in the content that does not. */
  lemma BodyWaits(p: Parser, k: nat, done: nat, items: seq<Item>, boundary: string, rest: string, limit: nat)
      returns (st: Stage)
    requires Starts(p, Content(k, done), items, boundary, rest, limit) && p.buf != ""
    requires |items[k].content| - done + |Delimiter(boundary)| > |p.buf|
    ensures !st.Start?
    ensures Ends(Run(p, boundary, limit), st, items, boundary, rest, limit)
  {
    assert Holding(p, Content(k, done), items, boundary, rest) && p.state == Body && k < |items|;
    hide *;
    RunBody(p, boundary, limit);
    BodyInSight(p, k, done, items, boundary, rest, limit);
    st := Content(k, done);
    if |Delimiter(boundary)| <= |p.buf| {
      BodyNotFound(p, k, done, items, boundary, rest);
      st := Content(k, done + (|p.buf| - |Delimiter(boundary)|));
      SameCount(p, 0, boundary);
      StaysStarted(p, Content(k, done), BodyHeld(p, boundary), st, items, boundary, rest, limit);
      EndsHere(BodyHeld(p, boundary), st, items, boundary, rest, limit);
    } else {
      EndsHere(p, st, items, boundary, rest, limit);
    }
  }

  lemma SameCount(p: Parser, pos: nat, boundary: string)
    requires pos + |Delimiter(boundary)| <= |p.buf|
    ensures |BodyEnd(p, pos, boundary).items| == |BodyHeld(p, boundary).items| == |p.items|
    ensures |BodyEnd(p, pos, boundary).buf| < |p.buf|
  {
  }

  lemma StaysStarted(p: Parser, st: Stage, q: Parser, st2: Stage, items: seq<Item>, boundary: string, rest: string, limit: nat)
    requires Starts(p, st, items, boundary, rest, limit) && Holding(q, st2, items, boundary, rest)
    requires |q.items| == |p.items| && !st2.Start?
    ensures Starts(q, st2, items, boundary, rest, limit)
  {
  }

  lemma EndsHere(p: Parser, st: Stage, items: seq<Item>, boundary: string, rest: string, limit: nat)
    requires Starts(p, st, items, boundary, rest, limit) && !st.Start? && rest != ""
    ensures Ends(Outcome(p, true), st, items, boundary, rest, limit)
  {
  }

  /** A turn after a boundary ends the run or starts the next item. */
  lemma BoundaryTurn(p: Parser, k: nat, items: seq<Item>, boundary: string, rest: string, limit: nat)
      returns (st: Stage, q: Parser)
    requires Starts(p, Next(k), items, boundary, rest, limit) && p.buf != ""
    ensures !st.Start?
    ensures
      if st.Head? then
        && Run(p, boundary, limit) == Run(q, boundary, limit)
        && Starts(q, st, items, boundary, rest, limit) && |q.buf| < |p.buf|
      else Ends(Run(p, boundary, limit), st, items, boundary, rest, limit)
  {
    RunBoundary(p, boundary, limit);
    TailLength(items, k, boundary);
    hide Run, Good, Remaining, CRLF;
    assert |p.buf + rest| == |p.buf| + |rest|;
    q, st := p, Next(k);
    if k == |items| {
      LastTurn(p, items, boundary, rest);
      if |p.buf| == 4 {
        st := Finished;
      }
    } else if 2 <= |p.buf| {
      TailTurn(p, k, items, boundary, rest);
      q, st := p.(buf := p.buf[2..], state := Entry), Head(k, 0);
    }
  }

  lemma {:induction false} RunKeeps(p: Parser, st: Stage, items: seq<Item>, boundary: string, rest: string, limit: nat)
      returns (end: Stage)
    requires Starts(p, st, items, boundary, rest, limit)
    ensures Ends(Run(p, boundary, limit), end, items, boundary, rest, limit)
    ensures end.Start? ==> st.Start? && p.buf == ""
    decreases |p.buf|, if p.state == Entry then 1 else 0
  {
    hide Run, Ends, Remaining, Good, Opening, Delimiter, CRLF, HeaderLines, Find;
    if p.buf == "" {
      NoInput(p, st, items, boundary, rest, limit);
      end := st;
    } else if st.Start? {
      StartTurn(p, items, boundary, rest);
      RunInitial(p, boundary, limit);
      end := RunKeeps(p.(buf := p.buf[|Opening(boundary)|..], state := Entry), Head(0, 0), items, boundary, rest, limit);
    } else if st.Head? && p.state == Entry {
      EntryTurn(p, st, items, boundary, rest, limit);
      end := RunKeeps(p.(file := NoFile(), state := InHeaders), st, items, boundary, rest, limit);
    } else if st.Head? {
      end := HeadersTurn(p, st.k, st.lines, items, boundary, rest, limit);
      if HeaderLines(p, limit).ok && end.Content? {
        end := RunKeeps(HeaderLines(p, limit).parser, end, items, boundary, rest, limit);
      }
    } else if st.Content? {
      if |items[st.k].content| - st.done + |Delimiter(boundary)| <= |p.buf| {
        BodyTurn(p, st.k, st.done, items, boundary, rest, limit);
        end := RunKeeps(BodyEnd(p, |items[st.k].content| - st.done, boundary), Next(st.k + 1), items, boundary, rest, limit);
      } else {
        end := BodyWaits(p, st.k, st.done, items, boundary, rest, limit);
      }
    } else {
      var k := if st.Next? then st.k else 0;
      FinishedIsEmpty(p, st, items, boundary, rest);
      var q;
      end, q := BoundaryTurn(p, k, items, boundary, rest, limit);
      if end.Head? {
        end := RunKeeps(q, end, items, boundary, rest, limit);
      }
    }
  }

  lemma FinishedIsEmpty(p: Parser, st: Stage, items: seq<Item>, boundary: string, rest: string)
    requires Holding(p, st, items, boundary, rest) && p.buf != ""
    ensures !st.Finished?
  {
    assert |p.buf + rest| > 0;
  }

  // ----- all the pieces -----

  /** The first piece that is not empty holds the whole opening boundary line. */
  predicate OpeningWhole(pieces: seq<string>, boundary: string) {
    pieces != [] && if pieces[0] == "" then OpeningWhole(pieces[1..], boundary) else |Opening(boundary)| <= |pieces[0]|
  }

  lemma {:induction false} FeedKeeps(p: Parser, st: Stage, pieces: seq<string>, items: seq<Item>, boundary: string, limit: nat)
    requires Good(items, boundary) && items != [] && Holding(p, st, items, boundary, Flat(pieces)) && |p.items| <= limit
    requires st.Start? ==> p.buf == "" && OpeningWhole(pieces, boundary)
    requires pieces == [] ==> st.Finished?
    ensures var o := Feed(p, pieces, boundary, limit);
      if o.ok then o.parser.valid && o.parser.items == items && |items| <= limit else !o.parser.valid && limit < |items|
    decreases |pieces|
  {
    if pieces != [] {
      var q, rest := p.(buf := p.buf + pieces[0]), Flat(pieces[1..]);
      assert p.buf + pieces[0] + rest == p.buf + (pieces[0] + rest);
      RemainingNotEmpty(Start, items, boundary);
      hide Run, Remaining, Good, Opening;
      var end := RunKeeps(q, st, items, boundary, rest, limit);
      var o := Run(q, boundary, limit);
      if o.ok {
        FeedKeeps(o.parser, end, pieces[1..], items, boundary, limit);
      }
    }
  }

  /** However the serialised items are cut into pieces, feeding them to a new parser gives back
      exactly the items, and a valid end, as long as the first piece holds the opening boundary
      line; a receiver that takes fewer items than there are makes the parse fail. */
  lemma StreamedRoundTrip(items: seq<Item>, boundary: string, pieces: seq<string>, limit: nat)
    requires Good(items, boundary) && items != []
    requires Flat(pieces) == Serialize(items, boundary) && OpeningWhole(pieces, boundary)
    ensures var o := Feed(NewParser(), pieces, boundary, limit);
      if |items| <= limit then o.ok && o.parser.valid && o.parser.items == items else !o.ok && !o.parser.valid
  {
    SerializeIsTail(items, boundary);
    hide Good, Serialize, Tail;
    FeedKeeps(NewParser(), Start, pieces, items, boundary, limit);
  }
}
