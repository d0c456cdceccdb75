/** The incremental multipart parser over a compacting buffer, and the serialiser's loop. */
module MultipartParser {
  import opened Multipart
  import opened MultipartRoundTrip

  class FormParser {
    const boundary: string
    const limit: nat
    var state: State
    var isValid: bool
    var file: Item
    var items: seq<Item>
    var buf: array<char>
    var spos: nat
    var epos: nat

    ghost predicate Valid()
      reads `spos, `epos, `buf
    {
      spos <= epos <= buf.Length
    }

    /** The bytes received and not yet consumed. */
    ghost function Pending(): (s: string)
      reads `spos, `epos, `buf, buf
      requires Valid()
      ensures |s| == epos - spos
    {
      buf[spos..epos]
    }

    ghost function Model(): (p: Parser)
      reads this, buf
      requires Valid()
      ensures p == Parser(state, file, items, isValid, Pending())
    {
      Parser(state, file, items, isValid, Pending())
    }

    constructor (boundary: string, limit: nat)
      ensures Valid() && fresh(buf) && Model() == NewParser()
      ensures this.boundary == boundary && this.limit == limit
    {
      this.boundary, this.limit := boundary, limit;
      state, isValid, file, items := Initial, false, NoFile(), [];
      buf := new char[0];
      spos, epos := 0, 0;
    }

    /** start_with: s stands at position at of the buffer. */
    method StandsAt(s: string, at: nat) returns (yes: bool)
      requires Valid() && spos <= at <= epos
      ensures yes <==> s <= buf[at..epos]
    {
      if epos - at < |s| {
        return false;
      }
      for i := 0 to |s|
        invariant s[..i] == buf[at..at + i]
      {
        if buf[at + i] != s[i] {
          assert buf[at..epos][i] != s[i];
          return false;
        }
        assert s[..i + 1] == s[..i] + [s[i]];
      }
      assert s[..|s|] == s && buf[at..epos][..|s|] == s;
      return true;
    }

    /** Nothing between spos and off. */
    ghost predicate NotBefore(s: string, off: nat)
      reads this, buf
      requires Valid()
    {
      spos <= off <= epos && forall i :: spos <= i < off ==> !(s <= buf[i..epos])
    }

    /** A search result in the terms of the whole buffer. */
    lemma FoundIs(s: string, off: nat)
      requires Valid() && s != "" && NotBefore(s, off) && (off < epos ==> s <= buf[off..epos])
      ensures Find(Pending(), s) == off - spos
    {
      forall i | spos <= i <= epos
        ensures Pending()[i - spos..] == buf[i..epos]
      {
      }
      hide Find;
      assert off < epos ==> s <= Pending()[off - spos..];
      var at := Find(Pending(), s);
      assert at < |Pending()| ==> Pending()[at..] == buf[spos + at..epos];
    }

    /** The next occurrence of s's first character. */
    method NextChar(s: string, off: nat) returns (pos: nat)
      requires Valid() && s != "" && off <= epos && NotBefore(s, off)
      ensures off <= pos <= epos && NotBefore(s, pos)
      ensures pos < epos ==> buf[pos] == s[0]
    {
      pos := off;
      while pos < epos && buf[pos] != s[0]
        invariant off <= pos <= epos && NotBefore(s, pos)
      {
        assert buf[pos..epos][0] != s[0];
        pos := pos + 1;
      }
    }

    lemma TooShort(s: string, pos: nat)
      requires Valid() && NotBefore(s, pos) && epos - pos < |s|
      ensures NotBefore(s, epos)
    {
    }

    /** buf_find. */
    method BufFind(s: string) returns (at: nat)
      requires Valid() && s != ""
      ensures at == Find(Pending(), s)
    {
      hide Find, Pending;
      var off := spos;
      while off < epos
        invariant NotBefore(s, off)
      {
        var pos := NextChar(s, off);
        if |s| > epos - pos {
          TooShort(s, pos);
          FoundIs(s, epos);
          return epos - spos;
        }
        var here := StandsAt(s, pos);
        if here {
          FoundIs(s, pos);
          return pos - spos;
        }
        off := pos + 1;
      }
      FoundIs(s, epos);
      return epos - spos;
    }

    /** Moves what is left of the buffer to its front. */
    method Compact()
      requires Valid()
      modifies this`spos, this`epos, buf
      ensures Valid() && spos == 0 && Pending() == old(Pending())
    {
      var size := epos - spos;
      if size > 0 && spos > 0 {
        var b, s := buf, spos;
        for i := 0 to size
          invariant Valid() && epos - spos == size && buf == b && spos == s
          invariant forall j :: 0 <= j < i ==> b[j] == old(buf[spos + j])
          invariant forall j :: i <= j < b.Length ==> b[j] == old(buf[j])
        {
          b[i] := b[s + i];
        }
      }
      spos, epos := 0, size;
    }

    /** buf_.resize. */
    method Grow(size: nat)
      requires Valid() && spos == 0
      modifies this`buf
      ensures Valid() && (buf == old(buf) || fresh(buf)) && size <= buf.Length && Pending() == old(Pending())
    {
      if size > buf.Length {
        var bigger := new char[size];
        var b, n := buf, epos;
        for i := 0 to n
          invariant bigger[..i] == b[..i]
        {
          bigger[i] := b[i];
        }
        buf := bigger;
        assert buf[..n] == b[..n];
      }
    }

    /** Copies data behind the bytes held. */
    method Fill(data: string)
      requires Valid() && spos == 0 && epos + |data| <= buf.Length
      modifies buf
      ensures buf[..epos + |data|] == old(buf[..epos]) + data
    {
      var b, n := buf, epos;
      for i := 0 to |data|
        invariant b[..n] == old(b[..n]) && b[n..n + i] == data[..i]
      {
        b[n + i] := data[i];
        assert data[..i + 1] == data[..i] + [data[i]];
      }
      assert data[..|data|] == data;
      assert b[..n + |data|] == b[..n] + b[n..n + |data|];
    }

    /** buf_append. */
    method BufAppend(data: string)
      requires Valid()
      modifies this`spos, this`epos, this`buf, buf
      ensures Valid() && (buf == old(buf) || fresh(buf))
      ensures Pending() == old(Pending()) + data
    {
      Compact();
      Grow(epos + |data|);
      Fill(data);
      epos := epos + |data|;
    }

    /** buf_erase. */
    method Erase(n: nat)
      requires Valid() && n <= epos - spos
      modifies this`spos
      ensures Valid() && Model() == old(Model()).(buf := old(Pending())[n..])
    {
      spos := spos + n;
    }

    /** buf_head. */
    method Head(n: nat) returns (s: string)
      requires Valid() && n <= epos - spos
      ensures s == Pending()[..n]
    {
      s := buf[spos..spos + n];
    }

    method StartsWith(s: string) returns (yes: bool)
      requires Valid()
      ensures yes <==> s <= Pending()
    {
      yes := StandsAt(s, spos);
    }

    /** One header line, recorded in the file description; isValid falls when it is not understood. */
    method TakeLine(header: string) returns (ok: bool)
      requires Valid()
      modifies this`file, this`isValid
      ensures var line := ReadLine(old(file), header);
        && (ok <==> line != Unknown)
        && file == (if ok then line.file else old(file)) && isValid == (ok && old(isValid))
    {
      var isType := HasPrefixNoCase(header, TypeName());
      if isType {
        var t := TrimCopy(header[|TypeName()|..]);
        file := file.(contentType := t);
        return true;
      }
      var fields := Disposition(header);
      if fields == [] {
        isValid := false;
        return false;
      }
      file := file.(name := fields[0], filename := fields[1]);
      return true;
    }

    /** The empty line: the item goes to the receiver. */
    method Deliver() returns (ok: bool)
      requires Valid() && CRLF() <= Pending()
      modifies this`isValid, this`items, this`state, this`spos
      ensures Valid() && Outcome(Model(), ok) == HeaderLines(old(Model()), limit)
    {
      CRLFShape();
      FindAtFront(Pending(), CRLF());
      EmptyLine(Model(), limit);
      hide *;
      if |items| == limit {
        isValid := false;
        return false;
      }
      items := items + [file];
      state := Body;
      Erase(2);
      return true;
    }

    /** One header line that is not empty. */
    method TakeHeader(pos: nat) returns (ok: bool)
      requires Valid() && 0 < pos == Find(Pending(), CRLF()) < |Pending()|
      modifies this`file, this`isValid, this`spos
      ensures Valid() && (ok ==> spos > old(spos))
      ensures HeaderLines(old(Model()), limit) == if ok then HeaderLines(Model(), limit) else Outcome(Model(), false)
    {
      CRLFShape();
      hide *;
      NextLine(Model(), limit);
      var header := Head(pos);
      ok := TakeLine(header);
      if ok {
        Erase(pos + 2);
      }
    }

    /** The header loop: whole lines, up to the empty one. */
    method ReadHeaders() returns (ok: bool)
      requires Valid()
      modifies this`file, this`isValid, this`items, this`state, this`spos
      ensures Valid() && Outcome(Model(), ok) == HeaderLines(old(Model()), limit)
    {
      CRLFShape();
      hide *;
      ghost var m := Model();
      var pos := BufFind(CRLF());
      while pos < epos - spos
        invariant Valid() && pos == Find(Pending(), CRLF())
        invariant HeaderLines(Model(), limit) == HeaderLines(m, limit)
        decreases epos - spos
      {
        if pos == 0 {
          assert Pending()[0..] == Pending();
          ok := Deliver();
          return;
        }
        ok := TakeHeader(pos);
        if !ok {
          return;
        }
        pos := BufFind(CRLF());
      }
      NoWholeLine(Model(), limit);
      return true;
    }

    /** What one turn of parse's loop does: it ends the call, or leaves less to do with the same
        outcome. */
    twostate predicate Turned(done: bool, ok: bool)
      requires old(Valid())
      reads this, buf
    {
      && Valid() && buf == old(buf) && epos == old(epos)
      && if done then Outcome(Model(), ok) == Run(old(Model()), boundary, limit)
         else
           && Run(Model(), boundary, limit) == Run(old(Model()), boundary, limit)
           && spos >= old(spos) && (spos == old(spos) ==> old(state) == Entry && state != Entry)
    }

    /** Case 0: drops everything before the opening boundary line, and the line itself. */
    method TurnInitial() returns (done: bool, ok: bool)
      requires Valid() && state == Initial && spos < epos
      modifies this`spos, this`state
      ensures Turned(done, ok)
    {
      hide Run, Model, Pending, Opening, Find, Valid, CRLF, HeaderLines, AppendContent, Delimiter;
      InitialCase(Model(), boundary, limit);
      var at := BufFind(Opening(boundary));
      Erase(at);
      if |Opening(boundary)| > epos - spos {
        return true, true;
      }
      var here := StartsWith(Opening(boundary));
      if !here {
        return true, false;
      }
      Erase(|Opening(boundary)|);
      state := Entry;
      return false, true;
    }

    /** Case 1: a new entry has no name yet. */
    method TurnEntry() returns (done: bool, ok: bool)
      requires Valid() && state == Entry && spos < epos
      modifies this`file, this`state
      ensures Turned(done, ok)
    {
      hide Run, Model, Pending, HeaderLines, Find, CRLF, AppendContent, Delimiter;
      RunEntry(Model(), boundary, limit);
      file := NoFile();
      state := InHeaders;
      return false, true;
    }

    /** Case 2: the header lines. */
    method TurnHeaders() returns (done: bool, ok: bool)
      requires Valid() && state == InHeaders && spos < epos
      modifies this`file, this`isValid, this`items, this`state, this`spos
      ensures Turned(done, ok)
    {
      hide Run, Model, Pending, HeaderLines, Valid, Find, CRLF, AppendContent, Delimiter, Unbordered;
      HeadersCase(Model(), boundary, limit);
      CRLFShape();
      var pos := BufFind(CRLF());
      if pos > HEADER_MAX_LENGTH {
        return true, false;
      }
      ok := ReadHeaders();
      done := !ok || state != Body;
    }

    /** The content callback, appending to the item last delivered. */
    method Receive(n: nat)
      requires Valid() && n <= epos - spos
      modifies this`items
      ensures Valid() && items == AppendContent(old(items), Pending()[..n])
    {
      if items != [] {
        var data := Head(n);
        var last := items[|items| - 1];
        items := items[..|items| - 1] + [last.(content := last.content + data)];
      }
    }

    /** Hands n bytes to the receiver and drops them with what follows them. */
    method PassOn(n: nat, drop: nat)
      requires Valid() && n <= drop <= epos - spos
      modifies this`items, this`spos
      ensures Valid() && spos == old(spos) + drop
      ensures Model() == old(Model()).(items := AppendContent(old(items), old(Pending())[..n]), buf := old(Pending())[drop..])
    {
      hide AppendContent, Pending, Model;
      Receive(n);
      Erase(drop);
    }

    /** The content ends in the buffer. */
    method EndBody(pos: nat)
      requires Valid() && state == Body && pos + |Delimiter(boundary)| <= |Pending()|
      modifies this`items, this`state, this`spos
      ensures Valid() && spos > old(spos) && Model() == BodyEnd(old(Model()), pos, boundary)
    {
      hide AppendContent, Pending, Model, Delimiter;
      PassOn(pos, pos + |Delimiter(boundary)|);
      state := Boundary;
    }

    /** The content goes on: the last bytes are kept back. */
    method HoldBody()
      requires Valid() && state == Body && |Delimiter(boundary)| <= |Pending()|
      modifies this`items, this`spos
      ensures Valid() && spos >= old(spos) && Model() == BodyHeld(old(Model()), boundary)
    {
      var len := epos - spos - |Delimiter(boundary)|;
      hide AppendContent, Pending, Model, Delimiter;
      if len > 0 {
        PassOn(len, len);
      } else {
        NothingHeld(Model(), boundary);
      }
    }

    /** Case 3: content up to the next boundary, or all of it that cannot be part of one. */
    method TurnBody() returns (done: bool, ok: bool)
      requires Valid() && state == Body && spos < epos
      modifies this`items, this`state, this`spos
      ensures Turned(done, ok)
    {
      hide Run, Model, Pending, Find, Delimiter, AppendContent, Valid, HeaderLines, BodyEnd, BodyHeld;
      RunBody(Model(), boundary, limit);
      if |Delimiter(boundary)| > epos - spos {
        return true, true;
      }
      var pos := BufFind(Delimiter(boundary));
      if pos < epos - spos {
        FoundFits(Pending(), Delimiter(boundary));
        EndBody(pos);
        return false, true;
      }
      HoldBody();
      return true, true;
    }

    /** Case 4: after a boundary comes another entry or the end; what follows the end is dropped. */
    method TurnBoundary() returns (done: bool, ok: bool)
      requires Valid() && state == Boundary && spos < epos
      modifies this`isValid, this`state, this`spos
      ensures Turned(done, ok)
    {
      hide Run, Model, Pending, HeaderLines, Valid, Find, CRLF, AppendContent, Delimiter;
      RunBoundary(Model(), boundary, limit);
      CRLFShape();
      if 2 > epos - spos {
        return true, true;
      }
      var next := StartsWith(CRLF());
      if next {
        Erase(2);
        state := Entry;
        return false, true;
      }
      if 4 > epos - spos {
        ShortTail(Pending());
        return true, true;
      }
      var last := StartsWith("--\r\n");
      if last {
        Erase(4);
        isValid := true;
        Erase(epos - spos);
        return true, true;
      }
      return true, true;
    }

    method Turn() returns (done: bool, ok: bool)
      requires Valid() && spos < epos
      modifies this`file, this`isValid, this`items, this`state, this`spos
      ensures Turned(done, ok)
    {
      hide *;
      if state == Initial {
        done, ok := TurnInitial();
      } else if state == Entry {
        done, ok := TurnEntry();
      } else if state == InHeaders {
        done, ok := TurnHeaders();
      } else if state == Body {
        done, ok := TurnBody();
      } else {
        done, ok := TurnBoundary();
      }
    }

    /** The loop of parse. */
    method RunLoop() returns (ok: bool)
      requires Valid()
      modifies this`file, this`isValid, this`items, this`state, this`spos
      ensures Valid() && Outcome(Model(), ok) == Run(old(Model()), boundary, limit)
    {
      hide Run, Model, Pending;
      ghost var m := Model();
      while epos > spos
        invariant Valid() && epos == old(epos) && buf == old(buf)
        invariant Run(Model(), boundary, limit) == Run(m, boundary, limit)
        decreases epos - spos, if state == Entry then 1 else 0
      {
        var done;
        done, ok := Turn();
        if done {
          return;
        }
      }
      RunEmpty(Model(), boundary, limit);
      return true;
    }

    /** parse: one more piece of input. */
    method ParsePiece(data: string) returns (ok: bool)
      requires Valid()
      modifies this, buf
      ensures Valid() && (buf == old(buf) || fresh(buf))
      ensures Outcome(Model(), ok) == Parse(old(Model()), data, boundary, limit)
    {
      hide Run, Valid, Pending;
      BufAppend(data);
      ok := RunLoop();
    }

    /** The pieces of a body in the order the stream yields them. */
    method ParseAll(pieces: seq<string>) returns (ok: bool)
      requires Valid()
      modifies this, buf
      ensures Valid() && Outcome(Model(), ok) == Feed(old(Model()), pieces, boundary, limit)
    {
      hide Run, Parse, Valid, Model, Pending;
      ghost var m := Model();
      assert pieces[0..] == pieces;
      for i := 0 to |pieces|
        invariant Valid() && (buf == old(buf) || fresh(buf))
        invariant Feed(Model(), pieces[i..], boundary, limit) == Feed(m, pieces, boundary, limit)
      {
        assert pieces[i..][1..] == pieces[i + 1..];
        ok := ParsePiece(pieces[i]);
        if !ok {
          return;
        }
      }
      return true;
    }
  }

  lemma FindAtFront(s: string, pat: string)
    requires pat <= s && pat != ""
    ensures Find(s, pat) == 0
  {
    assert s[0..] == s;
  }

  lemma NextLine(p: Parser, limit: nat)
    requires 0 < Find(p.buf, CRLF()) < |p.buf|
    ensures Find(p.buf, CRLF()) + 2 <= |p.buf|
    ensures var pos := Find(p.buf, CRLF());
      var line := ReadLine(p.file, p.buf[..pos]);
      HeaderLines(p, limit) ==
        if line == Unknown then Outcome(p.(valid := false), false)
        else HeaderLines(p.(file := line.file, buf := p.buf[pos + 2..]), limit)
  {
    hide Find, ReadLine;
  }

  /** trim_copy. */
  method TrimCopy(s: string) returns (r: string)
    ensures r == Trim(s)
  {
    var left, right := 0, |s|;
    while left < |s| && IsBlank(s[left])
      invariant left <= |s| && TrimLeft(s[left..]) == TrimLeft(s)
    {
      assert s[left..][1..] == s[left + 1..];
      left := left + 1;
    }
    if left == |s| {
      return "";
    }
    assert TrimLeft(s) == s[left..] == s[left..|s|];
    while right > 0 && IsBlank(s[right - 1])
      invariant left < right <= |s| && TrimRight(s[left..right]) == TrimRight(s[left..])
    {
      assert s[left..right][..right - 1 - left] == s[left..right - 1];
      right := right - 1;
    }
    r := s[left..right];
  }

  /** start_with_case_ignore. */
  method HasPrefixNoCase(a: string, b: string) returns (yes: bool)
    ensures yes <==> StartsWithNoCase(a, b)
  {
    if |a| < |b| {
      return false;
    }
    for i := 0 to |b|
      invariant forall j :: 0 <= j < i ==> ToLower(a[j]) == ToLower(b[j])
    {
      if ToLower(a[i]) != ToLower(b[i]) {
        return false;
      }
    }
    return true;
  }

  /** serialize_multipart_formdata_item_begin. */
  method WriteItemBegin(it: Item, boundary: string) returns (body: string)
    ensures body == ItemBegin(it, boundary)
  {
    hide DispositionHead, FilenameHead, TypeHead, CRLF;
    body := "--" + boundary + CRLF();
    body := body + DispositionHead() + it.name + "\"";
    if it.filename != "" {
      body := body + FilenameHead() + it.filename + "\"";
    }
    body := body + CRLF();
    if it.contentType != "" {
      body := body + TypeHead() + it.contentType + CRLF();
    }
    body := body + CRLF();
  }

  /** serialize_multipart_formdata. */
  method WriteItems(items: seq<Item>, boundary: string) returns (body: string)
    ensures body == Serialize(items, boundary)
  {
    hide *;
    LastLine(items, boundary);
    body := "";
    for i := 0 to |items|
      invariant body + Serialize(items[i..], boundary) == Serialize(items, boundary)
    {
      SerializeStep(items, i, boundary, body);
      var begin := WriteItemBegin(items[i], boundary);
      body := body + begin;
      body := body + items[i].content + CRLF();
    }
    LastLine(items, boundary);
    body := body + "--" + boundary + "--\r\n";
  }

  lemma LastLine(items: seq<Item>, boundary: string)
    ensures Serialize(items[|items|..], boundary) == "--" + boundary + "--\r\n"
    ensures Serialize(items[0..], boundary) == Serialize(items, boundary)
  {
    assert items[0..] == items;
  }

  lemma SerializeStep(items: seq<Item>, i: nat, boundary: string, body: string)
    requires i < |items|
    ensures body + Serialize(items[i..], boundary)
      == body + ItemBegin(items[i], boundary) + (items[i].content + CRLF()) + Serialize(items[i + 1..], boundary)
  {
    assert items[i..][1..] == items[i + 1..];
    hide ItemBegin, CRLF;
  }

  lemma InitialCase(p: Parser, boundary: string, limit: nat)
    requires p.state == Initial && p.buf != ""
    ensures var q := p.(buf := p.buf[Find(p.buf, Opening(boundary))..]);
      Run(p, boundary, limit) ==
        if |Opening(boundary)| > |q.buf| then Outcome(q, true)
        else if !(Opening(boundary) <= q.buf) then Outcome(q, false)
        else Run(q.(buf := q.buf[|Opening(boundary)|..], state := Entry), boundary, limit)
  {
    hide Find, Opening, HeaderLines;
  }

  lemma HeadersCase(p: Parser, boundary: string, limit: nat)
    requires p.state == InHeaders && p.buf != ""
    ensures Run(p, boundary, limit) ==
      if Find(p.buf, CRLF()) > HEADER_MAX_LENGTH then Outcome(p, false) else
      var o := HeaderLines(p, limit);
      if o.ok && o.parser.state == Body then Run(o.parser, boundary, limit) else o
  {
    hide Find, HeaderLines;
  }

  lemma FoundFits(s: string, pat: string)
    requires Find(s, pat) < |s|
    ensures Find(s, pat) + |pat| <= |s|
  {
  }

  lemma NothingHeld(p: Parser, boundary: string)
    requires |p.buf| == |Delimiter(boundary)|
    ensures BodyHeld(p, boundary) == p.(items := AppendContent(p.items, "")) == p
  {
    if p.items != [] {
      var last := p.items[|p.items| - 1];
      assert last.content + "" == last.content;
      assert p.items[..|p.items| - 1] + [last] == p.items;
    }
  }

  lemma ShortTail(s: string)
    requires |s| < 4
    ensures !("--\r\n" <= s)
  {
  }
}
