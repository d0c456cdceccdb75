/** Multipart bodies in plain figures: what the serialiser writes, and what the parser refuses, drops and
    waits for. */
module MultipartForms {
  import opened Multipart

  /** The body of a list of items. */
  lemma SerializedForm(it: Item, items: seq<Item>, boundary: string)
    ensures Serialize([], boundary) == "--" + boundary + "--\r\n"
    ensures Serialize([it] + items, boundary) ==
      "--" + boundary + "\r\n"
      + ("Content-Disposition: form-data; name=\"" + it.name + "\""
         + (if it.filename == "" then "" else "; filename=\"" + it.filename + "\"") + "\r\n"
         + (if it.contentType == "" then "" else "Content-Type: " + it.contentType + "\r\n") + "\r\n")
      + it.content + "\r\n" + Serialize(items, boundary)
  {
    HeadersForm(it);
    hide Headers, Serialize;
    SerializeStep(it, items, boundary);
    EmptySerialized(boundary);
    assert Opening(boundary) == "--" + boundary + "\r\n";
  }

  lemma EmptySerialized(boundary: string)
    ensures Serialize([], boundary) == "--" + boundary + "--\r\n"
  {
  }

  lemma SerializeStep(it: Item, items: seq<Item>, boundary: string)
    ensures Serialize([it] + items, boundary) == Opening(boundary) + Headers(it, 0) + it.content + "\r\n" + Serialize(items, boundary)
  {
    assert ([it] + items)[1..] == items;
    hide Headers;
  }

  lemma HeadersForm(it: Item)
    ensures Headers(it, 0) == "Content-Disposition: form-data; name=\"" + it.name + "\""
      + (if it.filename == "" then "" else "; filename=\"" + it.filename + "\"") + "\r\n"
      + (if it.contentType == "" then "" else "Content-Type: " + it.contentType + "\r\n") + "\r\n"
  {
    assert Headers(it, 1) == (if it.contentType == "" then "" else "Content-Type: " + it.contentType + "\r\n") + "\r\n";
  }

  // ----- header lines -----

  /** Letters without their case. */
  lemma LowerForm(c: char)
    ensures ToLower(c) == if 'A' <= c <= 'Z' then "abcdefghijklmnopqrstuvwxyz"[c as int - 'A' as int] else c
  {
  }

  /** A content type is recorded without the blanks around it, in whatever case its name is written. */
  lemma TypeLineRead(file: Item, name: string, left: string, value: string, right: string)
    requires |name| == 13 && forall i :: 0 <= i < 13 ==> ToLower(name[i]) == "content-type:"[i]
    requires (forall c | c in left :: c == ' ' || c == '\t') && (forall c | c in right :: c == ' ' || c == '\t')
    requires value != "" ==> value[0] != ' ' && value[0] != '\t' && value[|value| - 1] != ' ' && value[|value| - 1] != '\t'
    ensures ReadLine(file, name + (left + (value + right))) == Known(file.(contentType := value))
  {
    var rest := left + (value + right);
    var line := name + rest;
    assert line[13..] == rest;
    forall i | 0 <= i < 13
      ensures ToLower(line[i]) == ToLower(TypeName()[i])
    {
      assert line[i] == name[i] && TypeName()[i] == "content-type:"[i];
      LowerForm(TypeName()[i]);
    }
    hide Trim, ToLower;
    TrimForm(left, value, right);
  }

  lemma TrimForm(left: string, value: string, right: string)
    requires (forall c | c in left :: c == ' ' || c == '\t') && (forall c | c in right :: c == ' ' || c == '\t')
    requires value != "" ==> value[0] != ' ' && value[0] != '\t' && value[|value| - 1] != ' ' && value[|value| - 1] != '\t'
    ensures Trim(left + (value + right)) == value
  {
    if value == "" {
      assert left + ("" + right) == left + right;
      assert forall c | c in left + right :: c == ' ' || c == '\t';
      assert left + right + "" == left + right;
      LeftTrimmed(left + right, "");
    } else {
      LeftTrimmed(left, value + right);
      RightTrimmed(value, right);
    }
    hide TrimLeft;
  }

  lemma {:induction false} LeftTrimmed(left: string, s: string)
    requires (forall c | c in left :: c == ' ' || c == '\t') && (s != "" ==> s[0] != ' ' && s[0] != '\t')
    ensures TrimLeft(left + s) == s
  {
    if left == "" {
      assert left + s == s;
    } else {
      assert left[0] in left && forall c | c in left[1..] :: c in left;
      assert (left + s)[1..] == left[1..] + s;
      LeftTrimmed(left[1..], s);
    }
  }

  lemma {:induction false} RightTrimmed(s: string, right: string)
    requires (forall c | c in right :: c == ' ' || c == '\t') && (s != "" ==> s[|s| - 1] != ' ' && s[|s| - 1] != '\t')
    ensures TrimRight(s + right) == s
  {
    if right == "" {
      assert s + right == s;
    } else {
      var front := right[..|right| - 1];
      assert right[|right| - 1] in right && forall c | c in front :: c in right;
      assert (s + right)[..|s + right| - 1] == s + front;
      RightTrimmed(s, front);
    }
  }

  /** A line that starts neither like a content type nor like a disposition is not understood. */
  lemma OtherLine(file: Item, line: string)
    requires line == "" || (ToLower(line[0]) != 'c')
    ensures ReadLine(file, line) == Unknown
  {
    assert TypeName()[0] == 'c' && DispositionHead()[0] == 'C';
    assert ToLower('c') == 'c' && ToLower('C') == 'c';
  }

  // ----- what is refused, dropped and waited for -----

  lemma FindIs(s: string, pat: string, at: nat)
    requires pat != "" && at <= |s| && (forall i :: 0 <= i < at ==> !(pat <= s[i..])) && (at < |s| ==> pat <= s[at..])
    ensures Find(s, pat) == at
  {
    hide Find;
  }

  /** Without an opening boundary line everything is dropped. */
  lemma OpeningMissing(p: Parser, boundary: string, limit: nat)
    requires p.state == Initial && p.buf != "" && forall i :: 0 <= i < |p.buf| ==> !("--" + boundary + "\r\n" <= p.buf[i..])
    ensures Run(p, boundary, limit) == Outcome(p.(buf := ""), true)
  {
    assert Opening(boundary) == "--" + boundary + "\r\n";
    FindIs(p.buf, Opening(boundary), |p.buf|);
    hide Find, Opening;
    assert p.buf[|p.buf|..] == "";
  }

  /** With one, everything up to its end. */
  lemma OpeningFound(p: Parser, boundary: string, limit: nat, at: nat)
    requires p.state == Initial && at < |p.buf| && "--" + boundary + "\r\n" <= p.buf[at..]
    requires forall i :: 0 <= i < at ==> !("--" + boundary + "\r\n" <= p.buf[i..])
    ensures Run(p, boundary, limit) == Run(p.(buf := p.buf[at + |boundary| + 4..], state := Entry), boundary, limit)
  {
    assert Opening(boundary) == "--" + boundary + "\r\n";
    FindIs(p.buf, Opening(boundary), at);
    hide Find, Opening;
    var q := p.(buf := p.buf[at..]);
    assert q.buf[|boundary| + 4..] == p.buf[at + |boundary| + 4..];
    RunInitial(p, q, boundary, limit);
  }

  lemma RunInitial(p: Parser, q: Parser, boundary: string, limit: nat)
    requires p.state == Initial && p.buf != "" && q == p.(buf := p.buf[Find(p.buf, Opening(boundary))..])
    requires |Opening(boundary)| <= |q.buf| && Opening(boundary) <= q.buf
    ensures Run(p, boundary, limit) == Run(q.(buf := q.buf[|Opening(boundary)|..], state := Entry), boundary, limit)
  {
    hide Find, Opening;
  }

  /** A new part has no name yet. */
  lemma NewPart(p: Parser, boundary: string, limit: nat)
    requires p.state == Entry && p.buf != ""
    ensures Run(p, boundary, limit) == Run(p.(file := Item("", "", "", ""), state := InHeaders), boundary, limit)
  {
  }

  /** A header line longer than 8192 characters is refused before it is read. */
  lemma LongHeader(p: Parser, boundary: string, limit: nat)
    requires p.state == InHeaders && |p.buf| > 8192 && forall i :: 0 <= i <= 8192 ==> !("\r\n" <= p.buf[i..])
    ensures Run(p, boundary, limit) == Outcome(p, false)
  {
  }

  /** The first line of a header block, if it is there whole: one that is not understood is refused, and so
      is an item when the receiver has as many as it takes; the others are recorded one by one. */
  lemma HeaderForm(p: Parser, limit: nat, line: string, rest: string)
    requires p.buf == line + "\r\n" + rest && forall i :: 0 <= i < |line| ==> !("\r\n" <= p.buf[i..])
    ensures line == "" && |p.items| == limit ==> HeaderLines(p, limit) == Outcome(p.(valid := false), false)
    ensures line == "" && |p.items| != limit ==>
      HeaderLines(p, limit) == Outcome(p.(items := p.items + [p.file], buf := rest, state := Body), true)
    ensures line != "" && ReadLine(p.file, line) == Unknown ==> HeaderLines(p, limit) == Outcome(p.(valid := false), false)
    ensures line != "" && ReadLine(p.file, line) != Unknown ==>
      HeaderLines(p, limit) == HeaderLines(p.(file := ReadLine(p.file, line).file, buf := rest), limit)
  {
    assert p.buf[..|line|] == line && p.buf[|line| + 2..] == rest;
    assert "\r\n" <= p.buf[|line|..];
    hide Find, ReadLine;
    assert Find(p.buf, "\r\n") == |line|;
  }

  /** With no whole line the header block waits. */
  lemma HeaderWaits(p: Parser, limit: nat)
    requires forall i :: 0 <= i <= |p.buf| ==> !("\r\n" <= p.buf[i..])
    ensures HeaderLines(p, limit) == Outcome(p, true)
  {
    hide Find;
  }

  /** Content that ends in the buffer. */
  lemma BodyEnds(p: Parser, boundary: string, limit: nat, at: nat)
    requires p.state == Body && at < |p.buf| && "\r\n--" + boundary <= p.buf[at..]
    requires forall i :: 0 <= i < at ==> !("\r\n--" + boundary <= p.buf[i..])
    ensures Run(p, boundary, limit) ==
      Run(p.(items := AppendContent(p.items, p.buf[..at]), buf := p.buf[at + |boundary| + 4..], state := Boundary), boundary, limit)
  {
    hide *;
    var d := "\r\n--" + boundary;
    DelimiterIs(boundary);
    FindIs(p.buf, d, at);
    RunBody(p, boundary, limit);
  }

  lemma DelimiterIs(boundary: string)
    ensures Delimiter(boundary) == "\r\n--" + boundary && |"\r\n--" + boundary| == |boundary| + 4
  {
  }

  /** Content that may go on: as much stays as a delimiter has. */
  lemma BodyGoesOn(p: Parser, boundary: string, limit: nat)
    requires p.state == Body && |boundary| + 4 <= |p.buf| && forall i :: 0 <= i < |p.buf| ==> !("\r\n--" + boundary <= p.buf[i..])
    ensures var n := |p.buf| - |boundary| - 4;
      Run(p, boundary, limit) == Outcome(p.(items := AppendContent(p.items, p.buf[..n]), buf := p.buf[n..]), true)
  {
    assert Delimiter(boundary) == "\r\n--" + boundary;
    FindIs(p.buf, Delimiter(boundary), |p.buf|);
    hide *;
    RunBody(p, boundary, limit);
  }

  lemma RunBody(p: Parser, boundary: string, limit: nat)
    requires p.state == Body && |Delimiter(boundary)| <= |p.buf|
    ensures var pos := Find(p.buf, Delimiter(boundary));
      if pos < |p.buf| then
        Run(p, boundary, limit) ==
          Run(p.(items := AppendContent(p.items, p.buf[..pos]), buf := p.buf[pos + |Delimiter(boundary)|..], state := Boundary), boundary, limit)
      else
        var len := |p.buf| - |Delimiter(boundary)|;
        Run(p, boundary, limit) == Outcome(p.(items := AppendContent(p.items, p.buf[..len]), buf := p.buf[len..]), true)
  {
    hide Find, Delimiter, AppendContent;
  }

  /** Too little to tell is waited for; so is anything unknown behind a boundary. */
  lemma Waits(p: Parser, boundary: string, limit: nat)
    ensures p.buf == "" ==> Run(p, boundary, limit) == Outcome(p, true)
    ensures p.state == Body && |p.buf| < |boundary| + 4 ==> Run(p, boundary, limit) == Outcome(p, true)
    ensures p.state == Boundary && |p.buf| < 2 ==> Run(p, boundary, limit) == Outcome(p, true)
    ensures p.state == Boundary && !("\r\n" <= p.buf) && !("--\r\n" <= p.buf) ==> Run(p, boundary, limit) == Outcome(p, true)
  {
  }

  /** Behind a boundary: another part, or the valid end, with what follows it dropped. */
  lemma AfterBoundary(p: Parser, boundary: string, limit: nat)
    requires p.state == Boundary
    ensures "\r\n" <= p.buf ==> Run(p, boundary, limit) == Run(p.(buf := p.buf[2..], state := Entry), boundary, limit)
    ensures "--\r\n" <= p.buf ==> Run(p, boundary, limit) == Outcome(p.(valid := true, buf := ""), true)
  {
    assert "--\r\n" <= p.buf ==> p.buf[0] == '-';
    assert "\r\n" <= p.buf ==> p.buf[0] == '\r';
  }

  /** Content goes to the item delivered last. */
  lemma ContentForm(items: seq<Item>, last: Item, s: string)
    ensures AppendContent(items + [last], s) == items + [last.(content := last.content + s)]
  {
    assert (items + [last])[..|items|] == items;
  }

  /** A new parser has nothing; the pieces are taken in turn, each behind what is left, up to the first
      that is refused. */
  lemma FeedForm(p: Parser, piece: string, pieces: seq<string>, boundary: string, limit: nat)
    ensures NewParser() == Parser(Initial, Item("", "", "", ""), [], false, "")
    ensures Feed(p, [], boundary, limit) == Outcome(p, true)
    ensures var o := Run(p.(buf := p.buf + piece), boundary, limit);
      Feed(p, [piece] + pieces, boundary, limit) == if o.ok then Feed(o.parser, pieces, boundary, limit) else o
  {
    assert ([piece] + pieces)[1..] == pieces;
    hide Run;
  }
}
