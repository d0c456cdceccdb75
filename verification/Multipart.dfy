/** multipart/form-data: the serialised form, and the incremental parser as a function of its
    state and the bytes it holds. */
module Multipart {

  const HEADER_MAX_LENGTH := 8192

  datatype Item = Item(name: string, filename: string, contentType: string, content: string)

  function CRLF(): string { "\r\n" }
  function Opening(boundary: string): (r: string) ensures |r| == |boundary| + 4 { "--" + boundary + CRLF() }
  function Delimiter(boundary: string): (r: string) ensures |r| == |boundary| + 4 { CRLF() + "--" + boundary }
  function DispositionHead(): string { "Content-Disposition: form-data; name=\"" }
  function FilenameHead(): string { "; filename=\"" }
  function TypeHead(): string { "Content-Type: " }
  function TypeName(): string { "content-type:" }

  // ----- searching and trimming -----

  /** Where pat first occurs in s, or |s|. */
  function Find(s: string, pat: string): (at: nat)
    ensures at <= |s|
    ensures at < |s| ==> pat <= s[at..]
    ensures forall i :: 0 <= i < at ==> !(pat <= s[i..])
  {
    if s == [] || pat <= s then 0 else
      var at := Find(s[1..], pat);
      assert forall i :: 1 <= i < |s| ==> s[1..][i - 1..] == s[i..];
      1 + at
  }

  predicate IsBlank(c: char) { c == ' ' || c == '\t' }

  function TrimLeft(s: string): string {
    if s != [] && IsBlank(s[0]) then TrimLeft(s[1..]) else s
  }

  function TrimRight(s: string): string {
    if s != [] && IsBlank(s[|s| - 1]) then TrimRight(s[..|s| - 1]) else s
  }

  /** trim_copy. */
  function Trim(s: string): string { TrimRight(TrimLeft(s)) }

  function ToLower(c: char): char {
    if 'A' <= c <= 'Z' then c + ' ' else c
  }

  /** start_with_case_ignore. */
  predicate StartsWithNoCase(a: string, b: string) {
    |b| <= |a| && forall i :: 0 <= i < |b| ==> ToLower(a[i]) == ToLower(b[i])
  }

  // ----- the serialised form -----

  function DispositionLine(it: Item): string {
    DispositionHead() + it.name + "\"" + if it.filename == "" then "" else FilenameHead() + it.filename + "\""
  }

  function TypeLine(it: Item): string { TypeHead() + it.contentType }

  /** The header block of an item once `lines` of its two lines are gone. */
  function Headers(it: Item, lines: nat): string
    decreases 2 - lines
  {
    if lines == 0 then DispositionLine(it) + CRLF() + Headers(it, 1)
    else if lines == 1 && it.contentType != "" then TypeLine(it) + CRLF() + CRLF()
    else CRLF()
  }

  function ItemBegin(it: Item, boundary: string): string { Opening(boundary) + Headers(it, 0) }

  /** serialize_multipart_formdata. */
  function Serialize(items: seq<Item>, boundary: string): string {
    if items == [] then "--" + boundary + "--\r\n"
    else ItemBegin(items[0], boundary) + items[0].content + CRLF() + Serialize(items[1..], boundary)
  }

  /** What follows a boundary: the items still to come, or the end. */
  function Tail(items: seq<Item>, boundary: string): string {
    if items == [] then "--\r\n"
    else CRLF() + Headers(items[0], 0) + (items[0].content + Delimiter(boundary) + Tail(items[1..], boundary))
  }

  lemma {:induction false} SerializeIsTail(items: seq<Item>, boundary: string)
    ensures Serialize(items, boundary) == "--" + boundary + Tail(items, boundary)
  {
    hide Headers;
    if items != [] {
      SerializeIsTail(items[1..], boundary);
      var h, c, t := Headers(items[0], 0), items[0].content, Tail(items[1..], boundary);
      assert CRLF() + ("--" + boundary + t) == Delimiter(boundary) + t;
    }
  }

  // ----- the parser -----

  datatype State = Initial | Entry | InHeaders | Body | Boundary

  datatype Parser = Parser(state: State, file: Item, items: seq<Item>, valid: bool, buf: string)

  datatype Outcome = Outcome(parser: Parser, ok: bool)

  function NoFile(): Item { Item("", "", "", "") }

  function NewParser(): Parser { Parser(Initial, NoFile(), [], false, "") }

  /** The name and file name of a Content-Disposition line of the form the serialiser emits. */
  function Disposition(line: string): (r: seq<string>)
    ensures r == [] || |r| == 2
  {
    if !StartsWithNoCase(line, DispositionHead()) then [] else
    var rest := line[|DispositionHead()|..];
    var q := Find(rest, "\"");
    if q >= |rest| then [] else
    var after := rest[q + 1..];
    if after == "" then [rest[..q], ""]
    else if StartsWithNoCase(after, FilenameHead()) then
      var file := after[|FilenameHead()|..];
      var e := Find(file, "\"");
      if e + 1 == |file| then [rest[..q], file[..e]] else []
    else []
  }

  /** The receiver's content callback. */
  function AppendContent(items: seq<Item>, s: string): (r: seq<Item>)
    ensures |r| == |items|
  {
    if items == [] then items
    else
      var last := items[|items| - 1];
      items[..|items| - 1] + [last.(content := last.content + s)]
  }

  datatype Line = Known(file: Item) | Unknown

  /** One header line, recorded in the file description. */
  function ReadLine(file: Item, header: string): Line {
    if StartsWithNoCase(header, TypeName()) then Known(file.(contentType := Trim(header[|TypeName()|..])))
    else
      var fields := Disposition(header);
      if fields == [] then Unknown else Known(file.(name := fields[0], filename := fields[1]))
  }

  /** Header lines, as long as whole ones are there; a receiver takes at most limit items. */
  function HeaderLines(p: Parser, limit: nat): (o: Outcome)
    ensures |o.parser.buf| <= |p.buf|
    ensures o.parser.state == Body && p.state != Body ==> |o.parser.buf| < |p.buf|
    decreases |p.buf|
  {
    var pos := Find(p.buf, CRLF());
    if pos >= |p.buf| then Outcome(p, true)
    else if pos == 0 then
      if |p.items| == limit then Outcome(p.(valid := false), false)
      else Outcome(p.(items := p.items + [p.file], buf := p.buf[2..], state := Body), true)
    else
      var line := ReadLine(p.file, p.buf[..pos]);
      if line == Unknown then Outcome(p.(valid := false), false)
      else HeaderLines(p.(file := line.file, buf := p.buf[pos + 2..]), limit)
  }

  /** The loop of parse. */
  function Run(p: Parser, boundary: string, limit: nat): (o: Outcome)
    decreases |p.buf|, if p.state == Entry then 1 else 0
  {
    if p.buf == [] then Outcome(p, true) else
    match p.state
    case Initial =>
      var q := p.(buf := p.buf[Find(p.buf, Opening(boundary))..]);
      if |Opening(boundary)| > |q.buf| then Outcome(q, true)
      else if !(Opening(boundary) <= q.buf) then Outcome(q, false)
      else Run(q.(buf := q.buf[|Opening(boundary)|..], state := Entry), boundary, limit)
    case Entry =>
      Run(p.(file := NoFile(), state := InHeaders), boundary, limit)
    case InHeaders =>
      if Find(p.buf, CRLF()) > HEADER_MAX_LENGTH then Outcome(p, false) else
      var o := HeaderLines(p, limit);
      if o.ok && o.parser.state == Body then Run(o.parser, boundary, limit) else o
    case Body =>
      if |Delimiter(boundary)| > |p.buf| then Outcome(p, true) else
      var pos := Find(p.buf, Delimiter(boundary));
      if pos < |p.buf| then
        Run(p.(items := AppendContent(p.items, p.buf[..pos]), buf := p.buf[pos + |Delimiter(boundary)|..], state := Boundary),
            boundary, limit)
      else
        var len := |p.buf| - |Delimiter(boundary)|;
        Outcome(p.(items := AppendContent(p.items, p.buf[..len]), buf := p.buf[len..]), true)
    case Boundary =>
      if 2 > |p.buf| then Outcome(p, true)
      else if CRLF() <= p.buf then Run(p.(buf := p.buf[2..], state := Entry), boundary, limit)
      else if 4 > |p.buf| then Outcome(p, true)
      else if "--\r\n" <= p.buf then Outcome(p.(valid := true, buf := ""), true)
      else Outcome(p, true)
  }

  /** parse: one more piece of input. */
  function Parse(p: Parser, piece: string, boundary: string, limit: nat): Outcome {
    Run(p.(buf := p.buf + piece), boundary, limit)
  }

  /** All the pieces in turn, until one is refused. */
  function Feed(p: Parser, pieces: seq<string>, boundary: string, limit: nat): Outcome
    decreases |pieces|
  {
    if pieces == [] then Outcome(p, true)
    else
      var o := Parse(p, pieces[0], boundary, limit);
      if o.ok then Feed(o.parser, pieces[1..], boundary, limit) else o
  }
}
