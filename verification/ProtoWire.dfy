/** DecodeBlock: the hint-driven parser of the wire form, and its round trips with the encoder. */
module ProtoWire {
  import opened Bytes
  import opened VarInt
  import opened ProtoTree
  import opened ProtoFields

  const UNKNOWN_TAG := 3

  datatype HintType = UnknownHint | BytesHint | StringHint | MessageHint

  /** DecodeHint: how to read length-delimited fields, by field number. */
  datatype Hint = Hint(kind: HintType, children: map<uint64, Hint>)

  function Lookup(hint: Option<Hint>, fn: uint64): (r: Option<Hint>) {
    if hint.Some? && fn in hint.value.children then Some(hint.value.children[fn]) else None
  }

  /** A byte string is taken for text when it has no ASCII control character. */
  predicate Printable(s: seq<byte>) {
    forall i :: 0 <= i < |s| ==> s[i] >= 32 && s[i] != 127
  }

  /** What one turn of the decoding loop finds at the front of the input. */
  datatype Record =
    | Bad(error: int)
    | Dropped(used: nat)
    | Found(node: Node, used: nat)

  /** The records read before the end of the input or the first error. */
  datatype Parsed = Parsed(error: int, nodes: seq<Node>)

  /** The message object a nested block decodes to: AddObject on a fresh message. */
  function Assemble(fn: uint64, nodes: seq<Node>): Node {
    Message(fn, AddAll([], {}, nodes), {}, nodes != [])
  }

  function ReadBody(fn: uint64, body: seq<byte>, hint: Option<Hint>): (r: Option<Node>)
    ensures r.Some? ==> r.value.fn == fn && r.value.Tag() == TAG_LEN
    decreases |body|, 4
  {
    var child := Lookup(hint, fn);
    match child
    case None => if Printable(body) then Some(Text(fn, body, false)) else Some(ReadNested(fn, body, None))
    case Some(h) =>
      match h.kind
      case BytesHint => Some(Blob(fn, body, false))
      case StringHint => Some(Text(fn, body, false))
      case MessageHint => Some(ReadNested(fn, body, child))
      case UnknownHint => None
  }

  /** Tries the bytes as an embedded message and falls back to plain bytes. */
  function ReadNested(fn: uint64, body: seq<byte>, hint: Option<Hint>): (r: Node)
    ensures r.fn == fn && r.Tag() == TAG_LEN
    decreases |body|, 3
  {
    var p := Parse(body, hint);
    if p.error == 0 then Assemble(fn, p.nodes) else Blob(fn, body, false)
  }

  /** The length-delimited value at the front of s. */
  function ReadDelimited(fn: uint64, s: seq<byte>, hint: Option<Hint>): (r: Record)
    ensures !r.Bad? ==> 0 < r.used <= |s|
    ensures r.Bad? ==> r.error != 0
    decreases |s|, 0
  {
    var l := ReadVarInt(s);
    if l.error != 0 then Bad(l.error)
    else if l.used + l.value > |s| then Bad(OUT_OF_BOUNDS)
    else
      match ReadBody(fn, s[l.used..l.used + l.value], hint)
      case None => Dropped(l.used + l.value)
      case Some(n) => Found(n, l.used + l.value)
  }

  /** The value at the front of s, its field number and tag already known. */
  function ReadValue(fn: uint64, tag: int, s: seq<byte>, hint: Option<Hint>): (r: Record)
    ensures !r.Bad? ==> 0 < r.used <= |s|
    ensures r.Bad? ==> r.error != 0
    decreases |s|, 1
  {
    if tag == TAG_VARINT then
      var v := ReadVarInt(s);
      if v.error != 0 then Bad(v.error) else Found(VarIntField(fn, v.value, false), v.used)
    else if tag == TAG_LEN then ReadDelimited(fn, s, hint)
    else if tag == TAG_I64 then
      if 8 > |s| then Bad(OUT_OF_BOUNDS) else Found(Fixed64(fn, Read64(s[..8]), false), 8)
    else if tag == TAG_I32 then
      if 4 > |s| then Bad(OUT_OF_BOUNDS) else Found(Fixed32(fn, Read32(s[..4]), false), 4)
    else Bad(UNKNOWN_TAG)
  }

  function ReadRecord(s: seq<byte>, hint: Option<Hint>): (r: Record)
    ensures !r.Bad? ==> 0 < r.used <= |s|
    ensures r.Bad? ==> r.error != 0
    decreases |s|, 0
  {
    var k := ReadVarInt(s);
    if k.error != 0 then Bad(k.error)
    else Advance(ReadValue(k.value / 8, k.value % 8, s[k.used..], hint), k.used)
  }

  function Advance(r: Record, n: nat): Record {
    match r
    case Bad(_) => r
    case Dropped(used) => Dropped(n + used)
    case Found(node, used) => Found(node, n + used)
  }

  function Read64(s: seq<byte>): uint64
    requires |s| == 8
  {
    FromLittleEndianBound(s);
    Pow256Values();
    FromLittleEndian(s)
  }

  function Read32(s: seq<byte>): uint32
    requires |s| == 4
  {
    FromLittleEndianBound(s);
    Pow256Values();
    FromLittleEndian(s)
  }

  lemma Pow256Values()
    ensures Pow256(4) == 0x1_0000_0000 && Pow256(8) == TWO_64
  {
    assert Pow256(2) == 0x1_0000;
    assert Pow256(4) == 0x1_0000 * 0x1_0000;
    assert Pow256(6) == 0x1_0000 * 0x1_0000 * 0x1_0000;
  }

  /** The records of a whole block, in wire order. */
  function Parse(s: seq<byte>, hint: Option<Hint>): (p: Parsed)
    decreases |s|, 2
  {
    if s == [] then Parsed(0, []) else
    var r := ReadRecord(s, hint);
    match r
    case Bad(e) => Parsed(e, [])
    case Dropped(used) => Parse(s[used..], hint)
    case Found(n, used) =>
      var rest := Parse(s[used..], hint);
      Parsed(rest.error, [n] + rest.nodes)
  }

  /** What DecodeBlock leaves in a message: its error code and the field table. */
  datatype Block = Block(error: int, kids: seq<Node>)

  function DecodeInto(kids: seq<Node>, unique: set<uint64>, s: seq<byte>, hint: Option<Hint>): Block {
    var p := Parse(s, hint);
    Block(p.error, AddAll(kids, unique, p.nodes))
  }
}
