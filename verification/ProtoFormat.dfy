/** The wire form in plain figures: which bytes stand for which value, and what the decoder makes of
    them, with the numbers of the Protocol Buffers encoding. */
module ProtoFormat {
  import opened Bytes
  import opened Powers
  import opened VarInt
  import opened ProtoTree
  import opened ProtoFields
  import opened ProtoWire
  import opened ProtoRoundTrip

  // ----- numbers -----

  lemma DigitsUnfold(v: nat)
    ensures v < 128 ==> Digits(v) == [v]
    ensures v >= 128 ==> Digits(v) == [v % 128 + 128] + Digits(v / 128) && |Digits(v)| == |Digits(v / 128)| + 1
  {
  }

  lemma Unit(v: nat)
    ensures v / Power(128, 0) % 128 == v % 128 && (v < 128 ==> v % 128 == v)
  {
  }

  /** Byte i of a variable-length number is its i-th base-128 digit, with the top bit set on all but the
      last. */
  lemma {:induction false} VarIntBytes(v: nat, i: nat)
    requires i < |Digits(v)|
    ensures Digits(v)[i] == v / Power(128, i) % 128 + (if i + 1 < |Digits(v)| then 128 else 0)
    decreases v
  {
    hide *;
    DigitsUnfold(v);
    Unit(v);
    if v >= 128 {
      NeverEmpty(v / 128);
      if i > 0 {
        VarIntBytes(v / 128, i - 1);
        DivideTwice(v, 128, i - 1);
      }
    }
  }

  lemma NeverEmpty(v: nat)
    ensures |Digits(v)| >= 1
  {
  }

  /** There are no more bytes than needed. */
  lemma {:induction false} VarIntLength(v: nat)
    ensures v < Power(128, |Digits(v)|) && (|Digits(v)| > 1 ==> v >= Power(128, |Digits(v)| - 1))
  {
    DigitsUnfold(v);
    hide Digits;
    if v >= 128 {
      VarIntLength(v / 128);
      var k := |Digits(v / 128)|;
      assert Power(128, k + 1) == 128 * Power(128, k);
      if k > 1 {
        assert Power(128, k) == 128 * Power(128, k - 1);
      }
    }
  }

  // ----- one record -----

  /** v in eight bytes, low-order first. */
  function Eight(v: uint64): seq<byte> {
    [v % 256, v / 0x100 % 256, v / 0x1_0000 % 256, v / 0x100_0000 % 256,
     v / 0x1_0000_0000 % 256, v / 0x100_0000_0000 % 256, v / 0x1_0000_0000_0000 % 256, v / 0x100_0000_0000_0000 % 256]
  }

  function Four(v: uint32): seq<byte> {
    [v % 256, v / 0x100 % 256, v / 0x1_0000 % 256, v / 0x100_0000 % 256]
  }

  lemma FourIs(v: uint32)
    ensures LittleEndian(v, 4) == Four(v)
  {
    hide LittleEndian, Power;
    PowersOf256();
    FixedBytes(v, 4, 0);
    FixedBytes(v, 4, 1);
    FixedBytes(v, 4, 2);
    FixedBytes(v, 4, 3);
  }

  lemma EightIs(v: uint64)
    ensures LittleEndian(v, 8) == Eight(v)
  {
    hide LittleEndian, Power;
    PowersOf256();
    FixedBytes(v, 8, 0);
    FixedBytes(v, 8, 1);
    FixedBytes(v, 8, 2);
    FixedBytes(v, 8, 3);
    FixedBytes(v, 8, 4);
    FixedBytes(v, 8, 5);
    FixedBytes(v, 8, 6);
    FixedBytes(v, 8, 7);
  }

  /** What is sent for each kind of object: eight times the field number, the kind's number added, and
      the value. */
  lemma Format(n: Node)
    requires Packable(n.fn)
    ensures match n
      case VarIntField(fn, v, _) => Encode(n) == Digits(8 * fn) + Digits(v)
      case Fixed64(fn, v, _) => Encode(n) == Digits(8 * fn + 1) + Eight(v)
      case Fixed32(fn, v, _) => Encode(n) == Digits(8 * fn + 5) + Four(v)
      case Text(fn, c, _) => Encode(n) == Digits(8 * fn + 2) + Digits(|c|) + c
      case Blob(fn, c, _) => Encode(n) == Digits(8 * fn + 2) + Digits(|c|) + c
      case Message(fn, kids, _, _) => Encode(n) == Digits(8 * fn + 2) + Digits(|EncodeAll(kids)|) + EncodeAll(kids)
  {
    hide Digits, LittleEndian, EncodeAll, Eight, Four;
    match n
    case VarIntField(_, _, _) => KeyIs(n.fn, 0);
    case Fixed64(_, v, _) =>
      KeyIs(n.fn, 1);
      EightIs(v);
    case Fixed32(_, v, _) =>
      KeyIs(n.fn, 5);
      FourIs(v);
    case Message(_, kids, _, _) =>
      KeyIs(n.fn, 2);
      EncodedSizeAll(kids);
    case _ => KeyIs(n.fn, 2);
  }

  lemma KeyIs(fn: uint64, tag: int)
    requires Packable(fn) && 0 <= tag < 8
    ensures Key(fn, tag) == 8 * fn + tag
  {
  }

  // ----- what the decoder makes of one record -----

  /** A number whose key is eight times a field number is that field's varint, and eight or four bytes
      behind the keys 1 and 5 above it are its fixed-size numbers. */
  lemma ReadsNumbers(fn: uint64, v: uint64, w: uint32, rest: seq<byte>, hint: Option<Hint>)
    requires Packable(fn)
    ensures var s := Digits(8 * fn) + Digits(v);
      ReadRecord(s + rest, hint) == Found(VarIntField(fn, v, false), |s|)
    ensures var s := Digits(8 * fn + 1) + Eight(v);
      ReadRecord(s + rest, hint) == Found(Fixed64(fn, v, false), |s|)
    ensures var s := Digits(8 * fn + 5) + Four(w);
      ReadRecord(s + rest, hint) == Found(Fixed32(fn, w, false), |s|)
  {
    hide ReadRecord, Digits, Wellformed, Conforms, PayloadSize, Encode;
    Format(VarIntField(fn, v, false));
    Format(Fixed64(fn, v, false));
    Format(Fixed32(fn, w, false));
    NumberRecord(VarIntField(fn, v, false), hint, rest);
    NumberRecord(Fixed64(fn, v, false), hint, rest);
    NumberRecord(Fixed32(fn, w, false), hint, rest);
  }

  lemma NumberRecord(n: Node, hint: Option<Hint>, rest: seq<byte>)
    requires Packable(n.fn) && (n.VarIntField? || n.Fixed64? || n.Fixed32?)
    ensures ReadRecord(Encode(n) + rest, hint) == Found(Fresh(n), |Encode(n)|)
  {
    hide ReadRecord, ReadValue, Value, Encode, Fresh;
    NumberRoundTrip(n, hint, rest);
    ReadPastKeyOf(n, rest, hint);
  }

  /** What a length-delimited field is read as: as its hint says, and without a hint as text if it has no
      control character, as a message if it parses as one, and as bytes otherwise. */
  lemma ReadsDelimited(fn: uint64, body: seq<byte>, rest: seq<byte>, hint: Option<Hint>)
    requires Packable(fn) && |body| < TWO_64
    ensures var s := Digits(8 * fn + 2) + Digits(|body|) + body;
      var named := hint.Some? && fn in hint.value.children;
      var child := if named then Some(hint.value.children[fn]) else None;
      var nested := Parse(body, child);
      var r := ReadRecord(s + rest, hint);
      if named && child.value.kind == UnknownHint then r == Dropped(|s|)
      else if named && child.value.kind == BytesHint then r == Found(Blob(fn, body, false), |s|)
      else if named && child.value.kind == StringHint then r == Found(Text(fn, body, false), |s|)
      else if !named && forall i :: 0 <= i < |body| ==> body[i] >= 0x20 && body[i] != 0x7F then r == Found(Text(fn, body, false), |s|)
      else if nested.error == 0 then
        r == Found(Message(fn, AddAll([], {}, nested.nodes), {}, nested.nodes != []), |s|)
      else r == Found(Blob(fn, body, false), |s|)
  {
    hide ReadRecord, Digits, ReadDelimited, ReadVarInt, Parse, AddAll;
    KeyIs(fn, 2);
    var key, len := Digits(8 * fn + 2), Digits(|body|);
    assert key + len + body + rest == key + (len + (body + rest));
    ReadPastKey(fn, 2, len + (body + rest), hint);
    ReadDelimitedExact(fn, body, rest, hint);
    DelimitedTag(fn, len + (body + rest), hint);
    hide ReadValue;
  }

  lemma DelimitedTag(fn: uint64, s: seq<byte>, hint: Option<Hint>)
    ensures ReadValue(fn, 2, s, hint) == ReadDelimited(fn, s, hint)
  {
  }

  /** The other tags are refused with error 3, whatever follows; and what is cut short with error 1. */
  lemma Refuses(fn: uint64, tag: int, s: seq<byte>, hint: Option<Hint>)
    requires Packable(fn) && 0 <= tag < 8
    ensures tag == 3 || tag == 4 || tag == 6 || tag == 7 ==> ReadRecord(Digits(8 * fn + tag) + s, hint) == Bad(3)
    ensures tag == 1 && |s| < 8 ==> ReadRecord(Digits(8 * fn + tag) + s, hint) == Bad(1)
    ensures tag == 5 && |s| < 4 ==> ReadRecord(Digits(8 * fn + tag) + s, hint) == Bad(1)
  {
    hide ReadRecord, Digits, ReadDelimited, ReadVarInt, Read64, Read32;
    KeyIs(fn, tag);
    ReadPastKey(fn, tag, s, hint);
  }

  /** So is a length that announces more than there is. */
  lemma RefusesLength(fn: uint64, length: uint64, s: seq<byte>, hint: Option<Hint>)
    requires Packable(fn) && length > |s|
    ensures ReadRecord(Digits(8 * fn + 2) + (Digits(length) + s), hint) == Bad(1)
  {
    hide ReadRecord, Digits, ReadVarInt, ReadBody;
    KeyIs(fn, 2);
    ReadPastKey(fn, 2, Digits(length) + s, hint);
    DelimitedTag(fn, Digits(length) + s, hint);
    VarIntRoundTrip(length, s);
  }

  /** A variable-length number ends at the first byte below 128; with none among all there are the read
      runs out of bounds, and with none among the first sixteen and more to come it is too big. */
  lemma VarIntRead(s: seq<byte>, k: nat)
    requires k <= |s| && forall i :: 0 <= i < k ==> s[i] >= 128
    ensures k < 16 && k < |s| && s[k] < 128 ==> ReadVarInt(s) == Read(Weighted(s[..k + 1]) % TWO_64, 0, k + 1)
    ensures k == |s| <= 16 ==> ReadVarInt(s) == Read(0, 1, k)
    ensures k == 16 && |s| > 16 ==> ReadVarInt(s) == Read(0, 2, 16)
  {
    ContinuationsAtLeast(s, k);
    if k < 16 && k < |s| && s[k] < 128 {
      GroupsWeighted(s[..k + 1]);
    }
    hide Groups, Weighted;
  }

  /** The bytes' digits, each times its power of 128. */
  function Weighted(s: seq<byte>): nat {
    if s == [] then 0 else Weighted(s[..|s| - 1]) + s[|s| - 1] % 128 * Power(128, |s| - 1)
  }

  lemma {:induction false} GroupsWeighted(s: seq<byte>)
    ensures Groups(s) == Weighted(s)
  {
    if s != [] {
      GroupsSnoc(s[..|s| - 1], s[|s| - 1]);
      assert s[..|s| - 1] + [s[|s| - 1]] == s;
      GroupsWeighted(s[..|s| - 1]);
    }
  }

  lemma {:induction false} GroupsSnoc(s: seq<byte>, b: byte)
    ensures Groups(s + [b]) == Groups(s) + b % 128 * Power(128, |s|)
  {
    if s == [] {
      assert Groups([b]) == b % 128 + 128 * Groups([b][1..]);
    } else {
      assert (s + [b])[1..] == s[1..] + [b];
      GroupsSnoc(s[1..], b);
      Scaled(b % 128, Power(128, |s| - 1));
    }
  }

  lemma Scaled(d: nat, p: nat)
    ensures 128 * (d * p) == d * (128 * p)
  {
  }

  // ----- blocks -----

  lemma {:induction false} ContinuationsPrefix(a: seq<byte>, b: seq<byte>)
    requires Continuations(a) < |a|
    ensures Continuations(a + b) == Continuations(a)
  {
    if a[0] >= 128 {
      assert (a + b)[1..] == a[1..] + b;
      ContinuationsPrefix(a[1..], b);
    }
  }

  lemma VarIntPrefix(a: seq<byte>, b: seq<byte>)
    requires ReadVarInt(a).error == 0
    ensures ReadVarInt(a + b) == ReadVarInt(a)
  {
    ContinuationsPrefix(a, b);
    var k := Continuations(a);
    assert (a + b)[..k + 1] == a[..k + 1];
  }

  /** A record that is there is read the same whatever follows it. */
  lemma RecordPrefix(a: seq<byte>, b: seq<byte>, hint: Option<Hint>)
    requires !ReadRecord(a, hint).Bad?
    ensures ReadRecord(a + b, hint) == ReadRecord(a, hint)
  {
    hide Advance, ReadValue, ReadVarInt;
    var k := ReadVarInt(a);
    VarIntPrefix(a, b);
    assert (a + b)[k.used..] == a[k.used..] + b;
    AdvanceBad(ReadValue(k.value / 8, k.value % 8, a[k.used..], hint), k.used);
    ValuePrefix(k.value / 8, k.value % 8, a[k.used..], b, hint);
  }

  lemma AdvanceBad(r: Record, n: nat)
    ensures Advance(r, n).Bad? == r.Bad?
  {
  }

  lemma ValuePrefix(fn: uint64, tag: int, a: seq<byte>, b: seq<byte>, hint: Option<Hint>)
    requires !ReadValue(fn, tag, a, hint).Bad?
    ensures ReadValue(fn, tag, a + b, hint) == ReadValue(fn, tag, a, hint)
  {
    hide ReadVarInt, ReadBody;
    if |a| >= 8 {
      assert (a + b)[..8] == a[..8];
    }
    if |a| >= 4 {
      assert (a + b)[..4] == a[..4];
    }
    var l := ReadVarInt(a);
    if l.error == 0 {
      VarIntPrefix(a, b);
      if l.used + l.value <= |a| {
        assert (a + b)[l.used..l.used + l.value] == a[l.used..l.used + l.value];
      }
    }
  }

  /** What is found in one block and then in another. */
  function Both(first: Parsed, rest: Parsed): Parsed { Parsed(rest.error, first.nodes + rest.nodes) }

  /** A block that can be read to its end, with more behind it: what is in it, and then what is in the
      rest, up to the rest's first error. */
  lemma {:induction false} ParseAppend(a: seq<byte>, b: seq<byte>, hint: Option<Hint>)
    requires Parse(a, hint).error == 0
    ensures Parse(a + b, hint) == Both(Parse(a, hint), Parse(b, hint))
    decreases |a|
  {
    hide *;
    if a == [] {
      assert a + b == b;
      NothingFirst(Parse(b, hint), hint);
    } else {
      var r := ReadRecord(a, hint);
      ParseStep(a, hint);
      ParseStep(a + b, hint);
      RecordPrefix(a, b, hint);
      assert (a + b)[r.used..] == a[r.used..] + b;
      ParseAppend(a[r.used..], b, hint);
      OneFirst(r, Parse(a[r.used..], hint), Parse(b, hint));
    }
  }

  lemma NothingFirst(rest: Parsed, hint: Option<Hint>)
    ensures Both(Parse([], hint), rest) == rest
  {
    assert [] + rest.nodes == rest.nodes;
  }

  lemma OneFirst(r: Record, first: Parsed, rest: Parsed)
    requires !r.Bad?
    ensures var both := Both(first, rest);
      Parsed(both.error, if r.Found? then [r.node] + both.nodes else both.nodes)
        == Both(Parsed(first.error, if r.Found? then [r.node] + first.nodes else first.nodes), rest)
  {
    if r.Found? {
      assert [r.node] + (first.nodes + rest.nodes) == [r.node] + first.nodes + rest.nodes;
    }
  }

  lemma ParseStep(s: seq<byte>, hint: Option<Hint>)
    requires s != []
    ensures var r := ReadRecord(s, hint);
      if r.Bad? then Parse(s, hint) == Parsed(r.error, [])
      else
        var rest := Parse(s[r.used..], hint);
        Parse(s, hint) == Parsed(rest.error, if r.Found? then [r.node] + rest.nodes else rest.nodes)
  {
    hide ReadRecord;
  }

  /** One record is a block, and so is nothing; an error leaves what was read before it. */
  lemma ParseOne(s: seq<byte>, hint: Option<Hint>)
    ensures s == [] ==> Parse(s, hint) == Parsed(0, [])
    ensures s != [] ==> var r := ReadRecord(s, hint);
      && (r.Bad? ==> Parse(s, hint) == Parsed(r.error, []))
      && (r.Dropped? && r.used == |s| ==> Parse(s, hint) == Parsed(0, []))
      && (r.Found? && r.used == |s| ==> Parse(s, hint) == Parsed(0, [r.node]))
  {
    hide ReadRecord;
    assert s[|s|..] == [];
  }

  /** In particular a block of one varint. */
  lemma ParsesVarInt(fn: uint64, v: uint64, hint: Option<Hint>)
    requires Packable(fn)
    ensures Parse(Digits(8 * fn) + Digits(v), hint) == Parsed(0, [VarIntField(fn, v, false)])
  {
    hide Digits, ReadRecord, Parse;
    var s := Digits(8 * fn) + Digits(v);
    ReadsNumbers(fn, v, 0, [], hint);
    assert s + [] == s;
    ParseOne(s, hint);
  }

  // ----- what is dirty -----

  /** A table is sent object after object, and of the dirty part only the dirty ones. */
  lemma TableForm(n: Node, rest: seq<Node>)
    ensures EncodeAll([]) == [] && EncodeAll([n] + rest) == Encode(n) + EncodeAll(rest)
    ensures EncodeDirtyAll([]) == []
    ensures EncodeDirtyAll([n] + rest) == (if n.dirty then EncodeDirty(n) else []) + EncodeDirtyAll(rest)
    ensures PruneAll([]) == [] && PruneAll([n] + rest) == (if n.dirty then [Prune(n)] else []) + PruneAll(rest)
  {
    assert ([n] + rest)[1..] == rest;
    hide Encode, EncodeDirty, Prune;
  }

  /** A dirty leaf is sent whole, and of a dirty message what is dirty in it, with that length. */
  lemma DirtyForm(n: Node)
    requires Packable(n.fn)
    ensures !n.Message? ==> EncodeDirty(n) == Encode(n) && Prune(n) == n
    ensures n.Message? ==>
      && EncodeDirty(n) == Digits(8 * n.fn + 2) + Digits(|EncodeDirtyAll(n.kids)|) + EncodeDirtyAll(n.kids)
      && Prune(n) == Message(n.fn, PruneAll(n.kids), n.unique, n.dirty)
  {
    if n.Message? {
      KeyIs(n.fn, 2);
      EncodedSizesExact(n.kids);
    }
    hide Digits, EncodeDirtyAll;
  }
}
