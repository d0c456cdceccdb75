/** Decoding inverts encoding: every tree whose length-delimited fields the hint names comes back. */
module ProtoRoundTrip {
  import opened Bytes
  import opened VarInt
  import opened ProtoTree
  import opened ProtoFields
  import opened ProtoWire

  /** A tree the wire can carry: field tables in map order and field numbers that pack with a tag. */
  predicate Wellformed(n: Node) {
    Packable(n.fn) && (n.Message? ==> WellformedAll(n.kids))
  }

  predicate WellformedAll(kids: seq<Node>) {
    Sorted(kids) && forall k | k in kids :: Wellformed(k)
  }

  /** The hint makes the decoder read n back as the kind it is: by naming the kind, or, for a
      field it does not mention, because the guess from the bytes is right. */
  predicate Conforms(n: Node, hint: Option<Hint>) {
    var child := Lookup(hint, n.fn);
    match n
    case Text(_, c, _) => if child.Some? then child.value.kind.StringHint? else Printable(c)
    case Blob(_, _, _) => child.Some? && child.value.kind.BytesHint?
    case Message(_, kids, _, _) =>
      && (if child.Some? then child.value.kind.MessageHint? else !Printable(EncodeAll(kids)))
      && forall k | k in kids :: Conforms(k, child)
    case _ => true
  }

  predicate ConformsAll(kids: seq<Node>, hint: Option<Hint>) {
    forall k | k in kids :: Conforms(k, hint)
  }

  /** n as the decoder rebuilds it: leaves clean, a message dirty once a field was added to it,
      no field declared unique. */
  function Fresh(n: Node): (r: Node)
    ensures r.fn == n.fn && r.Tag() == n.Tag()
  {
    match n
    case VarIntField(fn, v, _) => VarIntField(fn, v, false)
    case Fixed64(fn, v, _) => Fixed64(fn, v, false)
    case Fixed32(fn, v, _) => Fixed32(fn, v, false)
    case Text(fn, c, _) => Text(fn, c, false)
    case Blob(fn, c, _) => Blob(fn, c, false)
    case Message(fn, kids, _, _) => Message(fn, FreshAll(kids), {}, kids != [])
  }

  function FreshAll(kids: seq<Node>): (r: seq<Node>)
    ensures |r| == |kids|
    ensures forall i :: 0 <= i < |kids| ==> r[i].fn == kids[i].fn
  {
    if kids == [] then [] else [Fresh(kids[0])] + FreshAll(kids[1..])
  }

  /** n without its bookkeeping: dirty flags and unique declarations. */
  function Plain(n: Node): Node {
    match n
    case VarIntField(fn, v, _) => VarIntField(fn, v, false)
    case Fixed64(fn, v, _) => Fixed64(fn, v, false)
    case Fixed32(fn, v, _) => Fixed32(fn, v, false)
    case Text(fn, c, _) => Text(fn, c, false)
    case Blob(fn, c, _) => Blob(fn, c, false)
    case Message(fn, kids, _, _) => Message(fn, PlainAll(kids), {}, false)
  }

  function PlainAll(kids: seq<Node>): (r: seq<Node>)
    ensures |r| == |kids|
  {
    if kids == [] then [] else [Plain(kids[0])] + PlainAll(kids[1..])
  }

  lemma {:induction false} PlainOfFresh(n: Node)
    ensures Plain(Fresh(n)) == Plain(n)
    decreases n
  {
    if n.Message? {
      PlainOfFreshAll(n.kids);
    }
  }

  lemma {:induction false} PlainOfFreshAll(kids: seq<Node>)
    ensures PlainAll(FreshAll(kids)) == PlainAll(kids)
    decreases kids
  {
    if kids != [] {
      PlainOfFresh(kids[0]);
      PlainOfFreshAll(kids[1..]);
      assert FreshAll(kids)[1..] == FreshAll(kids[1..]);
    }
  }

  lemma FreshSorted(kids: seq<Node>)
    requires Sorted(kids)
    ensures AddAll([], {}, FreshAll(kids)) == FreshAll(kids)
  {
    assert [] + FreshAll(kids) == FreshAll(kids);
    AddAllSorted([], FreshAll(kids));
  }

  /** Past the key the decoder writes first, what is left is the value. */
  lemma ReadPastKey(fn: uint64, tag: int, rest: seq<byte>, hint: Option<Hint>)
    requires Packable(fn) && 0 <= tag < 8
    ensures var key := Digits(Key(fn, tag));
      ReadRecord(key + rest, hint) == Advance(ReadValue(fn, tag, rest, hint), |key|)
  {
    var key := Digits(Key(fn, tag));
    VarIntRoundTrip(Key(fn, tag), rest);
    KeyUnpacks(fn, tag);
    assert (key + rest)[|key|..] == rest;
  }

  /** A length-delimited value is cut out of the input exactly. */
  lemma ReadDelimitedExact(fn: uint64, body: seq<byte>, rest: seq<byte>, hint: Option<Hint>)
    requires |body| < TWO_64
    ensures var len := Digits(|body|);
      ReadDelimited(fn, len + (body + rest), hint) ==
      match ReadBody(fn, body, hint)
      case None => Dropped(|len| + |body|)
      case Some(n) => Found(n, |len| + |body|)
  {
    hide ReadRecord, ReadValue, ReadBody, ReadNested, Parse, Digits, ReadVarInt;
    var len := Digits(|body|);
    VarIntRoundTrip(|body|, body + rest);
    assert (len + (body + rest))[|len|..|len| + |body|] == body;
  }

  lemma ReadFixedExact(v: nat, width: nat, rest: seq<byte>)
    requires v < Pow256(width)
    ensures (LittleEndian(v, width) + rest)[..width] == LittleEndian(v, width)
    ensures FromLittleEndian(LittleEndian(v, width)) == v
  {
    LittleEndianRoundTrip(v, width);
  }

  /** What follows the key in the encoding of n. */
  function Value(n: Node): seq<byte> {
    match n
    case VarIntField(_, v, _) => Digits(v)
    case Fixed64(_, v, _) => LittleEndian(v, 8)
    case Fixed32(_, v, _) => LittleEndian(v, 4)
    case Text(_, c, _) => Digits(|c|) + c
    case Blob(_, c, _) => Digits(|c|) + c
    case Message(_, kids, _, _) => Digits(PayloadSizeAll(kids)) + EncodeAll(kids)
  }

  lemma EncodeIsKeyValue(n: Node)
    ensures Encode(n) == Digits(Key(n.fn, n.Tag())) + Value(n)
  {
  }

  lemma ReadPastKeyOf(n: Node, rest: seq<byte>, hint: Option<Hint>)
    requires Packable(n.fn)
    ensures var used := |Encode(n)| - |Value(n)|;
      && used >= 0
      && ReadRecord(Encode(n) + rest, hint) == Advance(ReadValue(n.fn, n.Tag(), Value(n) + rest, hint), used)
  {
    hide *;
    var key := Digits(Key(n.fn, n.Tag()));
    EncodeIsKeyValue(n);
    assert (key + Value(n)) + rest == key + (Value(n) + rest);
    ReadPastKey(n.fn, n.Tag(), Value(n) + rest, hint);
  }

  lemma NumberRoundTrip(n: Node, hint: Option<Hint>, rest: seq<byte>)
    requires n.Tag() != TAG_LEN
    ensures ReadValue(n.fn, n.Tag(), Value(n) + rest, hint) == Found(Fresh(n), |Value(n)|)
  {
    match n
    case VarIntField(fn, v, _) =>
      VarIntRoundTrip(v, rest);
    case Fixed64(fn, v, _) =>
      Pow256Values();
      ReadFixedExact(v, 8, rest);
    case Fixed32(fn, v, _) =>
      Pow256Values();
      ReadFixedExact(v, 4, rest);
    case _ =>
  }

  /** The bytes a length prefix announces. */
  function Body(n: Node): seq<byte>
    requires n.Tag() == TAG_LEN
  {
    match n
    case Text(_, c, _) => c
    case Blob(_, c, _) => c
    case Message(_, kids, _, _) => EncodeAll(kids)
    case _ => assert false; []
  }

  lemma PlainBodyRoundTrip(n: Node, hint: Option<Hint>)
    requires (n.Text? || n.Blob?) && Conforms(n, hint)
    ensures ReadBody(n.fn, Body(n), hint) == Some(Fresh(n))
  {
    hide ReadNested;
  }

  lemma {:induction false} ValueRoundTrip(n: Node, hint: Option<Hint>, rest: seq<byte>)
    requires Wellformed(n) && Conforms(n, hint) && PayloadSize(n) < TWO_64
    ensures ReadValue(n.fn, n.Tag(), Value(n) + rest, hint) == Found(Fresh(n), |Value(n)|)
    decreases n, 0
  {
    hide ReadRecord, ReadDelimited, ReadBody, ReadNested, Parse, Digits, ReadVarInt, EncodeAll;
    if n.Tag() != TAG_LEN {
      NumberRoundTrip(n, hint, rest);
    } else {
      var body := Body(n);
      if n.Message? {
        EncodedSizeAll(n.kids);
        NestedRoundTrip(n.fn, n.kids, hint);
      } else {
        PlainBodyRoundTrip(n, hint);
      }
      assert Value(n) + rest == Digits(|body|) + (body + rest);
      ReadDelimitedExact(n.fn, body, rest, hint);
    }
  }

  lemma {:induction false} NestedRoundTrip(fn: uint64, kids: seq<Node>, hint: Option<Hint>)
    requires WellformedAll(kids) && Conforms(Message(fn, kids, {}, false), hint)
    requires PayloadSizeAll(kids) < TWO_64
    ensures ReadBody(fn, EncodeAll(kids), hint) == Some(Message(fn, FreshAll(kids), {}, kids != []))
    decreases kids, 1
  {
    BlockRoundTrip(kids, Lookup(hint, fn));
    FreshSorted(kids);
  }

  lemma {:induction false} RecordRoundTrip(n: Node, hint: Option<Hint>, rest: seq<byte>)
    requires Wellformed(n) && Conforms(n, hint) && PayloadSize(n) < TWO_64
    ensures ReadRecord(Encode(n) + rest, hint) == Found(Fresh(n), |Encode(n)|)
    decreases n, 1
  {
    hide ReadRecord, ReadValue, Value, Encode, Fresh, Conforms, PayloadSize;
    ValueRoundTrip(n, hint, rest);
    ReadPastKeyOf(n, rest, hint);
  }

  /** Decoding the encoding of a field table reads back its records, in order and without error. */
  lemma {:induction false} BlockRoundTrip(kids: seq<Node>, hint: Option<Hint>)
    requires WellformedAll(kids) && ConformsAll(kids, hint) && PayloadSizeAll(kids) < TWO_64
    ensures Parse(EncodeAll(kids), hint) == Parsed(0, FreshAll(kids))
    decreases kids, 0
  {
    if kids != [] {
      var s, rest := EncodeAll(kids), EncodeAll(kids[1..]);
      assert Wellformed(kids[0]) && Conforms(kids[0], hint);
      RecordRoundTrip(kids[0], hint, rest);
      assert s[|Encode(kids[0])|..] == rest;
      BlockRoundTrip(kids[1..], hint);
    }
  }

  /** The round trip: decoding the encoding of any tree that fits in memory into a fresh message
      succeeds and rebuilds the tree, the order inside repeated fields included. */
  lemma DecodeInvertsEncode(kids: seq<Node>, hint: Option<Hint>)
    requires WellformedAll(kids) && ConformsAll(kids, hint) && PayloadSizeAll(kids) < TWO_64
    ensures var b := DecodeInto([], {}, EncodeAll(kids), hint);
      b.error == 0 && b.kids == FreshAll(kids) && PlainAll(b.kids) == PlainAll(kids)
  {
    BlockRoundTrip(kids, hint);
    FreshSorted(kids);
    PlainOfFreshAll(kids);
  }
}
