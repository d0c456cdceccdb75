/** Encoding what was decoded: a block never grows, and a block whose integers were all in
    shortest form comes back with its records stably sorted by field number at every level. */
module ProtoReencode {
  import opened Bytes
  import opened VarInt
  import opened ProtoTree
  import opened ProtoFields
  import opened ProtoWire

  lemma {:induction false} PushSize(kids: seq<Node>, n: Node)
    ensures PayloadSizeAll(Push(kids, n)) == PayloadSizeAll(kids) + PayloadSize(n)
  {
    var p := Push(kids, n);
    if kids == [] || n.fn < kids[0].fn {
      assert p[1..] == kids;
    } else {
      PushSize(kids[1..], n);
      assert p[0] == kids[0] && p[1..] == Push(kids[1..], n);
    }
  }

  lemma {:induction false} AddAllSize(kids: seq<Node>, ns: seq<Node>)
    ensures PayloadSizeAll(AddAll(kids, {}, ns)) == PayloadSizeAll(kids) + PayloadSizeAll(ns)
    decreases |ns|
  {
    if ns != [] {
      PushSize(kids, ns[0]);
      AddAllSize(Push(kids, ns[0]), ns[1..]);
    }
  }

  lemma KeyNotLonger(s: seq<byte>)
    requires ReadVarInt(s).error == 0
    ensures var k := ReadVarInt(s);
      |Digits(Key(k.value / 8, k.value % 8))| <= k.used
  {
    KeyRepacks(ReadVarInt(s).value);
    RereadNotLonger(s);
  }

  /** The value part of a node's size: everything past the key. */
  function ValueSize(n: Node): (v: nat)
    ensures PayloadSize(n) == |Digits(Key(n.fn, n.Tag()))| + v
  {
    match n
    case VarIntField(_, v, _) => |Digits(v)|
    case Fixed64(_, _, _) => 8
    case Fixed32(_, _, _) => 4
    case Text(_, c, _) => |Digits(|c|)| + |c|
    case Blob(_, c, _) => |Digits(|c|)| + |c|
    case Message(_, kids, _, _) => |Digits(PayloadSizeAll(kids))| + PayloadSizeAll(kids)
  }

  lemma BodyShape(fn: uint64, body: seq<byte>, hint: Option<Hint>)
    requires ReadBody(fn, body, hint).Some?
    ensures var n, p := ReadBody(fn, body, hint).value, Parse(body, Lookup(hint, fn));
      if n.Message? then p.error == 0 && n == Assemble(fn, p.nodes) else n == Text(fn, body, false) || n == Blob(fn, body, false)
  {
    assert ReadNested(fn, body, Lookup(hint, fn)).Message? ==> Parse(body, Lookup(hint, fn)).error == 0;
  }

  lemma {:induction false} DelimitedNotLonger(fn: uint64, s: seq<byte>, hint: Option<Hint>)
    requires ReadDelimited(fn, s, hint).Found?
    ensures var r := ReadDelimited(fn, s, hint);
      r.node.fn == fn && r.node.Tag() == TAG_LEN && ValueSize(r.node) <= r.used
    decreases |s|, 0
  {
    hide ReadRecord, ReadValue, ReadBody, ReadNested, Parse, ReadVarInt, Digits, AddAll, PayloadSizeAll;
    var l := ReadVarInt(s);
    var body := s[l.used..l.used + l.value];
    RereadNotLonger(s);
    var n := ReadBody(fn, body, hint).value;
    BodyShape(fn, body, hint);
    if n.Message? {
      var p := Parse(body, Lookup(hint, fn));
      BlockNotLonger(body, Lookup(hint, fn));
      AddAllSize([], p.nodes);
      assert PayloadSizeAll([]) == 0 by { NoFields(); }
      DigitsMonotone(PayloadSizeAll(n.kids), |body|);
    }
  }

  lemma NoFields()
    ensures PayloadSizeAll([]) == 0
  {
  }

  lemma {:induction false} ValueNotLonger(fn: uint64, tag: int, s: seq<byte>, hint: Option<Hint>)
    requires ReadValue(fn, tag, s, hint).Found?
    ensures var r := ReadValue(fn, tag, s, hint);
      r.node.fn == fn && r.node.Tag() == tag && ValueSize(r.node) <= r.used
    decreases |s|, 1
  {
    hide ReadRecord, ReadDelimited, Parse, ReadVarInt, Digits;
    if tag == TAG_VARINT {
      RereadNotLonger(s);
    } else if tag == TAG_LEN {
      DelimitedNotLonger(fn, s, hint);
    }
  }

  lemma {:induction false} BlockNotLonger(s: seq<byte>, hint: Option<Hint>)
    ensures PayloadSizeAll(Parse(s, hint).nodes) <= |s|
    decreases |s|, 2
  {
    hide ReadValue, ReadVarInt, Digits, ValueSize;
    if s != [] {
      var r, k := ReadRecord(s, hint), ReadVarInt(s);
      if !r.Bad? {
        BlockNotLonger(s[r.used..], hint);
        var rest := Parse(s[r.used..], hint).nodes;
        if r.Found? {
          var fn, tag := k.value / 8, k.value % 8;
          ValueNotLonger(fn, tag, s[k.used..], hint);
          KeyNotLonger(s);
          assert PayloadSize(r.node) <= r.used;
          assert ([r.node] + rest)[1..] == rest;
        }
      }
    }
  }

  /** Whatever was decoded into a fresh message, accepted or not, under any hint, encodes into
      no more bytes than were read. */
  lemma ReencodeNeverGrows(s: seq<byte>, hint: Option<Hint>)
    ensures |EncodeAll(DecodeInto([], {}, s, hint).kids)| <= |s|
  {
    var p := Parse(s, hint);
    BlockNotLonger(s, hint);
    AddAllSize([], p.nodes);
    EncodedSizeAll(AddAll([], {}, p.nodes));
  }

  /** Every integer the decoder kept was in shortest form, and no record was dropped. */
  ghost predicate ShortestValue(fn: uint64, tag: int, s: seq<byte>, hint: Option<Hint>)
    decreases |s|, 1
  {
    && ReadValue(fn, tag, s, hint).Found?
    && (tag == TAG_VARINT ==> Shortest(s))
    && (tag == TAG_LEN ==> ShortestDelimited(fn, s, hint))
  }

  ghost predicate ShortestDelimited(fn: uint64, s: seq<byte>, hint: Option<Hint>)
    decreases |s|, 0
  {
    var r, l := ReadDelimited(fn, s, hint), ReadVarInt(s);
    && r.Found?
    && Shortest(s)
    && (r.node.Message? ==> ShortestBlock(s[l.used..l.used + l.value], Lookup(hint, fn)))
  }

  ghost predicate ShortestBlock(s: seq<byte>, hint: Option<Hint>)
    decreases |s|, 2
  {
    s == [] || (
      var k := ReadVarInt(s);
      && Shortest(s)
      && ShortestValue(k.value / 8, k.value % 8, s[k.used..], hint)
      && ShortestBlock(s[ReadRecord(s, hint).used..], hint))
  }

  /** n with the fields of every message sorted stably, as AddObject leaves them. */
  function SortDeep(n: Node): Node {
    match n
    case Message(fn, kids, _, _) => Assemble(fn, SortDeepAll(kids))
    case _ => n
  }

  function SortDeepAll(kids: seq<Node>): (r: seq<Node>)
    ensures |r| == |kids|
  {
    if kids == [] then [] else [SortDeep(kids[0])] + SortDeepAll(kids[1..])
  }

  lemma {:induction false} ValueReencodes(fn: uint64, tag: int, s: seq<byte>, hint: Option<Hint>) returns (w: Node)
    requires ShortestValue(fn, tag, s, hint)
    ensures var r := ReadValue(fn, tag, s, hint);
      && r.Found? && w.fn == fn && w.Tag() == tag && SortDeep(w) == r.node
      && Encode(w) == Digits(Key(fn, tag)) + s[..r.used]
    decreases |s|, 1
  {
    w := ReadValue(fn, tag, s, hint).node;
    if tag == TAG_I64 {
      FromLittleEndianInverse(s[..8]);
    } else if tag == TAG_I32 {
      FromLittleEndianInverse(s[..4]);
    } else if tag == TAG_LEN {
      w := DelimitedReencodes(fn, s, hint);
    }
  }

  lemma {:induction false} DelimitedReencodes(fn: uint64, s: seq<byte>, hint: Option<Hint>) returns (w: Node)
    requires ShortestDelimited(fn, s, hint)
    ensures var r := ReadDelimited(fn, s, hint);
      && w.fn == fn && w.Tag() == TAG_LEN && SortDeep(w) == r.node
      && Encode(w) == Digits(Key(fn, TAG_LEN)) + s[..r.used]
    decreases |s|, 0
  {
    var n, body := DelimitedParts(fn, s, hint);
    hide ReadDelimited, ReadBody, Parse, ReadVarInt, Shortest, ShortestBlock, Digits, AddAll, Encode, EncodeAll, Lookup;
    BodyShape(fn, body, hint);
    w := n;
    if n.Message? {
      var kids := BlockReencodes(body, Lookup(hint, fn));
      w := Message(fn, kids, {}, false);
    }
    DelimitedStep(s, body, w);
  }

  lemma DelimitedParts(fn: uint64, s: seq<byte>, hint: Option<Hint>) returns (n: Node, body: seq<byte>)
    requires ShortestDelimited(fn, s, hint)
    ensures var l := ReadVarInt(s);
      && Shortest(s) && l.used + l.value <= |s| && body == s[l.used..l.used + l.value] && |body| < |s|
      && ReadBody(fn, body, hint) == Some(n) && ReadDelimited(fn, s, hint) == Found(n, l.used + l.value)
      && n.fn == fn && n.Tag() == TAG_LEN && (n.Message? ==> ShortestBlock(body, Lookup(hint, fn)))
  {
    hide ReadBody, ReadVarInt, ShortestBlock;
    var l := ReadVarInt(s);
    body := s[l.used..l.used + l.value];
    n := ReadBody(fn, body, hint).value;
  }

  lemma DelimitedStep(s: seq<byte>, body: seq<byte>, w: Node)
    requires var l := ReadVarInt(s);
      Shortest(s) && l.used + l.value <= |s| && body == s[l.used..l.used + l.value]
    requires match w
      case Message(_, kids, _, _) => EncodeAll(kids) == body
      case Text(_, c, _) => c == body
      case Blob(_, c, _) => c == body
      case _ => false
    ensures var l := ReadVarInt(s);
      Encode(w) == Digits(Key(w.fn, TAG_LEN)) + s[..l.used + l.value]
  {
    var l := ReadVarInt(s);
    if w.Message? {
      EncodedSizeAll(w.kids);
    }
    assert s[..l.used + l.value] == Digits(|body|) + body;
    var key := Digits(Key(w.fn, TAG_LEN));
    assert key + Digits(|body|) + body == key + (Digits(|body|) + body);
  }

  lemma BlockStep(s: seq<byte>, hint: Option<Hint>, n: Node)
    requires ShortestBlock(s, hint) && s != []
    requires var k := ReadVarInt(s);
      var r := ReadValue(k.value / 8, k.value % 8, s[k.used..], hint);
      r.Found? && Encode(n) == Digits(Key(k.value / 8, k.value % 8)) + s[k.used..][..r.used]
    ensures Encode(n) == s[..ReadRecord(s, hint).used]
  {
    hide ReadValue, Parse, ReadVarInt, Digits, ShortestValue, Encode;
    var k := ReadVarInt(s);
    var r := ReadValue(k.value / 8, k.value % 8, s[k.used..], hint);
    KeyRepacks(k.value);
    assert s[..k.used + r.used] == s[..k.used] + s[k.used..][..r.used];
  }

  /** The records of a shortest-form block, in wire order: encoding them gives the block back,
      and the decoder found exactly them, each message's fields sorted. */
  lemma {:induction false} BlockReencodes(s: seq<byte>, hint: Option<Hint>) returns (w: seq<Node>)
    requires ShortestBlock(s, hint)
    ensures Parse(s, hint) == Parsed(0, SortDeepAll(w))
    ensures EncodeAll(w) == s
    decreases |s|, 2
  {
    hide ReadValue, ReadVarInt, Digits, ShortestValue, Encode, SortDeep;
    w := [];
    if s != [] {
      var k := ReadVarInt(s);
      var n := ValueReencodes(k.value / 8, k.value % 8, s[k.used..], hint);
      var used := ReadRecord(s, hint).used;
      BlockStep(s, hint, n);
      var rest := BlockReencodes(s[used..], hint);
      w := [n] + rest;
      assert w[1..] == rest;
      assert s == s[..used] + s[used..];
    }
  }

  /** Re-encoding a shortest-form block gives the input with its records stably sorted by field
      number at every decoded level: w is the input's own record tree. */
  lemma ReencodeSorts(s: seq<byte>, hint: Option<Hint>) returns (w: seq<Node>)
    requires ShortestBlock(s, hint)
    ensures EncodeAll(w) == s
    ensures var b := DecodeInto([], {}, s, hint);
      && b.error == 0 && Sorted(b.kids)
      && (forall f: uint64 :: At(b.kids, f) == At(SortDeepAll(w), f))
  {
    w := BlockReencodes(s, hint);
    forall f: uint64
      ensures Sorted(AddAll([], {}, SortDeepAll(w)))
      ensures At(AddAll([], {}, SortDeepAll(w)), f) == At(SortDeepAll(w), f)
    {
      AddAllStablySorts([], SortDeepAll(w), f);
    }
    AddAllStablySorts([], SortDeepAll(w), 0);
  }
}
