/** DecodeBlock on the heap: reads records off the input and adds an object for each. */
module ProtoDecoder {
  import opened Bytes
  import opened VarInt
  import opened ProtoTree
  import opened ProtoFields
  import opened ProtoWire
  import opened ProtoObjects

  /** A byte string read as text has no ASCII control character. */
  method IsPrintable(s: seq<byte>) returns (isString: bool)
    ensures isString == Printable(s)
  {
    isString := true;
    var i := 0;
    while i < |s| && isString
      invariant 0 <= i <= |s|
      invariant isString <==> forall j :: 0 <= j < i ==> s[j] >= 32 && s[j] != 127
    {
      if s[i] < 32 || s[i] == 127 {
        isString := false;
      }
      i := i + 1;
    }
  }

  /** The integer whose little-endian image stands at the front of s. */
  method ReadFixed(s: seq<byte>) returns (v: uint64)
    requires |s| <= 8
    ensures v == FromLittleEndian(s)
    ensures |s| <= 4 ==> v < 0x1_0000_0000
  {
    ImageBound(s);
    var sum: nat;
    sum := SumImage(s);
    return sum;
  }

  lemma ImageBound(s: seq<byte>)
    requires |s| <= 8
    ensures FromLittleEndian(s) < TWO_64
    ensures |s| <= 4 ==> FromLittleEndian(s) < 0x1_0000_0000
  {
    Pow256Values();
    FromLittleEndianBound(s);
    Pow256Monotone(|s|, 8);
    if |s| <= 4 {
      Pow256Monotone(|s|, 4);
    }
  }

  lemma {:induction false} Pow256Monotone(a: nat, b: nat)
    requires a <= b
    ensures Pow256(a) <= Pow256(b)
  {
    if a < b {
      Pow256Monotone(a, b - 1);
    }
  }

  method SumImage(s: seq<byte>) returns (v: nat)
    ensures v == FromLittleEndian(s)
  {
    v := 0;
    var i := |s|;
    while i > 0
      invariant 0 <= i <= |s| && v == FromLittleEndian(s[i..])
    {
      i := i - 1;
      assert s[i..][1..] == s[i + 1..];
      v := s[i] + 256 * v;
    }
    assert s[0..] == s;
  }

  /** The object for the bytes of a length-delimited field, or none when its hint says neither
      bytes, string nor message. */
  method ReadBodyObject(fn: uint64, body: seq<byte>, hint: Option<Hint>) returns (ob: Obj?, ghost U: set<Obj>)
    ensures fresh(U) && Valid(U)
    ensures match ReadBody(fn, body, hint)
      case None => ob == null
      case Some(n) => ob != null && ob in U && ob.parent == null && !ob.kind.RootMessage? && ob.tree == n
    decreases |body|, 6
  {
    var isString := IsPrintable(body);
    var childHint := Lookup(hint, fn);
    U := {};
    if childHint.Some? {
      var kind := childHint.value.kind;
      if kind.BytesHint? {
        ob := new Obj.Storage(BytesKind, fn, body);
        U := {ob};
      } else if kind.StringHint? {
        ob := new Obj.Storage(StringKind, fn, body);
        U := {ob};
      } else if kind.MessageHint? {
        ob, U := ReadNestedObject(fn, body, childHint);
      } else {
        ob := null;
      }
    } else if isString {
      ob := new Obj.Storage(StringKind, fn, body);
      U := {ob};
    } else {
      ob, U := ReadNestedObject(fn, body, None);
    }
  }

  /** An embedded message decoded from the bytes, or the bytes themselves if that fails. */
  method ReadNestedObject(fn: uint64, body: seq<byte>, hint: Option<Hint>) returns (ob: Obj, ghost U: set<Obj>)
    ensures fresh(U) && Valid(U) && ob in U && ob.parent == null && !ob.kind.RootMessage?
    ensures ob.tree == ReadNested(fn, body, hint)
    decreases |body|, 5
  {
    var child := new Obj(EmbeddedMessage, fn);
    var code;
    code, U := DecodeBlock(child, body, hint, {child});
    if code == 0 {
      ob := child;
    } else {
      ob := new Obj.Storage(BytesKind, fn, body);
      U := {ob};
    }
  }

  /** The object for a length-delimited value, and how many bytes it took. */
  method ReadDelimitedObject(fn: uint64, data: seq<byte>, hint: Option<Hint>)
      returns (code: int, ob: Obj?, used: nat, ghost U: set<Obj>)
    ensures fresh(U) && Valid(U)
    ensures Delivers(ReadDelimited(fn, data, hint), code, ob, used, U)
    decreases |data|, 0
  {
    hide ReadBody;
    var length, e, next := DecodeVarInt(data, 0);
    assert data[0..] == data;
    if e != 0 {
      return e, null, 0, {};
    }
    if next + length > |data| {
      return OUT_OF_BOUNDS, null, 0, {};
    }
    ob, U := ReadBodyObject(fn, data[next..next + length], hint);
    code, used := 0, next + length;
  }

  /** What the readers hand back for a record: its error, or the object it stands for. */
  ghost predicate Delivers(r: Record, code: int, ob: Obj?, used: nat, U: set<Obj>)
    reads ob, U
  {
    match r
    case Bad(e) => code == e
    case Dropped(n) => code == 0 && ob == null && used == n
    case Found(node, n) =>
      code == 0 && used == n && ob != null && ob in U && ob.parent == null && !ob.kind.RootMessage? && ob.tree == node
  }

  /** The object for one value, and how many bytes it took. */
  method ReadValueObject(fn: uint64, tag: int, data: seq<byte>, hint: Option<Hint>)
      returns (code: int, ob: Obj?, used: nat, ghost U: set<Obj>)
    ensures fresh(U) && Valid(U)
    ensures Delivers(ReadValue(fn, tag, data, hint), code, ob, used, U)
    decreases |data|, 1
  {
    hide ReadDelimited;
    code, ob, used, U := 0, null, 0, {};
    if tag == TAG_VARINT {
      var v, e, next := DecodeVarInt(data, 0);
      assert data[0..] == data;
      if e != 0 {
        return e, null, 0, {};
      }
      ob := new Obj.Integer(VarIntKind, fn, v);
      used, U := next, {ob};
    } else if tag == TAG_LEN {
      code, ob, used, U := ReadDelimitedObject(fn, data, hint);
    } else if tag == TAG_I64 {
      if 8 > |data| {
        return OUT_OF_BOUNDS, null, 0, {};
      }
      var v := ReadFixed(data[..8]);
      ob := new Obj.Integer(Fixed64Kind, fn, v);
      used, U := 8, {ob};
    } else if tag == TAG_I32 {
      if 4 > |data| {
        return OUT_OF_BOUNDS, null, 0, {};
      }
      var v := ReadFixed(data[..4]);
      ob := new Obj.Integer(Fixed32Kind, fn, v);
      used, U := 4, {ob};
    } else {
      return UNKNOWN_TAG, null, 0, {};
    }
  }

  /** The value a message has after records were added to it. */
  function Grown(t: Node, nodes: seq<Node>): Node
    requires t.Message?
  {
    Message(t.fn, AddAll(t.kids, t.unique, nodes), t.unique, t.dirty || nodes != [])
  }

  /** The block's value after one turn of the loop. */
  function After(t: Node, r: Record): Node
    requires t.Message?
  {
    if r.Found? then Grown(t, [r.node]) else t
  }

  lemma GrownTwice(t: Node, a: seq<Node>, b: seq<Node>)
    requires t.Message?
    ensures Grown(Grown(t, a), b) == Grown(t, a + b)
  {
    AddAllConcat(t.kids, t.unique, a, b);
  }

  lemma MessageValue(block: Obj, S: set<Obj>)
    requires block in S && Valid(S) && block.IsMessage()
    ensures block.tree.Message? && block.tree.fn == block.fieldNumber
    ensures block.tree.unique == block.fieldsUnique && block.tree.dirty == block.isDirty
  {
    assert block.Mirrored();
  }

  /** Adds one object to the block. */
  method AddOne(block: Obj, ob: Obj, ghost S: set<Obj>, ghost U: set<Obj>)
    requires block in S && Valid(S) && block.IsMessage()
    requires ob in U && ob.parent == null && !ob.kind.RootMessage? && Valid(U) && S !! U
    modifies U`depth, (S + U)`parent, block`objects, (S + U)`isDirty, (S + U)`tree
    ensures Valid(S + U) && block.parent == old(block.parent)
    ensures old(block.tree).Message? && block.tree == Grown(old(block.tree), [old(ob.tree)])
  {
    MessageValue(block, S);
    ghost var kids, n := block.tree.kids, ob.tree;
    assert AddAll(kids, block.fieldsUnique, [n]) == Add(kids, block.fieldsUnique, n) by {
      assert [n][1..] == [];
    }
    hide Valid, Above, AddAll, Add;
    var code := block.AddObject(ob, S, U);
    MessageValue(block, S + U);
  }

  /** One turn of the decoding loop. */
  method DecodeRecord(block: Obj, data: seq<byte>, hint: Option<Hint>, ghost S: set<Obj>)
      returns (code: int, used: nat, ghost W: set<Obj>)
    requires block in S && Valid(S) && block.IsMessage()
    modifies S`depth, S`parent, S`objects, S`isDirty, S`tree
    ensures S <= W && fresh(W - S) && Valid(W) && block.parent == old(block.parent)
    ensures old(block.tree).Message?
    ensures var r := ReadRecord(data, hint);
      && (r.Bad? ==> code == r.error)
      && (!r.Bad? ==> code == 0 && used == r.used)
      && block.tree == After(old(block.tree), r)
    decreases |data|, 3
  {
    hide *;
    MessageValue(block, S);
    W := S;
    var ob;
    ghost var U;
    code, ob, used, U := ReadRecordObject(data, hint);
    DeliveredRecord(block.tree, ReadRecord(data, hint), code, ob, used, U);
    if code == 0 && ob != null {
      AddOne(block, ob, S, U);
      W := S + U;
    }
  }

  /** What a delivered record makes of the block's value. */
  lemma DeliveredRecord(t: Node, r: Record, code: int, ob: Obj?, used: nat, U: set<Obj>)
    requires t.Message? && Delivers(r, code, ob, used, U) && (r.Bad? ==> r.error != 0)
    ensures (r.Bad? ==> code == r.error) && (!r.Bad? ==> code == 0 && used == r.used)
    ensures code == 0 && ob != null ==>
      ob in U && ob.parent == null && !ob.kind.RootMessage? && After(t, r) == Grown(t, [ob.tree])
    ensures !(code == 0 && ob != null) ==> After(t, r) == t
  {
  }

  /** The object for the record at the front of the data. */
  method ReadRecordObject(data: seq<byte>, hint: Option<Hint>) returns (code: int, ob: Obj?, used: nat, ghost U: set<Obj>)
    ensures fresh(U) && Valid(U)
    ensures Delivers(ReadRecord(data, hint), code, ob, used, U)
    decreases |data|, 2
  {
    hide ReadValue, Valid;
    var key, e, next := DecodeVarInt(data, 0);
    assert data[0..] == data;
    if e != 0 {
      NothingIsValid();
      return e, null, 0, {};
    }
    var c, o, n, V := ReadValueObject(key / 8, key % 8, data[next..], hint);
    return c, o, next + n, V;
  }

  lemma NothingIsValid()
    ensures Valid({})
  {
  }

  /** DecodeBlock: adds an object to the block for every record, until the input ends or the
      first error. */
  method DecodeBlock(block: Obj, data: seq<byte>, hint: Option<Hint>, ghost S: set<Obj>) returns (code: int, ghost W: set<Obj>)
    requires block in S && Valid(S) && block.IsMessage()
    modifies S`depth, S`parent, S`objects, S`isDirty, S`tree
    ensures S <= W && fresh(W - S) && Valid(W) && block.parent == old(block.parent)
    ensures old(block.tree).Message?
    ensures code == Parse(data, hint).error
    ensures block.tree == Grown(old(block.tree), Parse(data, hint).nodes)
    decreases |data|, 4
  {
    hide *;
    MessageValue(block, S);
    code, W := 0, S;
    var offset: nat := 0;
    ghost var t0 := block.tree;
    FromTheStart(t0, data, hint);
    while offset < |data|
      invariant offset <= |data| && S <= W && fresh(W - S) && Valid(W)
      invariant block.parent == old(block.parent)
      invariant block.tree.Message? && Pending(t0, block.tree, data, offset, hint)
    {
      ghost var t := block.tree;
      var c, used, W' := DecodeRecord(block, data[offset..], hint, W);
      W := W';
      PendingStep(t0, t, data, offset, hint);
      if c != 0 {
        return c, W;
      }
      offset := offset + used;
    }
    NothingPending(t0, block.tree, data, offset, hint);
  }

  /** What is left of the input completes t to what the whole input makes of t0. */
  ghost predicate Pending(t0: Node, t: Node, data: seq<byte>, offset: nat, hint: Option<Hint>)
    requires t0.Message? && t.Message? && offset <= |data|
  {
    var whole, rest := Parse(data, hint), Parse(data[offset..], hint);
    whole.error == rest.error && Grown(t0, whole.nodes) == Grown(t, rest.nodes)
  }

  lemma FromTheStart(t0: Node, data: seq<byte>, hint: Option<Hint>)
    requires t0.Message?
    ensures Pending(t0, t0, data, 0, hint)
  {
    assert data[0..] == data;
  }

  lemma NothingPending(t0: Node, t: Node, data: seq<byte>, offset: nat, hint: Option<Hint>)
    requires t0.Message? && t.Message? && offset == |data| && Pending(t0, t, data, offset, hint)
    ensures Parse(data, hint).error == 0 && t == Grown(t0, Parse(data, hint).nodes)
  {
    assert data[offset..] == [];
  }

  lemma PendingStep(t0: Node, t: Node, data: seq<byte>, offset: nat, hint: Option<Hint>)
    requires t0.Message? && t.Message? && offset < |data| && Pending(t0, t, data, offset, hint)
    ensures var r := ReadRecord(data[offset..], hint);
      if r.Bad? then Parse(data, hint).error == r.error != 0 && After(t, r) == t == Grown(t0, Parse(data, hint).nodes)
      else offset + r.used <= |data| && After(t, r).Message? && Pending(t0, After(t, r), data, offset + r.used, hint)
  {
    hide *;
    var rest := data[offset..];
    var r := ReadRecord(rest, hint);
    ParseStep(rest, hint);
    if r.Bad? {
      PendingBad(t0, t, data, offset, hint, r);
    } else {
      Onward(data, offset, r.used);
      PendingGood(t0, t, data, offset, hint, r);
    }
  }

  lemma Onward(data: seq<byte>, offset: nat, used: nat)
    requires offset + used <= |data|
    ensures data[offset..][used..] == data[offset + used..]
  {
  }

  lemma PendingBad(t0: Node, t: Node, data: seq<byte>, offset: nat, hint: Option<Hint>, r: Record)
    requires t0.Message? && t.Message? && offset < |data| && Pending(t0, t, data, offset, hint) && r.Bad?
    requires Parse(data[offset..], hint).error == r.error != 0 && Parse(data[offset..], hint).nodes == []
    ensures Parse(data, hint).error == r.error && After(t, r) == t == Grown(t0, Parse(data, hint).nodes)
  {
    GrownNothing(t);
    hide Parse, Grown;
  }

  lemma PendingGood(t0: Node, t: Node, data: seq<byte>, offset: nat, hint: Option<Hint>, r: Record)
    requires t0.Message? && t.Message? && offset < |data| && Pending(t0, t, data, offset, hint) && !r.Bad?
    requires offset + r.used <= |data|
    requires var p, q := Parse(data[offset..], hint), Parse(data[offset + r.used..], hint);
      p.error == q.error && p.nodes == (if r.Found? then [r.node] else []) + q.nodes
    ensures After(t, r).Message? && Pending(t0, After(t, r), data, offset + r.used, hint)
  {
    var q := Parse(data[offset + r.used..], hint);
    hide Parse;
    if r.Found? {
      GrownTwice(t, [r.node], q.nodes);
      GrownIsMessage(t, [r.node]);
    } else {
      assert [] + q.nodes == q.nodes;
    }
    hide Grown;
  }

  lemma ParseStep(s: seq<byte>, hint: Option<Hint>)
    requires s != []
    ensures var r := ReadRecord(s, hint);
      if r.Bad? then Parse(s, hint).error == r.error != 0 && Parse(s, hint).nodes == []
      else
        var p := Parse(s[r.used..], hint);
        Parse(s, hint).error == p.error && Parse(s, hint).nodes == (if r.Found? then [r.node] else []) + p.nodes
  {
    hide ReadRecord;
  }

  lemma GrownNothing(t: Node)
    requires t.Message?
    ensures Grown(t, []) == t
  {
  }

  lemma GrownIsMessage(t: Node, nodes: seq<Node>)
    requires t.Message?
    ensures Grown(t, nodes).Message?
  {
  }
}
