/** The virtual size and encoding members of the object classes, on the heap: they walk the
    objects and agree with the value each object stands for. */
module ProtoCodec {
  import opened Bytes
  import opened VarInt
  import opened ProtoTree
  import opened ProtoRoundTrip
  import opened ProtoObjects

  function Tag(kind: Kind): (t: int)
    ensures 0 <= t < 8
  {
    match kind
    case VarIntKind => TAG_VARINT
    case Fixed64Kind => TAG_I64
    case Fixed32Kind => TAG_I32
    case _ => TAG_LEN
  }

  lemma ChildFacts(o: Obj, S: set<Obj>, i: nat)
    requires o in S && Valid(S) && i < |o.objects|
    ensures o.tree.Message? && |o.tree.kids| == |o.objects|
    ensures o.objects[i] in S && o.objects[i].tree == o.tree.kids[i] && o.objects[i].isDirty == o.tree.kids[i].dirty
    ensures !o.objects[i].kind.RootMessage?
  {
    assert o.Linked(S) && o.Mirrored() && o.objects[i].Mirrored();
  }

  lemma SelfFacts(o: Obj, S: set<Obj>)
    requires o in S && Valid(S)
    ensures o.tree.fn == o.fieldNumber && o.tree.Tag() == Tag(o.kind)
    ensures o.IsMessage() <==> o.tree.Message?
    ensures o.tree.Message? ==> |o.tree.kids| == |o.objects|
    ensures o.tree.VarIntField? || o.tree.Fixed64? ==> o.tree.value == o.value
    ensures o.tree.Fixed32? ==> o.tree.value32 == o.value32
    ensures o.tree.Text? || o.tree.Blob? ==> o.tree.content == o.content
    ensures o.kind.VarIntKind? <==> o.tree.VarIntField?
    ensures o.kind.Fixed64Kind? <==> o.tree.Fixed64?
    ensures o.kind.Fixed32Kind? <==> o.tree.Fixed32?
  {
    assert o.Mirrored();
  }

  lemma {:induction false} WholeSnoc(kids: seq<Node>, i: nat)
    requires i < |kids|
    ensures PayloadSizeAll(kids[..i + 1]) == PayloadSizeAll(kids[..i]) + PayloadSize(kids[i])
    ensures EncodeAll(kids[..i + 1]) == EncodeAll(kids[..i]) + Encode(kids[i])
  {
    hide PayloadSize, Encode;
    if i > 0 {
      assert kids[..i + 1][1..] == kids[1..][..i] && kids[..i][1..] == kids[1..][..i - 1];
      WholeSnoc(kids[1..], i - 1);
    } else {
      assert kids[..1] == [kids[0]];
    }
  }

  lemma {:induction false} DirtySnoc(kids: seq<Node>, i: nat)
    requires i < |kids|
    ensures DirtyPayloadSizeAll(kids[..i + 1]) ==
      DirtyPayloadSizeAll(kids[..i]) + if kids[i].dirty then DirtyPayloadSize(kids[i]) else 0
    ensures kids[i].dirty ==> EncodeDirtyAll(kids[..i + 1]) == EncodeDirtyAll(kids[..i]) + EncodeDirty(kids[i])
    ensures !kids[i].dirty ==> EncodeDirtyAll(kids[..i + 1]) == EncodeDirtyAll(kids[..i])
  {
    hide DirtyPayloadSize, EncodeDirty;
    if i > 0 {
      assert kids[..i + 1][1..] == kids[1..][..i] && kids[..i][1..] == kids[1..][..i - 1];
      DirtySnoc(kids[1..], i - 1);
    } else {
      assert kids[..1] == [kids[0]];
    }
  }

  // ----- GetPayloadSize -----

  /** ObjectBaseMessage::GetPayloadSize: the sizes of the fields added up. */
  method GetFieldsSize(o: Obj, ghost S: set<Obj>) returns (size: nat)
    requires o in S && Valid(S) && o.IsMessage() && PayloadSizeAll(o.tree.kids) < TWO_64
    ensures size == PayloadSizeAll(o.tree.kids)
    decreases o.tree, 0
  {
    SelfFacts(o, S);
    ghost var kids := o.tree.kids;
    size := 0;
    for i := 0 to |o.objects|
      invariant size == PayloadSizeAll(kids[..i])
    {
      ChildFacts(o, S, i);
      WholeSnoc(kids, i);
      PartFits(kids, i);
      var part := GetPayloadSize(o.objects[i], S);
      size := size + part;
    }
    assert kids[..|kids|] == kids;
  }

  lemma {:induction false} PartFits(kids: seq<Node>, i: nat)
    requires i < |kids|
    ensures PayloadSize(kids[i]) <= PayloadSizeAll(kids)
  {
    if i > 0 {
      PartFits(kids[1..], i - 1);
    }
  }

  /** GetPayloadSize of a root message or of an embedded object, header included. */
  method GetPayloadSize(o: Obj, ghost S: set<Obj>) returns (size: nat)
    requires o in S && Valid(S) && PayloadSize(o.tree) < TWO_64
    ensures size == if o.kind.RootMessage? then PayloadSizeAll(o.tree.kids) else PayloadSize(o.tree)
    decreases o.tree, 1
  {
    SelfFacts(o, S);
    if o.kind.RootMessage? {
      size := GetFieldsSize(o, S);
      return;
    }
    var header := GetVarIntSize(Key(o.fieldNumber, Tag(o.kind)));
    if o.kind.VarIntKind? {
      var v := GetVarIntSize(o.value);
      size := header + v;
    } else if o.kind.Fixed64Kind? {
      size := header + 8;
    } else if o.kind.Fixed32Kind? {
      size := header + 4;
    } else if o.kind.EmbeddedMessage? {
      var embedded := GetFieldsSize(o, S);
      var prefix := GetVarIntSize(embedded);
      size := header + prefix + embedded;
    } else {
      var prefix := GetVarIntSize(|o.content|);
      size := header + prefix + |o.content|;
    }
  }

  // ----- Encode -----

  /** The memory image of an integer, appended byte by byte. */
  method AppendFixed(stream: seq<byte>, v: nat, width: nat) returns (out: seq<byte>)
    ensures out == stream + LittleEndian(v, width)
  {
    out := stream;
    var rest := v;
    for i := 0 to width
      invariant rest >= 0
      invariant out + LittleEndian(rest, width - i) == stream + LittleEndian(v, width)
    {
      assert LittleEndian(rest, width - i) == [rest % 256] + LittleEndian(rest / 256, width - i - 1);
      out := out + [rest % 256];
      rest := rest / 256;
    }
  }

  /** ObjectBaseMessage::Encode: every field in map order. */
  method EncodeFields(o: Obj, stream: seq<byte>, ghost S: set<Obj>) returns (out: seq<byte>)
    requires o in S && Valid(S) && o.IsMessage() && PayloadSizeAll(o.tree.kids) < TWO_64
    ensures out == stream + EncodeAll(o.tree.kids)
    decreases o.tree, 0
  {
    SelfFacts(o, S);
    ghost var kids := o.tree.kids;
    assert kids[..0] == [] && EncodeAll([]) == [];
    hide Valid, Encode, EncodeAll, PayloadSize, PayloadSizeAll;
    out := stream;
    for i := 0 to |o.objects|
      invariant out == stream + EncodeAll(kids[..i])
    {
      ChildFacts(o, S, i);
      WholeSnoc(kids, i);
      PartFits(kids, i);
      out := EncodeObject(o.objects[i], out, S);
      Reassociate(stream, EncodeAll(kids[..i]), Encode(kids[i]));
    }
    assert kids[..|kids|] == kids;
  }

  /** What follows an embedded object's key. */
  method EncodeValue(o: Obj, stream: seq<byte>, ghost S: set<Obj>) returns (out: seq<byte>)
    requires o in S && Valid(S) && PayloadSize(o.tree) < TWO_64 && !o.kind.RootMessage?
    ensures out == stream + Value(o.tree)
    decreases o.tree, 1
  {
    SelfFacts(o, S);
    if o.kind.VarIntKind? {
      out := EncodeVarInt(stream, o.value);
    } else if o.kind.Fixed64Kind? {
      out := AppendFixed(stream, o.value, 8);
    } else if o.kind.Fixed32Kind? {
      out := AppendFixed(stream, o.value32, 4);
    } else if o.kind.EmbeddedMessage? {
      var embedded := GetFieldsSize(o, S);
      hide Valid, EncodeAll, Digits;
      out := EncodeVarInt(stream, embedded);
      out := EncodeFields(o, out, S);
      Reassociate(stream, Digits(embedded), EncodeAll(o.tree.kids));
    } else {
      hide Valid, Digits;
      out := EncodeVarInt(stream, |o.content|);
      out := out + o.content;
      Reassociate(stream, Digits(|o.content|), o.content);
    }
  }

  lemma Reassociate(a: seq<byte>, b: seq<byte>, c: seq<byte>)
    ensures a + b + c == a + (b + c)
  {
  }

  /** Encode of a root message or of an embedded object: appends exactly its wire form. */
  method EncodeObject(o: Obj, stream: seq<byte>, ghost S: set<Obj>) returns (out: seq<byte>)
    requires o in S && Valid(S) && PayloadSize(o.tree) < TWO_64
    ensures out == stream + if o.kind.RootMessage? then EncodeAll(o.tree.kids) else Encode(o.tree)
    decreases o.tree, 2
  {
    SelfFacts(o, S);
    hide Valid, EncodeAll, Encode, Digits, Value;
    if o.kind.RootMessage? {
      RootFits(o.tree);
      out := EncodeFields(o, stream, S);
    } else {
      out := EncodeVarInt(stream, Key(o.fieldNumber, Tag(o.kind)));
      out := EncodeValue(o, out, S);
      EncodeIsKeyValue(o.tree);
      Reassociate(stream, Digits(Key(o.tree.fn, o.tree.Tag())), Value(o.tree));
    }
  }

  lemma RootFits(n: Node)
    requires n.Message?
    ensures PayloadSizeAll(n.kids) <= PayloadSize(n)
    ensures DirtyPayloadSizeAll(n.kids) <= DirtyPayloadSize(n)
  {
  }

  // ----- the dirty part -----

  lemma {:induction false} DirtyPartFits(kids: seq<Node>, i: nat)
    requires i < |kids| && kids[i].dirty
    ensures DirtyPayloadSize(kids[i]) <= DirtyPayloadSizeAll(kids)
  {
    if i > 0 {
      DirtyPartFits(kids[1..], i - 1);
    }
  }

  /** ObjectBaseMessage::GetDirtyPayloadSize. */
  method GetDirtyFieldsSize(o: Obj, ghost S: set<Obj>) returns (size: nat)
    requires o in S && Valid(S) && o.IsMessage() && DirtyPayloadSizeAll(o.tree.kids) < TWO_64
    ensures size == DirtyPayloadSizeAll(o.tree.kids)
    decreases o.tree, 0
  {
    SelfFacts(o, S);
    ghost var kids := o.tree.kids;
    size := 0;
    for i := 0 to |o.objects|
      invariant size == DirtyPayloadSizeAll(kids[..i])
    {
      ChildFacts(o, S, i);
      DirtySnoc(kids, i);
      if o.objects[i].isDirty {
        DirtyPartFits(kids, i);
        var part := GetDirtyPayloadSize(o.objects[i], S);
        size := size + part;
      }
    }
    assert kids[..|kids|] == kids;
  }

  /** GetDirtyPayloadSize: a leaf's whole size, a message's dirty fields with its header. */
  method GetDirtyPayloadSize(o: Obj, ghost S: set<Obj>) returns (size: nat)
    requires o in S && Valid(S) && DirtyPayloadSize(o.tree) < TWO_64
    ensures size == if o.kind.RootMessage? then DirtyPayloadSizeAll(o.tree.kids) else DirtyPayloadSize(o.tree)
    decreases o.tree, 1
  {
    SelfFacts(o, S);
    if o.kind.RootMessage? {
      size := GetDirtyFieldsSize(o, S);
    } else if o.kind.EmbeddedMessage? {
      var header := GetVarIntSize(Key(o.fieldNumber, TAG_LEN));
      var embedded := GetDirtyFieldsSize(o, S);
      var prefix := GetVarIntSize(embedded);
      size := header + prefix + embedded;
    } else {
      size := GetPayloadSize(o, S);
    }
  }

  /** ObjectBaseMessage::EncodeDirty: the dirty fields in map order. */
  method EncodeDirtyFields(o: Obj, stream: seq<byte>, ghost S: set<Obj>) returns (out: seq<byte>)
    requires o in S && Valid(S) && o.IsMessage() && DirtyPayloadSizeAll(o.tree.kids) < TWO_64
    ensures out == stream + EncodeDirtyAll(o.tree.kids)
    decreases o.tree, 0
  {
    SelfFacts(o, S);
    ghost var kids := o.tree.kids;
    assert kids[..0] == [] && EncodeDirtyAll([]) == [];
    hide Valid, EncodeDirty, EncodeDirtyAll, DirtyPayloadSize, DirtyPayloadSizeAll;
    out := stream;
    for i := 0 to |o.objects|
      invariant out == stream + EncodeDirtyAll(kids[..i])
    {
      ChildFacts(o, S, i);
      DirtySnoc(kids, i);
      if o.objects[i].isDirty {
        DirtyPartFits(kids, i);
        out := EncodeDirtyObject(o.objects[i], out, S);
        Reassociate(stream, EncodeDirtyAll(kids[..i]), EncodeDirty(kids[i]));
      }
    }
    assert kids[..|kids|] == kids;
  }

  /** EncodeDirty: appends exactly the wire form of what is dirty. */
  method EncodeDirtyObject(o: Obj, stream: seq<byte>, ghost S: set<Obj>) returns (out: seq<byte>)
    requires o in S && Valid(S) && DirtyPayloadSize(o.tree) < TWO_64
    ensures out == stream + if o.kind.RootMessage? then EncodeDirtyAll(o.tree.kids) else EncodeDirty(o.tree)
    decreases o.tree, 1
  {
    SelfFacts(o, S);
    if o.kind.RootMessage? {
      out := EncodeDirtyFields(o, stream, S);
    } else if o.kind.EmbeddedMessage? {
      var embedded := GetDirtyFieldsSize(o, S);
      hide Valid, EncodeDirtyAll, Digits;
      out := EncodeVarInt(stream, Key(o.fieldNumber, TAG_LEN));
      out := EncodeVarInt(out, embedded);
      out := EncodeDirtyFields(o, out, S);
      ghost var key, len, body := Digits(Key(o.fieldNumber, TAG_LEN)), Digits(embedded), EncodeDirtyAll(o.tree.kids);
      assert stream + key + len + body == stream + (key + len + body);
    } else {
      out := EncodeObject(o, stream, S);
    }
  }

  // ----- dirtiness in the heap -----

  /** A valid heap is upward closed as a value: the walk along the parent pointers is enough
      for the encoder that walks down to find every dirty leaf. */
  lemma {:induction false} HeapUpClosed(o: Obj, S: set<Obj>)
    requires o in S && Valid(S)
    ensures UpClosed(o.tree)
    decreases o.tree
  {
    if o.tree.Message? {
      SelfFacts(o, S);
      forall k | k in o.tree.kids
        ensures (k.dirty ==> o.tree.dirty) && UpClosed(k)
      {
        var i :| 0 <= i < |o.tree.kids| && o.tree.kids[i] == k;
        ChildFacts(o, S, i);
        assert o.Linked(S) && o.objects[i].DirtyUp() && o.Mirrored();
        HeapUpClosed(o.objects[i], S);
      }
    }
  }

  /** In every valid heap, what EncodeDirty sends of a root decodes to the tree pruned to its
      dirty objects: every dirty leaf and no clean one. */
  lemma DirtyLeavesSent(o: Obj, S: set<Obj>)
    requires o in S && Valid(S) && o.kind.RootMessage?
    ensures o.tree.Message? && EncodeDirtyAll(o.tree.kids) == EncodeAll(PruneAll(o.tree.kids))
    ensures Leaves(PruneAll(o.tree.kids)) == DirtyLeaves(o.tree.kids)
  {
    SelfFacts(o, S);
    HeapUpClosed(o, S);
    DirtyIsPrunedAll(o.tree.kids);
    PruneKeepsDirtyLeaves(o.tree.kids);
  }
}
