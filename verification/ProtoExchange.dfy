/** Settings on their way from one tree to another: load, edit, flush. */
module ProtoExchange {
  import opened Bytes
  import opened ProtoTree
  import opened ProtoWire
  import opened ProtoRoundTrip
  import opened ProtoDelta
  import opened ProtoSync
  import opened ProtoObjects
  import opened ProtoDecoder
  import opened ProtoMerge
  import opened ProtoSettings

  /** LoadData: what the data decodes to is merged in, and the tree marked clean; neither return code
      stops the caller. */
  method LoadData(root: Obj, data: seq<byte>, hint: Option<Hint>, ghost S: set<Obj>)
      returns (decoded: int, merged: int, ghost W: set<Obj>)
    requires root in S && Valid(S) && root.kind.RootMessage? && root.tree.Message?
    modifies S`depth, S`parent, S`objects, S`isDirty, S`tree
    ensures var received := DecodeInto([], {}, data, hint);
      && decoded == received.error
      && merged == Merge(old(root.tree.kids), root.fieldsUnique, received.kids).error
      && (merged == 0 ==>
            && S <= W && fresh(W - S) && Valid(W)
            && root.tree == Message(root.fieldNumber, CleanAll(Merge(old(root.tree.kids), root.fieldsUnique, received.kids).kids),
                                    root.fieldsUnique, false))
    ensures root.fieldsUnique == {} ==> merged == 0
  {
    hide *;
    UndeclaredNeverFails(root.tree.kids, DecodeInto([], {}, data, hint).kids);
    var message := new Obj(RootMessage, 0);
    RootHasNoParent(root, S);
    RootIsMessage(message);
    ghost var U;
    W := S;
    decoded, U := DecodeBlock(message, data, hint, {message});
    FreshBlock(data, hint);
    ValidMessage(message, U);
    merged := MergeWith(root, message, S, U);
    if merged == 0 {
      W := S + U;
      SettledRoot(root, W);
      CleanMessage(root.tree);
      RootHasNoParent(root, W);
      root.MarkClean(W);
      root.CleanRoot(W);
    }
  }

  /** A new block holds what the data decodes to. */
  lemma FreshBlock(data: seq<byte>, hint: Option<Hint>)
    ensures var g := Grown(Blank(RootMessage, 0), Parse(data, hint).nodes);
      g.Message? && g.kids == DecodeInto([], {}, data, hint).kids
    ensures Parse(data, hint).error == DecodeInto([], {}, data, hint).error && Blank(RootMessage, 0).Message?
  {
  }

  lemma ValidMessage(message: Obj, U: set<Obj>)
    requires message in U && Valid(U) && message.kind.RootMessage?
    ensures message.tree.Message? && message.IsMessage()
  {
    assert message.Mirrored();
  }

  lemma CleanMessage(n: Node)
    requires n.Message?
    ensures Clean(n) == Message(n.fn, CleanAll(n.kids), n.unique, false)
  {
  }

  lemma RootIsMessage(root: Obj)
    requires root.kind.RootMessage?
    ensures root.IsMessage()
  {
  }

  /** One round between two programs: edits of a clean tree, a flush, and a load on the other side.  A
      replica that was equal and declares every field unique is equal again. */
  method Synchronise(root: Obj, replica: Obj, ops: seq<Set>, hint: Option<Hint>, ghost S: set<Obj>, ghost Q: set<Obj>)
      returns (merged: int, ghost W: set<Obj>, ghost V: set<Obj>)
    requires root in S && Valid(S) && root.kind.RootMessage? && root.tree.Message?
    requires replica in Q && Valid(Q) && replica.kind.RootMessage? && replica.tree.Message? && S !! Q
    requires root.tree.kids == CleanAll(root.tree.kids) && Unique(root.tree.kids)
    requires Unique(replica.tree.kids) && PlainAll(replica.tree.kids) == PlainAll(root.tree.kids)
    requires DeclaresAll(replica.tree.kids, replica.fieldsUnique)
    requires ReadyAll(root.tree.kids, ops) && FitsAll(root.tree.kids, ops)
    requires NamesAll(hint, SetAll(root.tree.kids, ops)) && DirtyPayloadSizeAll(SetAll(root.tree.kids, ops)) < TWO_64
    modifies (S + Q)`depth, (S + Q)`parent, (S + Q)`objects, (S + Q)`isDirty, (S + Q)`tree, S`value, S`value32, S`content
    ensures merged == 0 && S <= W && Valid(W) && Q <= V && Valid(V) && root.tree.Message? && replica.tree.Message?
    ensures root.tree.kids == CleanAll(SetAll(old(root.tree.kids), ops))
    ensures PlainAll(replica.tree.kids) == PlainAll(root.tree.kids)
  {
    hide *;
    ghost var t, kids := root.tree.kids, replica.tree.kids;
    DeclaredSync(t, kids, replica.fieldsUnique, ops, hint);
    CleanArePlain(SetAll(t, ops));
    RootIsMessage(root);
    W := Edit(root, ops, S);
    CleanMessage(root.tree);
    var data := FlushSettings(root, W);
    var decoded;
    decoded, merged, V := LoadData(replica, data, hint, Q);
    CleanArePlain(Merge(kids, replica.fieldsUnique, DecodeInto([], {}, data, hint).kids).kids);
  }
}
