/** The delta protocol end to end: edit a clean tree, send what is dirty, merge it into a
    replica.  One round is faithful exactly when the replica's declarations cover the edit. */
module ProtoSync {
  import opened Bytes
  import opened ProtoTree
  import opened ProtoFields
  import opened ProtoWire
  import opened ProtoRoundTrip
  import opened ProtoDelta

  // ----- when a merged delta reproduces the edited tree -----

  lemma PlainCons(h: Node, r: seq<Node>, b: seq<Node>)
    requires b != []
    ensures PlainAll([h] + r) == PlainAll(b) <==> Plain(h) == Plain(b[0]) && PlainAll(r) == PlainAll(b[1..])
  {
    assert ([h] + r)[1..] == r;
    var p, q := PlainAll([h] + r), PlainAll(b);
    assert p[0] == Plain(h) && p[1..] == PlainAll(r);
    assert q[0] == Plain(b[0]) && q[1..] == PlainAll(b[1..]);
    assert p == [p[0]] + p[1..] && q == [q[0]] + q[1..];
  }

  /** Pruning loses nothing exactly when everything is dirty. */
  lemma {:induction false} WholeIffNew(n: Node)
    requires n.dirty
    ensures Plain(Fresh(Prune(n))) == Plain(n) <==> AllNew(n)
    decreases n, 0
  {
    if n.Message? {
      WholeIffAllNew(n.kids);
    }
  }

  lemma {:induction false} WholeIffAllNew(kids: seq<Node>)
    ensures PlainAll(FreshAll(PruneAll(kids))) == PlainAll(kids) <==> forall k | k in kids :: AllNew(k)
    ensures |PruneAll(kids)| <= |kids|
    decreases kids, 1
  {
    if kids != [] {
      var k, rest := kids[0], kids[1..];
      assert k in kids && kids == [k] + rest;
      WholeIffAllNew(rest);
      DeltaCons(kids);
      if k.dirty {
        WholeIffNew(k);
        PlainCons(Fresh(Prune(k)), FreshAll(PruneAll(rest)), kids);
      } else {
        assert !AllNew(k);
        assert |PlainAll(FreshAll(PruneAll(kids)))| < |PlainAll(kids)|;
      }
    }
  }

  lemma {:induction false} SyncedHeadIff(a: seq<Node>, unique: set<uint64>, b: seq<Node>)
    requires b != [] && Related(a, b)
    ensures Plain(SyncedHead(a, unique, b)) == Plain(b[0]) <==> CoveredHead(a, unique, b[0])
    decreases b, 0
  {
    var n := b[0];
    if n.dirty {
      WholeIffNew(n);
      if Present(a, n) && a[0].Message? {
        assert RelatedNode(a[0], n);
        SyncedIff(a[0].kids, a[0].unique, n.kids);
      }
    } else {
      assert !AllNew(n);
      assert RelatedNode(a[0], n);
    }
  }

  /** The merged table equals the edited one exactly when the edit is covered. */
  lemma {:induction false} SyncedIff(a: seq<Node>, unique: set<uint64>, b: seq<Node>)
    requires Related(a, b)
    ensures PlainAll(Synced(a, unique, b)) == PlainAll(b) <==> Covered(a, unique, b)
    decreases b, 1
  {
    if b != [] {
      SyncedHeadIff(a, unique, b);
      SyncedIff(Behind(a, b[0]), unique, b[1..]);
      PlainCons(SyncedHead(a, unique, b), Synced(Behind(a, b[0]), unique, b[1..]), b);
    }
  }

  // ----- edits keep the relation to the replica -----

  lemma {:induction false} PlainRelatedNode(x: Node, y: Node)
    requires Plain(x) == Plain(y)
    ensures RelatedNode(x, y)
    decreases y, 0
  {
    if y.Message? {
      PlainRelated(x.kids, y.kids);
    }
  }

  lemma {:induction false} PlainRelated(a: seq<Node>, b: seq<Node>)
    requires PlainAll(a) == PlainAll(b)
    ensures Related(a, b)
    decreases b, 1
  {
    assert |a| == |b|;
    if b != [] {
      assert a == [a[0]] + a[1..];
      PlainCons(a[0], a[1..], b);
      PlainRelatedNode(a[0], b[0]);
      PlainRelated(a[1..], b[1..]);
    }
  }

  lemma {:induction false} CleanIsPlain(n: Node)
    ensures Plain(Clean(n)) == Plain(n)
    decreases n, 0
  {
    if n.Message? {
      CleanArePlain(n.kids);
    }
  }

  lemma {:induction false} CleanArePlain(kids: seq<Node>)
    ensures PlainAll(CleanAll(kids)) == PlainAll(kids)
    decreases kids, 1
  {
    if kids != [] {
      CleanIsPlain(kids[0]);
      CleanArePlain(kids[1..]);
      assert CleanAll(kids)[1..] == CleanAll(kids[1..]);
    }
  }

  lemma {:induction false} CleanUnique(kids: seq<Node>)
    requires Unique(kids)
    ensures Unique(CleanAll(kids))
    decreases kids
  {
    var c := CleanAll(kids);
    forall k | k in c ensures Packable(k.fn) && (k.Message? ==> Unique(k.kids)) {
      var i :| 0 <= i < |c| && c[i] == k;
      assert kids[i] in kids;
      if k.Message? {
        CleanUnique(kids[i].kids);
      }
    }
  }

  lemma {:induction false} LastUnique(kids: seq<Node>, f: uint64)
    requires Ascending(kids) && kids != []
    ensures Last(kids, f) == if kids[0].fn == f then Some(kids[0]) else if kids[0].fn > f then None else Last(kids[1..], f)
    ensures kids[0].fn == f ==> Last(kids[1..], f) == None
  {
  }

  /** What an edit may store under a field, seen from the replica. */
  predicate Admissible(a: seq<Node>, n: Node) {
    n.dirty && match Last(a, n.fn) { case Some(x) => RelatedNode(x, n) case None => AllNew(n) }
  }

  lemma {:induction false} UpsertRelated(a: seq<Node>, b: seq<Node>, n: Node)
    requires Unique(a) && Unique(b) && Related(a, b) && Admissible(a, n)
    ensures Related(a, Upsert(b, n))
    decreases b
  {
    hide RelatedNode, AllNew;
    if a != [] {
      LastUnique(a, n.fn);
    }
    if b != [] {
      HeadFacts(a, b);
      if n.fn < b[0].fn {
        assert ([n] + b)[1..] == b;
      } else if b[0].fn == n.fn {
        assert Upsert(b, n) == [n] + b[1..];
      } else {
        UpsertRelated(Behind(a, b[0]), b[1..], n);
        assert ([b[0]] + Upsert(b[1..], n))[1..] == Upsert(b[1..], n);
      }
    } else {
      assert [n][1..] == [];
    }
  }

  lemma {:induction false} UpsertUnique(b: seq<Node>, n: Node)
    requires Unique(b) && Packable(n.fn) && (n.Message? ==> Unique(n.kids))
    ensures Unique(Upsert(b, n))
    decreases |b|
  {
    UpsertAscends(b, n);
  }

  lemma {:induction false} UpsertAscends(b: seq<Node>, n: Node)
    requires Ascending(b)
    ensures Ascending(Upsert(b, n))
  {
    if b != [] && b[0].fn <= n.fn {
      if b[0].fn < n.fn {
        UpsertAscends(b[1..], n);
        var u := Upsert(b[1..], n);
        forall i | 0 <= i < |u| ensures b[0].fn < u[i].fn {
          assert u[i] in u;
        }
      }
    }
  }

  /** The last object of a field, in the replica and in the edited tree. */
  lemma {:induction false} RelatedLast(a: seq<Node>, b: seq<Node>, f: uint64)
    requires Unique(a) && Unique(b) && Related(a, b)
    ensures match (Last(a, f), Last(b, f))
      case (Some(x), Some(y)) => RelatedNode(x, y) && (x.Message? ==> Unique(x.kids) && Unique(y.kids))
      case (None, Some(y)) => AllNew(y) && (y.Message? ==> Unique(y.kids))
      case (Some(_), None) => false
      case (None, None) => true
    decreases b
  {
    hide RelatedNode, AllNew, Unique;
    if a != [] {
      UniqueTail(a);
      UniqueAscends(a);
      LastUnique(a, f);
    }
    if b != [] {
      UniqueTail(b);
      UniqueAscends(b);
      HeadFacts(a, b);
      LastUnique(b, f);
      if b[0].fn < f {
        RelatedLast(Behind(a, b[0]), b[1..], f);
      }
    }
  }

  lemma UniqueAscends(a: seq<Node>)
    requires Unique(a)
    ensures Ascending(a)
  {
  }

  lemma {:induction false} LastUpsert(b: seq<Node>, n: Node, f: uint64)
    requires Ascending(b)
    ensures Last(Upsert(b, n), f) == if f == n.fn then Some(n) else Last(b, f)
  {
    var u := Upsert(b, n);
    UpsertAscends(b, n);
    LastUnique(u, f);
    if b != [] {
      LastUnique(b, f);
      if n.fn < b[0].fn {
        assert u[1..] == b;
      } else if n.fn == b[0].fn {
        assert u == [n] + b[1..] && u[1..] == b[1..];
      } else {
        assert u[1..] == Upsert(b[1..], n);
        LastUpsert(b[1..], n, f);
      }
    } else {
      assert u[1..] == [];
    }
  }

  /** The leaf at the end of a field path. */
  function Get(kids: seq<Node>, path: seq<uint64>, f: uint64): Option<Node>
    decreases |path|
  {
    if path != [] then Get(SubMessage(kids, path[0]).kids, path[1..], f)
    else
      var l := Last(kids, f);
      if l.Some? && !l.value.Message? then l else None
  }

  lemma GetUpsert(kids: seq<Node>, n: Node, path: seq<uint64>, f: uint64)
    requires Ascending(kids)
    ensures Get(Upsert(kids, n), path, f) ==
      if path == [] then (if f != n.fn then Get(kids, path, f) else if n.Message? then None else Some(n))
      else if path[0] != n.fn then Get(kids, path, f)
      else Get(if n.Message? then n.kids else [], path[1..], f)
  {
    hide Upsert, Last;
    LastUpsert(kids, n, if path == [] then f else path[0]);
  }

  lemma SubUnique(kids: seq<Node>, f: uint64)
    requires Unique(kids)
    ensures Unique(SubMessage(kids, f).kids)
  {
  }

  lemma PathCons(a: seq<uint64>, b: seq<uint64>)
    requires a != [] && b != []
    ensures a == b <==> a[0] == b[0] && a[1..] == b[1..]
  {
    assert a == [a[0]] + a[1..] && b == [b[0]] + b[1..];
  }

  /** Setting a leaf changes that leaf and no other, wherever it is. */
  lemma {:induction false} SetLeafGet(kids: seq<Node>, path: seq<uint64>, leaf: Node, path': seq<uint64>, f: uint64)
    requires Unique(kids) && Fits(kids, path, leaf)
    ensures Get(SetLeaf(kids, path, leaf), path', f) ==
      if path' == path && f == leaf.fn then Some(Touched(leaf)) else Get(kids, path', f)
    decreases |path|
  {
    UniqueAscends(kids);
    hide Upsert, Unique, Last;
    if path == [] {
      GetUpsert(kids, Touched(leaf), path', f);
    } else {
      var m := SubMessage(kids, path[0]);
      SubUnique(kids, path[0]);
      GetUpsert(kids, Message(m.fn, SetLeaf(m.kids, path[1..], leaf), m.unique, true), path', f);
      if path' != [] {
        PathCons(path, path');
        SetLeafGet(m.kids, path[1..], leaf, path'[1..], f);
      } else {
        NoLeafThere(kids, path, leaf);
      }
    }
  }

  lemma NoLeafThere(kids: seq<Node>, path: seq<uint64>, leaf: Node)
    requires path != [] && Fits(kids, path, leaf)
    ensures Get(kids, [], path[0]) == None
  {
  }

  predicate AllAreNew(kids: seq<Node>) {
    forall k | k in kids :: AllNew(k)
  }

  lemma {:induction false} SetLeafNew(kids: seq<Node>, path: seq<uint64>, leaf: Node)
    requires AllAreNew(kids) && Fits(kids, path, leaf)
    ensures AllAreNew(SetLeaf(kids, path, leaf))
    decreases |path|
  {
    if path != [] {
      var m := SubMessage(kids, path[0]);
      SetLeafNew(m.kids, path[1..], leaf);
    }
  }

  lemma {:induction false} SetLeafUnique(b: seq<Node>, path: seq<uint64>, leaf: Node)
    requires Unique(b) && Fits(b, path, leaf)
    ensures Unique(SetLeaf(b, path, leaf))
    decreases |path|
  {
    if path == [] {
      UpsertUnique(b, Touched(leaf));
    } else {
      var m := SubMessage(b, path[0]);
      SetLeafUnique(m.kids, path[1..], leaf);
      UpsertUnique(b, Message(m.fn, SetLeaf(m.kids, path[1..], leaf), m.unique, true));
    }
  }

  /** Setting a leaf keeps the edited tree related to the replica. */
  lemma {:induction false} SetLeafRelated(a: seq<Node>, b: seq<Node>, path: seq<uint64>, leaf: Node)
    requires Unique(a) && Unique(b) && Related(a, b) && Fits(b, path, leaf)
    ensures Related(a, SetLeaf(b, path, leaf))
    decreases |path|
  {
    if path == [] {
      RelatedLast(a, b, leaf.fn);
      UpsertRelated(a, b, Touched(leaf));
    } else {
      var f, m := path[0], SubMessage(b, path[0]);
      var n := Message(f, SetLeaf(m.kids, path[1..], leaf), m.unique, true);
      RelatedLast(a, b, f);
      match Last(a, f) {
        case Some(x) =>
          InsideRelated(x, m);
          SetLeafRelated(x.kids, m.kids, path[1..], leaf);
        case None =>
          assert AllAreNew(m.kids);
          SetLeafNew(m.kids, path[1..], leaf);
      }
      UpsertRelated(a, b, n);
    }
  }

  lemma InsideRelated(x: Node, y: Node)
    requires RelatedNode(x, y) && y.Message?
    ensures Related(x.kids, y.kids)
  {
    if !y.dirty {
      PlainRelated(x.kids, y.kids);
    }
  }

  lemma {:induction false} SetAllRelated(a: seq<Node>, b: seq<Node>, ops: seq<Set>)
    requires Unique(a) && Unique(b) && Related(a, b) && FitsAll(b, ops)
    ensures Related(a, SetAll(b, ops)) && Unique(SetAll(b, ops))
    decreases |ops|
  {
    if ops != [] {
      SetLeafRelated(a, b, ops[0].path, ops[0].leaf);
      SetLeafUnique(b, ops[0].path, ops[0].leaf);
      SetAllRelated(a, SetLeaf(b, ops[0].path, ops[0].leaf), ops[1..]);
    }
  }

  // ----- the wire -----

  /** The hint names the kind of every length-delimited field of the tree. */
  predicate Names(hint: Option<Hint>, n: Node)
    decreases n
  {
    var child := Lookup(hint, n.fn);
    match n
    case Text(_, _, _) => child.Some? && child.value.kind.StringHint?
    case Blob(_, _, _) => child.Some? && child.value.kind.BytesHint?
    case Message(_, kids, _, _) => child.Some? && child.value.kind.MessageHint? && forall k | k in kids :: Names(child, k)
    case _ => true
  }

  predicate NamesAll(hint: Option<Hint>, kids: seq<Node>) {
    forall k | k in kids :: Names(hint, k)
  }

  lemma {:induction false} PrunedConforms(n: Node, hint: Option<Hint>)
    requires Names(hint, n) && Packable(n.fn) && (n.Message? ==> Unique(n.kids))
    ensures Conforms(Prune(n), hint) && Wellformed(Prune(n))
    decreases n, 0
  {
    if n.Message? {
      PrunedConformAll(n.kids, Lookup(hint, n.fn));
    }
  }

  lemma {:induction false} PrunedConformAll(kids: seq<Node>, hint: Option<Hint>)
    requires NamesAll(hint, kids) && Unique(kids)
    ensures ConformsAll(PruneAll(kids), hint) && WellformedAll(PruneAll(kids))
    decreases kids, 1
  {
    PruneFields(kids);
    if kids != [] {
      UniqueTail(kids);
      assert kids[0] in kids;
      PrunedConforms(kids[0], hint);
      PrunedConformAll(kids[1..], hint);
    }
  }

  /** What arrives: the pruned tree, decoded without error. */
  lemma DeltaArrives(edited: seq<Node>, hint: Option<Hint>)
    requires Unique(edited) && NamesAll(hint, edited) && DirtyPayloadSizeAll(edited) < TWO_64
    ensures DecodeInto([], {}, EncodeDirtyAll(edited), hint) == Block(0, FreshAll(PruneAll(edited)))
  {
    hide EncodeAll, EncodeDirtyAll, Names, Conforms, Wellformed, Parse;
    DirtyIsPrunedAll(edited);
    PrunedConformAll(edited, hint);
    DecodeInvertsEncode(PruneAll(edited), hint);
  }

  /** The tree after the edits, related to the replica of the tree before them. */
  lemma EditsRelate(t: seq<Node>, replica: seq<Node>, ops: seq<Set>)
    requires Unique(t) && Unique(replica) && PlainAll(replica) == PlainAll(t)
    requires FitsAll(CleanAll(t), ops)
    ensures Related(replica, SetAll(CleanAll(t), ops)) && Unique(SetAll(CleanAll(t), ops))
  {
    hide Related, SetAll;
    CleanArePlain(t);
    CleanUnique(t);
    PlainRelated(replica, CleanAll(t));
    SetAllRelated(replica, CleanAll(t), ops);
  }

  /** Merging the delta of a related table gives that table exactly when the edit is covered. */
  lemma DeltaMerged(replica: seq<Node>, unique: set<uint64>, edited: seq<Node>)
    requires Unique(replica) && Unique(edited) && Related(replica, edited)
    ensures var m := Merge(replica, unique, FreshAll(PruneAll(edited)));
      m.error == 0 && (PlainAll(m.kids) == PlainAll(edited) <==> Covered(replica, unique, edited))
  {
    hide Merge, Related, Covered, Unique, FreshAll, PruneAll, Synced, PlainAll;
    MergeDelta([], replica, unique, edited);
    assert [] + replica == replica;
    assert [] + Synced(replica, unique, edited) == Synced(replica, unique, edited);
    SyncedIff(replica, unique, edited);
  }

  /** One round of synchronisation.  Take a replica equal to t, t marked clean, any leaf edits
      to t, and a hint naming its length-delimited fields: the bytes of EncodeDirty decode
      without error, merging them succeeds, and the replica then equals the edited tree exactly
      when its unique declarations cover the edit. */
  lemma DeltaSync(t: seq<Node>, replica: seq<Node>, unique: set<uint64>, ops: seq<Set>, hint: Option<Hint>)
    requires Unique(t) && Unique(replica) && PlainAll(replica) == PlainAll(t)
    requires FitsAll(CleanAll(t), ops)
    requires NamesAll(hint, SetAll(CleanAll(t), ops))
    requires DirtyPayloadSizeAll(SetAll(CleanAll(t), ops)) < TWO_64
    ensures var edited := SetAll(CleanAll(t), ops);
      var received := DecodeInto([], {}, EncodeDirtyAll(edited), hint);
      var m := Merge(replica, unique, received.kids);
      && received.error == 0 && m.error == 0
      && (PlainAll(m.kids) == PlainAll(edited) <==> Covered(replica, unique, edited))
  {
    hide *;
    var edited := SetAll(CleanAll(t), ops);
    EditsRelate(t, replica, ops);
    DeltaArrives(edited, hint);
    DeltaMerged(replica, unique, edited);
  }

  /** The replica declares unique every field it holds, at every level. */
  predicate DeclaresAll(a: seq<Node>, unique: set<uint64>) {
    forall k | k in a :: k.fn in unique && (k.Message? ==> DeclaresAll(k.kids, k.unique))
  }

  /** Declaring everything unique covers every edit. */
  lemma {:induction false} DeclaredCovers(a: seq<Node>, unique: set<uint64>, b: seq<Node>)
    requires Related(a, b) && DeclaresAll(a, unique)
    ensures Covered(a, unique, b)
    decreases b
  {
    if b != [] {
      if Present(a, b[0]) {
        assert a[0] in a && RelatedNode(a[0], b[0]);
        if b[0].dirty && b[0].Message? {
          DeclaredCovers(a[0].kids, a[0].unique, b[0].kids);
        }
      }
      DeclaredCovers(Behind(a, b[0]), unique, b[1..]);
    }
  }

  /** The delta law: a replica that declares every field unique at every level equals the edited tree
      after one round. */
  lemma DeclaredSync(t: seq<Node>, replica: seq<Node>, unique: set<uint64>, ops: seq<Set>, hint: Option<Hint>)
    requires Unique(t) && Unique(replica) && PlainAll(replica) == PlainAll(t)
    requires FitsAll(CleanAll(t), ops)
    requires NamesAll(hint, SetAll(CleanAll(t), ops))
    requires DirtyPayloadSizeAll(SetAll(CleanAll(t), ops)) < TWO_64
    requires DeclaresAll(replica, unique)
    ensures var edited := SetAll(CleanAll(t), ops);
      var received := DecodeInto([], {}, EncodeDirtyAll(edited), hint);
      var m := Merge(replica, unique, received.kids);
      received.error == 0 && m.error == 0 && PlainAll(m.kids) == PlainAll(edited)
  {
    hide *;
    EditsRelate(t, replica, ops);
    DeltaSync(t, replica, unique, ops, hint);
    DeclaredCovers(replica, unique, SetAll(CleanAll(t), ops));
  }

  // ----- the second round -----

  lemma OneObject(n: Node)
    ensures PruneAll([n]) == if n.dirty then [Prune(n)] else []
    ensures FreshAll([n]) == [Fresh(n)] && CleanAll([n]) == [Clean(n)] && PlainAll([n]) == [Plain(n)]
  {
    assert [n][1..] == [];
  }

  lemma TwoObjects(x: Node, y: Node)
    ensures x.dirty && y.dirty ==> PruneAll([x, y]) == [Prune(x), Prune(y)]
    ensures FreshAll([x, y]) == [Fresh(x), Fresh(y)] && CleanAll([x, y]) == [Clean(x), Clean(y)]
    ensures PlainAll([x, y]) == [Plain(x), Plain(y)]
  {
    assert [x, y][1..] == [y] && [x, y][0] == x;
    OneObject(y);
    hide Prune, Fresh, Clean, Plain;
  }

  /** A message in a message, at fields 5 and 6. */
  function Nest(leaves: seq<Node>, dirty: bool): seq<Node> {
    [Message(5, [Message(6, leaves, {}, dirty)], {}, dirty)]
  }

  lemma SetNested(leaves: seq<Node>, leaf: Node, dirty: bool)
    ensures SetLeaf(Nest(leaves, dirty), [5, 6], leaf) == Nest(Upsert(leaves, Touched(leaf)), true)
  {
    assert [5, 6][1..] == [6] && [6][1..] == [];
    var m := SubMessage(Nest(leaves, dirty), 5);
    assert SetLeaf(m.kids, [6], leaf) == [Message(6, Upsert(leaves, Touched(leaf)), {}, true)];
  }

  lemma NestOps(leaves: seq<Node>)
    ensures PruneAll(leaves) != [] ==> FreshAll(PruneAll(Nest(leaves, true))) == Nest(FreshAll(PruneAll(leaves)), true)
    ensures CleanAll(Nest(leaves, true)) == Nest(CleanAll(leaves), false)
    ensures forall d :: PlainAll(Nest(leaves, d)) == Nest(PlainAll(leaves), false)
  {
    forall d ensures PlainAll(Nest(leaves, d)) == Nest(PlainAll(leaves), false) {
      OneObject(Message(6, leaves, {}, d));
      OneObject(Nest(leaves, d)[0]);
    }
    var inner := Message(6, leaves, {}, true);
    OneObject(inner);
    OneObject(Nest(leaves, true)[0]);
    OneObject(Prune(inner));
    OneObject(Prune(Nest(leaves, true)[0]));
  }

  lemma AdoptWhole(unique: set<uint64>, p: Node)
    ensures Merge([], unique, [p]) == Merged(0, [p])
  {
    assert [p] + [] == [p];
    MergeOne([], unique, p, []);
    var none: seq<Node> := [];
    assert none + none == none && none + [p] + none == [p];
    MergeNew(none, none, unique, p);
  }

  lemma FirstRoundAdopts(x: Node, y: Node)
    requires x.VarIntField? && y.VarIntField? && x.dirty && y.dirty
    ensures Merge([], {5}, FreshAll(PruneAll(Nest([x, y], true)))) == Merged(0, Nest([Clean(x), Clean(y)], true))
    ensures PlainAll(Nest([Clean(x), Clean(y)], true)) == PlainAll(Nest([x, y], true))
  {
    hide Merge, FreshAll, PruneAll, CleanAll, PlainAll;
    TwoObjects(x, y);
    TwoObjects(Clean(x), Clean(y));
    NestOps([x, y]);
    NestOps([Clean(x), Clean(y)]);
    AdoptWhole({5}, Nest([Clean(x), Clean(y)], true)[0]);
  }

  lemma SecondEdit(x: Node, y: Node, leaf: Node)
    requires x.VarIntField? && y.VarIntField? && leaf.VarIntField? && leaf.fn == x.fn < y.fn
    ensures SetLeaf(CleanAll(Nest([x, y], true)), [5, 6], leaf) == Nest([Touched(leaf), Clean(y)], true)
  {
    assert Upsert([Clean(x), Clean(y)], Touched(leaf)) == [Touched(leaf), Clean(y)];
    hide CleanAll, SetLeaf, Upsert;
    TwoObjects(x, y);
    NestOps([x, y]);
    SetNested([Clean(x), Clean(y)], leaf, false);
  }

  /** A message the replica adopted from a delta declares nothing, so a second delta can lose
      data.  A new message in a message with two leaves is sent, and the replica equals it; then
      one leaf is edited, and merging that delta does not make the replica equal to the tree,
      although the replica's top level declares the field unique. */
  lemma SecondRoundLosesFields(a: uint64, b: uint64, edit: uint64)
    ensures
      var sent := Nest([VarIntField(1, a, true), VarIntField(2, b, true)], true);
      var replica := Merge([], {5}, FreshAll(PruneAll(sent))).kids;
      var edited := SetLeaf(CleanAll(sent), [5, 6], VarIntField(1, edit, false));
      && PlainAll(replica) == PlainAll(sent)
      && PlainAll(Merge(replica, {5}, FreshAll(PruneAll(edited))).kids) != PlainAll(edited)
  {
    hide Merge, FreshAll, PruneAll, PlainAll, SetLeaf, CleanAll;
    var x, y, leaf := VarIntField(1, a, true), VarIntField(2, b, true), VarIntField(1, edit, false);
    FirstRoundAdopts(x, y);
    SecondEdit(x, y, leaf);
    LostEdit(x, y, leaf);
  }

  lemma LostEdit(x: Node, y: Node, leaf: Node)
    requires x.VarIntField? && y.VarIntField? && leaf.VarIntField? && leaf.fn == x.fn < y.fn && Packable(y.fn)
    ensures
      var replica, edited := Nest([Clean(x), Clean(y)], true), Nest([Touched(leaf), Clean(y)], true);
      PlainAll(Merge(replica, {5}, FreshAll(PruneAll(edited))).kids) != PlainAll(edited)
  {
    hide Merge, FreshAll, PruneAll, PlainAll, Covered, Related, Synced, Unique;
    var replica, edited := Nest([Clean(x), Clean(y)], true), Nest([Touched(leaf), Clean(y)], true);
    EditNotCovered([Clean(x), Clean(y)], [Touched(leaf), Clean(y)]);
    MergeDelta([], replica, {5}, edited);
    SyncedIff(replica, {5}, edited);
    assert [] + replica == replica;
    assert [] + Synced(replica, {5}, edited) == Synced(replica, {5}, edited);
  }

  lemma RelatedOne(x: Node, y: Node)
    requires RelatedNode(x, y)
    ensures Related([x], [y])
  {
    assert [x][1..] == [y][1..] == [];
    assert Related([x][1..], [y][1..]);
  }

  lemma EditNotCovered(kept: seq<Node>, changed: seq<Node>)
    requires |kept| == |changed| == 2 && kept[1] == changed[1] && !kept[1].dirty && kept[0].fn == changed[0].fn
    requires kept[0].fn < kept[1].fn && Packable(kept[1].fn) && changed[0].dirty
    requires !kept[0].Message? && !kept[1].Message? && !changed[0].Message?
    ensures Unique(Nest(kept, true)) && Unique(Nest(changed, true)) && Related(Nest(kept, true), Nest(changed, true))
    ensures !Covered(Nest(kept, true), {5}, Nest(changed, true))
  {
    assert kept[1..] == [kept[1]] && changed[1..] == [changed[1]];
    RelatedOne(kept[1], changed[1]);
    assert Related(kept, changed);
    var m, n := Message(6, kept, {}, true), Message(6, changed, {}, true);
    assert RelatedNode(m, n);
    RelatedOne(m, n);
    RelatedOne(Nest(kept, true)[0], Nest(changed, true)[0]);
    assert changed[1] in n.kids && !AllNew(changed[1]);
    assert !AllNew(n);
    assert !CoveredHead([m], {}, n);
    assert !Covered([m], {}, [n]);
    assert !CoveredHead(Nest(kept, true), {5}, Nest(changed, true)[0]);
  }

  // ----- what a clean tree is -----

  /** Only the dirty flags have changed: all of them are off. */
  lemma CleanForm(n: Node)
    ensures match n
      case VarIntField(fn, v, _) => Clean(n) == VarIntField(fn, v, false)
      case Fixed64(fn, v, _) => Clean(n) == Fixed64(fn, v, false)
      case Fixed32(fn, v, _) => Clean(n) == Fixed32(fn, v, false)
      case Text(fn, c, _) => Clean(n) == Text(fn, c, false)
      case Blob(fn, c, _) => Clean(n) == Blob(fn, c, false)
      case Message(fn, kids, unique, _) =>
        var m := Clean(n);
        && m.Message? && m.fn == fn && m.unique == unique && m.dirty == false && |m.kids| == |kids|
        && forall i :: 0 <= i < |kids| ==> m.kids[i] == Clean(kids[i])
  {
  }
}
