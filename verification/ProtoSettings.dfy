/** Editing a settings tree on the heap the way its users do: ask for a message by field number,
    creating it if it is missing, go on inside it, and set a leaf at the end. */
module ProtoSettings {
  import opened Bytes
  import opened ProtoTree
  import opened ProtoFields
  import opened ProtoDelta
  import opened ProtoObjects
  import opened ProtoCodec

  lemma {:induction false} UpsertAt(kids: seq<Node>, n: Node, at: nat, hi: nat)
    requires at <= hi <= |kids| && hi <= at + 1
    requires forall i :: 0 <= i < at ==> if hi == at then kids[i].fn < n.fn else kids[i].fn <= n.fn
    requires at < hi ==> kids[at].fn == n.fn
    requires forall i :: 0 <= i < at && kids[i].fn == n.fn ==> kids[i + 1].fn == n.fn
    requires forall i :: hi <= i < |kids| ==> n.fn < kids[i].fn
    ensures Upsert(kids, n) == kids[..at] + [n] + kids[hi..]
  {
    if at > 0 {
      UpsertAt(kids[1..], n, at - 1, hi - 1);
      UpsertTail(kids, n, at, hi);
    } else {
      assert kids[..0] + [n] + kids[hi..] == [n] + kids[hi..];
      assert hi == 0 ==> kids[hi..] == kids;
    }
  }

  lemma UpsertTail(kids: seq<Node>, n: Node, at: nat, hi: nat)
    requires 1 <= at <= hi <= |kids|
    ensures [kids[0]] + (kids[1..][..at - 1] + [n] + kids[1..][hi - 1..]) == kids[..at] + [n] + kids[hi..]
  {
    assert kids[1..][hi - 1..] == kids[hi..];
    assert kids[..at] == [kids[0]] + kids[1..][..at - 1];
  }

  lemma UpsertRange(kids: seq<Node>, n: Node, lo: nat, hi: nat)
    requires Range(kids, n.fn, lo, hi)
    ensures Upsert(kids, n) == kids[..if lo < hi then hi - 1 else hi] + [n] + kids[hi..]
  {
    UpsertAt(kids, n, if lo < hi then hi - 1 else hi, hi);
  }

  lemma {:induction false} LastRange(kids: seq<Node>, f: uint64, lo: nat, hi: nat)
    requires Range(kids, f, lo, hi)
    ensures Last(kids, f) == if lo < hi then Some(kids[hi - 1]) else None
  {
    if kids != [] {
      var l, h := if lo > 0 then lo - 1 else 0, if hi > 0 then hi - 1 else 0;
      LastRange(kids[1..], f, l, h);
    }
  }

  /** The kind of object a leaf value lives in. */
  function LeafKind(leaf: Node): Kind
    requires !leaf.Message?
  {
    match leaf
    case VarIntField(_, _, _) => VarIntKind
    case Fixed64(_, _, _) => Fixed64Kind
    case Fixed32(_, _, _) => Fixed32Kind
    case Text(_, _, _) => StringKind
    case Blob(_, _, _) => BytesKind
    case _ => assert false; BytesKind
  }

  /** The object found where another kind was wanted may be thrown away: an empty string or byte
      array in place of a message, or an empty message in place of a leaf. */
  predicate Discardable(x: Node, wantsMessage: bool) {
    if wantsMessage then (x.Text? || x.Blob?) && x.content == []
    else x.Message? && x.kids == []
  }

  /** The assertions of GetFieldObjectDefault hold: the object found is of the wanted sort or empty. */
  predicate MayAsk(kids: seq<Node>, kind: Kind, f: uint64) {
    var l := Last(kids, f);
    l.Some? ==> l.value.Message? == kind.EmbeddedMessage? || Discardable(l.value, kind.EmbeddedMessage?)
  }

  /** The field table after GetFieldObjectDefault: unchanged if there is a fitting object, with a
      new one otherwise. */
  function WithDefault(kids: seq<Node>, kind: Kind, f: uint64): seq<Node> {
    match Last(kids, f)
    case None => Push(kids, Blank(kind, f))
    case Some(x) =>
      if Discardable(x, kind.EmbeddedMessage?) then Push(Without(kids, f), Blank(kind, f)) else kids
  }

  lemma StoredTree(m: Obj, i: nat, S: set<Obj>)
    requires m in S && Valid(S) && m.IsMessage() && i < |m.objects|
    ensures m.tree.Message? && |m.tree.kids| == |m.objects| && m.tree.kids[i] == m.objects[i].tree
  {
    assert m.Mirrored();
  }

  ghost function TreesOf(S: set<Obj>): map<Obj, Node>
    reads S`tree
  {
    map o | o in S :: o.tree
  }

  /** Off the line, every tree is as it was. */
  ghost predicate KeptOff(S: set<Obj>, line: set<Obj>, trees: map<Obj, Node>)
    reads S`tree
  {
    forall o | o in S && o !in line :: o in trees && o.tree == trees[o]
  }

  lemma KeptAll(S: set<Obj>, line: set<Obj>)
    ensures KeptOff(S, line, TreesOf(S))
  {
  }

  /** Stores a new object at the end of an empty vector. */
  method StoreDefault(m: Obj, def: Obj, hi: nat, ghost S: set<Obj>, ghost U: set<Obj>)
    requires m in S && Valid(S) && m.IsMessage() && m.tree.Message? && Range(m.tree.kids, def.tree.fn, hi, hi)
    requires m.Place(hi, hi, def)
    requires def in U && Valid(U) && S !! U && def.parent == null && !def.kind.RootMessage?
    modifies U`depth, (S + U)`parent, m`objects, (S + U)`isDirty, (S + U)`tree
    ensures Valid(S + U)
    ensures UpLine(S + U, m) == old(UpLine(S, m))
    ensures KeptOff(S, old(UpLine(S, m)), old(TreesOf(S)))
    ensures old(m.tree).Message? && m.tree.Message? && m.tree.kids == Push(old(m.tree.kids), old(def.tree))
    ensures def.tree == old(def.tree) && m.parent == old(m.parent)
    ensures Holds(m, def.tree.fn, def, hi, hi + 1)
  {
    PushStands(m.tree.kids, def.tree, hi);
    hide Valid, Above, Push, Range, m.Place;
    m.Attach(hi, hi, def, S, U);
    AttachedAt(m, def, hi, S + U);
  }

  lemma PushStands(kids: seq<Node>, n: Node, hi: nat)
    requires Range(kids, n.fn, hi, hi)
    ensures Push(kids, n) == kids[..hi] + [n] + kids[hi..]
    ensures Range(kids[..hi] + [n] + kids[hi..], n.fn, hi, hi + 1)
    ensures (kids[..hi] + [n] + kids[hi..])[hi] == n
  {
    PushRange(kids, n, hi);
  }

  lemma AttachedAt(m: Obj, def: Obj, hi: nat, S: set<Obj>)
    requires m in S && Valid(S) && m.IsMessage() && hi < |m.objects| && m.objects[hi] == def
    ensures m.tree.Message? && |m.tree.kids| == |m.objects| && m.tree.kids[hi] == def.tree
  {
    StoredTree(m, hi, S);
  }

  /** GetFieldObjectWithDefault: the last object of the field, or def stored there. */
  method GetFieldObjectWithDefault(m: Obj, f: uint64, def: Obj, ghost S: set<Obj>, ghost U: set<Obj>)
      returns (r: Obj, ghost lo: nat, ghost hi: nat)
    requires m in S && Valid(S) && m.IsMessage()
    requires def in U && Valid(U) && S !! U && def.parent == null && !def.kind.RootMessage? && def.fieldNumber == f
    requires def.tree.fn == f
    modifies U`depth, (S + U)`parent, m`objects, (S + U)`isDirty, (S + U)`tree
    ensures Valid(S + U) && r in S + U && Holds(m, f, r, lo, hi)
    ensures old(m.tree).Message? && m.parent == old(m.parent)
    ensures Last(old(m.tree.kids), f) == None ==>
      && r == def && m.tree.kids == Push(old(m.tree.kids), old(def.tree)) && r.tree == old(def.tree)
    ensures Last(old(m.tree.kids), f) != None ==> unchanged(S) && unchanged(U) && r in S
    ensures UpLine(S + U, m) == old(UpLine(S, m))
    ensures KeptOff(S, old(UpLine(S, m)), old(TreesOf(S)))
  {
    hide *;
    var l, h := Place(m, f, def, S);
    lo, hi := l, h;
    if l < h {
      Join(S, U);
      UpLineJoin(S, U, m);
      KeptAll(S, UpLine(S, m));
      r := m.objects[h - 1];
    } else {
      StoreDefault(m, def, h, S, U);
      r, hi := def, hi + 1;
    }
  }

  /** Where field f's vector stands, and what that means for a default object. */
  method Place(m: Obj, f: uint64, def: Obj, ghost S: set<Obj>) returns (lo: nat, hi: nat)
    requires m in S && Valid(S) && m.IsMessage() && def.tree.fn == def.fieldNumber == f
    ensures lo <= hi <= |m.objects| && m.tree.Message? && def.tree.fn == f
    ensures lo < hi <==> Last(m.tree.kids, f) != None
    ensures lo < hi ==> m.objects[hi - 1] in S && Holds(m, f, m.objects[hi - 1], lo, hi)
    ensures lo == hi ==> Range(m.tree.kids, f, hi, hi) && m.Place(hi, hi, def)
  {
    ValidIsSteady(S);
    lo, hi := m.Locate(f, S);
    LastRange(m.tree.kids, f, lo, hi);
    if lo < hi {
      FoundHolds(m, f, lo, hi, S);
    }
  }

  lemma FoundHolds(m: Obj, f: uint64, lo: nat, hi: nat, S: set<Obj>)
    requires m in S && Valid(S) && m.IsMessage() && m.tree.Message?
    requires Range(m.tree.kids, f, lo, hi) && lo < hi && |m.tree.kids| == |m.objects|
    ensures m.objects[hi - 1] in S && Holds(m, f, m.objects[hi - 1], lo, hi)
  {
    StoredTree(m, hi - 1, S);
    assert m.Linked(S);
  }

  /** r is the last object m stores under field f; the field's vector is at [lo, hi). */
  ghost predicate Holds(m: Obj, f: uint64, r: Obj, lo: nat, hi: nat)
    reads m`tree, m`objects, r`tree
  {
    && m.tree.Message? && Range(m.tree.kids, f, lo, hi) && lo < hi && |m.tree.kids| == |m.objects|
    && m.objects[hi - 1] == r && m.tree.kids[hi - 1] == r.tree
  }

  lemma HoldsLast(m: Obj, f: uint64, r: Obj, lo: nat, hi: nat)
    requires Holds(m, f, r, lo, hi)
    ensures Last(m.tree.kids, f) == Some(r.tree)
  {
    LastRange(m.tree.kids, f, lo, hi);
  }

  /** Nothing is below r. */
  ghost predicate Alone(r: Obj, W: set<Obj>)
    reads W`parent, W`depth
  {
    forall o | o in W && Above(W, r, o) :: o == r
  }

  /** m and what is below it. */
  ghost function Under(S: set<Obj>, m: Obj): set<Obj>
    reads S`parent, S`depth
  {
    set o | o in S && Above(S, m, o)
  }

  /** Of the objects of S, only some of those in under are now below r. */
  ghost predicate UnderOnly(r: Obj, S: set<Obj>, W: set<Obj>, under: set<Obj>)
    reads W`parent, W`depth
    requires S <= W
  {
    forall o | o in S && Above(W, r, o) :: o in under
  }

  lemma AloneUnder(r: Obj, S: set<Obj>, W: set<Obj>, under: set<Obj>)
    requires r !in S && S <= W && r in W && Valid(W) && r.tree == Blank(r.kind, r.fieldNumber)
    ensures UnderOnly(r, S, W, under)
  {
    Childless(r, W);
  }

  /** Nothing is below a blank object. */
  lemma Childless(r: Obj, W: set<Obj>)
    requires r in W && Valid(W) && r.tree == Blank(r.kind, r.fieldNumber)
    ensures Alone(r, W)
  {
    assert r.Mirrored() && r.Linked(W);
    forall o | o in W && Above(W, r, o)
      ensures o == r
    {
      NothingUnder(r, o, W);
    }
  }

  lemma {:induction false} NothingUnder(r: Obj, o: Obj, W: set<Obj>)
    requires r in W && o in W && (forall x | x in W :: x.Linked(W)) && r.objects == [] && Above(W, r, o)
    ensures o == r
    decreases o.depth
  {
    assert o.Linked(W);
    if o != r {
      NothingUnder(r, o.parent, W);
    }
  }

  /** What is under an object of m's table is under m, and other heaps change nothing. */
  lemma UnderKids(m: Obj, r: Obj, lo: nat, hi: nat, f: uint64, S: set<Obj>, W: set<Obj>)
    requires m in S && Valid(S) && S <= W && Holds(m, f, r, lo, hi)
    ensures UnderOnly(r, S, W, Under(S, m))
  {
    assert m.Linked(S) && W == S + (W - S);
    forall o | o in S && Above(W, r, o)
      ensures Above(S, m, o)
    {
      UpLineJoin(S, W - S, o);
      assert r in UpLine(W, o);
      m.BelowKid(r, S);
    }
  }

  /** A new object in a field without objects. */
  method CreateDefault(m: Obj, kind: Kind, f: uint64, ghost S: set<Obj>)
      returns (r: Obj, created: bool, ghost W: set<Obj>, ghost lo: nat, ghost hi: nat)
    requires m in S && Valid(S) && m.IsMessage() && !kind.RootMessage? && m.tree.Message?
    modifies S`depth, S`parent, m`objects, S`isDirty, S`tree
    ensures S <= W && fresh(W - S) && Valid(W) && r in W && Holds(m, f, r, lo, hi)
    ensures created <==> Last(old(m.tree.kids), f) == None
    ensures created ==> m.tree.kids == Push(old(m.tree.kids), Blank(kind, f))
    ensures !created ==> unchanged(S) && r in S
    ensures UpLine(W, m) == old(UpLine(S, m))
    ensures KeptOff(S, old(UpLine(S, m)), old(TreesOf(S)))
    ensures created ==> r !in S && r.tree == Blank(r.kind, r.fieldNumber)
  {
    hide *;
    var def := new Obj(kind, f);
    W := S + {def};
    r, lo, hi := GetFieldObjectWithDefault(m, f, def, S, {def});
    created := r == def;
  }

  lemma {:induction false} LastOfWithout(kids: seq<Node>, f: uint64)
    ensures Last(Without(kids, f), f) == None
  {
    if kids != [] {
      LastOfWithout(kids[1..], f);
      if kids[0].fn != f {
        assert Without(kids, f)[1..] == Without(kids[1..], f);
      }
    }
  }

  /** GetFieldObjectDefault: the field's last object if it is fit for the wanted kind, a new one
      otherwise; an empty object of the wrong sort is thrown away with its whole field. */
  method GetFieldObjectDefault(m: Obj, kind: Kind, f: uint64, ghost S: set<Obj>)
      returns (r: Obj, ghost W: set<Obj>, ghost lo: nat, ghost hi: nat)
    requires m in S && Valid(S) && m.IsMessage() && !kind.RootMessage? && m.tree.Message?
    requires MayAsk(m.tree.kids, kind, f)
    modifies S`depth, S`parent, m`objects, S`isDirty, S`tree
    ensures S <= W && fresh(W - S) && Valid(W) && r in W && Holds(m, f, r, lo, hi)
    ensures m.tree.kids == WithDefault(old(m.tree.kids), kind, f)
    ensures UpLine(W, m) == old(UpLine(S, m))
    ensures KeptOff(S, old(UpLine(S, m)), old(TreesOf(S)))
    ensures UnderOnly(r, S, W, old(Under(S, m)))
  {
    hide Valid, Above, Last, Holds, Push, Discardable, UnderOnly, Alone, Under, UpLine;
    var created;
    ghost var under := Under(S, m);
    r, created, W, lo, hi := CreateDefault(m, kind, f, S);
    if !created {
      UnderKids(m, r, lo, hi, f, S, W);
      HoldsLast(m, f, r, lo, hi);
      HeldMirrored(r, W);
      if IsDiscardable(r, kind.EmbeddedMessage?) {
        r, W, lo, hi := Recreate(m, kind, f, W);
        AloneUnder(r, S, W, under);
      }
    } else {
      AloneUnder(r, S, W, under);
    }
  }

  lemma HeldMirrored(r: Obj, W: set<Obj>)
    requires r in W && Valid(W)
    ensures r.Mirrored()
  {
  }

  /** Whether an object found in place of the wanted kind is empty. */
  predicate IsDiscardable(r: Obj, wantsMessage: bool)
    reads r, r.objects
    requires r.Mirrored()
    ensures IsDiscardable(r, wantsMessage) <==> Discardable(r.tree, wantsMessage)
  {
    if wantsMessage then (r.kind.StringKind? || r.kind.BytesKind?) && r.content == []
    else r.IsMessage() && r.objects == []
  }

  /** Throws a field away and starts it again with a new object. */
  method Recreate(m: Obj, kind: Kind, f: uint64, ghost S: set<Obj>)
      returns (r: Obj, ghost W: set<Obj>, ghost lo: nat, ghost hi: nat)
    requires m in S && Valid(S) && m.IsMessage() && !kind.RootMessage? && m.tree.Message?
    requires Last(m.tree.kids, f) != None
    modifies S`depth, S`parent, m`objects, S`isDirty, S`tree
    ensures S <= W && fresh(W - S) && Valid(W) && r in W && Holds(m, f, r, lo, hi)
    ensures m.tree.kids == Push(Without(old(m.tree.kids), f), Blank(kind, f))
    ensures UpLine(W, m) == old(UpLine(S, m))
    ensures KeptOff(S, old(UpLine(S, m)), old(TreesOf(S)))
    ensures r !in S && r.tree == Blank(r.kind, r.fieldNumber)
  {
    hide *;
    LastOfWithout(m.tree.kids, f);
    ghost var line, trees := UpLine(S, m), TreesOf(S);
    Erase(m, f, S);
    ghost var mid := TreesOf(S);
    KeptMid(S, line, trees);
    var created;
    r, created, W, lo, hi := CreateDefault(m, kind, f, S);
    KeptTwice(S, line, mid, trees);
  }

  /** EraseField on a field that has objects. */
  method Erase(m: Obj, f: uint64, ghost S: set<Obj>)
    requires m in S && Valid(S) && m.IsMessage() && m.tree.Message? && Last(m.tree.kids, f) != None
    modifies S`parent, m`objects, S`isDirty, S`tree
    ensures Valid(S) && m.tree.Message? && m.tree.kids == Without(old(m.tree.kids), f)
    ensures UpLine(S, m) == old(UpLine(S, m)) && KeptOff(S, old(UpLine(S, m)), old(TreesOf(S)))
  {
    NotEmptyAt(m.tree.kids, f);
    hide Valid, Above, Last, Without, At;
    var found := m.EraseField(f, S);
  }

  lemma KeptMid(S: set<Obj>, line: set<Obj>, trees: map<Obj, Node>)
    requires KeptOff(S, line, trees)
    ensures Agree(S - line, TreesOf(S), trees)
  {
  }

  ghost predicate Agree(S: set<Obj>, mid: map<Obj, Node>, trees: map<Obj, Node>) {
    forall o | o in S :: o in mid && o in trees && mid[o] == trees[o]
  }

  lemma KeptTwice(S: set<Obj>, line: set<Obj>, mid: map<Obj, Node>, trees: map<Obj, Node>)
    requires KeptOff(S, line, mid)
    requires Agree(S - line, mid, trees)
    ensures KeptOff(S, line, trees)
  {
  }

  lemma {:induction false} NotEmptyAt(kids: seq<Node>, f: uint64)
    ensures At(kids, f) == [] <==> Last(kids, f) == None
  {
    if kids != [] {
      NotEmptyAt(kids[1..], f);
    }
  }

  // ----- setting a leaf -----

  /** The objects already on the path are of the kinds asked for, the leaf's own kind included. */
  predicate Ready(kids: seq<Node>, path: seq<uint64>, leaf: Node)
    decreases |path|
  {
    if path == [] then
      && !leaf.Message?
      && (Last(kids, leaf.fn).Some? ==>
            var l := Last(kids, leaf.fn).value; !l.Message? && LeafKind(l) == LeafKind(leaf))
    else
      && (Last(kids, path[0]).Some? ==> Last(kids, path[0]).value.Message?)
      && Ready(SubMessage(kids, path[0]).kids, path[1..], leaf)
  }

  /** Making the missing object first does not change where the new value goes. */
  lemma {:induction false} UpsertPushed(kids: seq<Node>, b: Node, n: Node)
    requires Last(kids, n.fn) == None && b.fn == n.fn
    ensures Upsert(Push(kids, b), n) == Upsert(kids, n)
  {
    if kids != [] && kids[0].fn < n.fn {
      UpsertPushed(kids[1..], b, n);
      assert Push(kids, b)[1..] == Push(kids[1..], b);
    }
  }

  lemma {:induction false} LastPushed(kids: seq<Node>, b: Node)
    requires Last(kids, b.fn) == None
    ensures Last(Push(kids, b), b.fn) == Some(b)
  {
    if kids != [] && kids[0].fn <= b.fn {
      LastPushed(kids[1..], b);
      assert Push(kids, b)[1..] == Push(kids[1..], b);
    } else {
      assert ([b] + kids)[1..] == kids;
    }
  }

  /** The setter of the leaf's kind. */
  method SetTo(r: Obj, leaf: Node, ghost W: set<Obj>)
    requires r in W && Valid(W) && !leaf.Message? && r.kind == LeafKind(leaf) && r.fieldNumber == leaf.fn
    modifies r`value, r`value32, r`content, W`isDirty, W`tree
    ensures Valid(W) && r.tree == Touched(leaf)
    ensures KeptOff(W, UpLine(W, r), old(TreesOf(W)))
  {
    hide Valid, Above, r.Linked, r.Mirrored;
    if leaf.VarIntField? || leaf.Fixed64? {
      r.SetValue(leaf.value, W);
    } else if leaf.Fixed32? {
      r.SetValue32(leaf.value32, W);
    } else {
      r.SetContent(leaf.content, W);
    }
  }

  // ----- down the path -----

  /** What stands before an edit under m: what is below m, what is above it, every tree and table. */
  datatype Snapshot = Snapshot(below: set<Obj>, line: set<Obj>, trees: map<Obj, Node>, tables: map<Obj, seq<Obj>>)

  ghost function Snap(S: set<Obj>, m: Obj): Snapshot
    reads S`parent, S`depth, S`tree, S`objects
    requires m in S
  {
    Snapshot(Under(S, m), UpLine(S, m), TreesOf(S), map o | o in S :: o.objects)
  }

  /** Not below: the table is as it was; not above either: the whole tree is. */
  ghost predicate Untouched(S: set<Obj>, s: Snapshot)
    reads S`tree, S`objects
  {
    forall o | o in S && o !in s.below ::
      && o in s.tables && o.objects == s.tables[o]
      && (o !in s.line ==> o in s.trees && o.tree == s.trees[o])
  }

  /** An edit under s1's object changes only what an edit under s0's may. */
  ghost predicate Within(S: set<Obj>, s1: Snapshot, s0: Snapshot) {
    forall o | o in S && o !in s0.below ::
      && o !in s1.below && o in s1.tables && o in s0.tables && s1.tables[o] == s0.tables[o]
      && (o !in s0.line ==> o !in s1.line && o in s1.trees && o in s0.trees && s1.trees[o] == s0.trees[o])
  }

  lemma UntouchedWithin(S: set<Obj>, W: set<Obj>, s1: Snapshot, s0: Snapshot)
    requires S <= W && Untouched(W, s1) && Within(S, s1, s0)
    ensures Untouched(S, s0)
  {
  }

  /** An edit under the object at i leaves m's table and the other objects in it alone. */
  ghost predicate Apart(m: Obj, i: nat, s: Snapshot, objs: seq<Obj>, kids: seq<Node>) {
    && i < |objs| == |kids| && m !in s.below && m in s.tables && s.tables[m] == objs
    && forall j :: 0 <= j < |objs| && j != i ==>
         objs[j] !in s.below && objs[j] !in s.line && objs[j] in s.trees && s.trees[objs[j]] == kids[j]
  }

  lemma SnapApart(m: Obj, f: uint64, r: Obj, lo: nat, hi: nat, W: set<Obj>)
    requires m in W && Valid(W) && r in W && Holds(m, f, r, lo, hi)
    ensures Apart(m, hi - 1, Snap(W, r), m.objects, m.tree.kids)
    ensures UpLine(W, r) == UpLine(W, m) + {r}
  {
    assert m.Linked(W) && m.Mirrored();
    m.KidsAreBelow(W);
    UpLineStep(W, r);
    assert InOrder(m.objects);
  }

  lemma EditedTree(m: Obj, i: nat, r: Obj, W1: set<Obj>, W: set<Obj>, s: Snapshot, objs: seq<Obj>, kids: seq<Node>)
    requires m in W1 && W1 <= W && Valid(W) && m.IsMessage() && r.tree.dirty && (forall o | o in objs :: o in W1)
    requires Untouched(W1, s) && Apart(m, i, s, objs, kids) && r == objs[i]
    ensures m.tree == Message(m.fieldNumber, kids[i := r.tree], m.fieldsUnique, true)
  {
    assert m.Linked(W) && m.Mirrored();
    assert m.objects == objs;
    assert r.DirtyUp() && r.Mirrored();
    assert m.tree.kids == kids[i := r.tree];
  }

  /** Putting n at i is what setting field f to n does to the table kids0. */
  ghost predicate Slot(kids: seq<Node>, i: nat, f: uint64, kids0: seq<Node>) {
    i < |kids| && forall n: Node :: n.fn == f ==> kids[i := n] == Upsert(kids0, n)
  }

  lemma DefaultSlot(kids0: seq<Node>, kind: Kind, f: uint64, lo: nat, hi: nat)
    requires Last(kids0, f).Some? ==> !Discardable(Last(kids0, f).value, kind.EmbeddedMessage?)
    requires Range(WithDefault(kids0, kind, f), f, lo, hi) && lo < hi
    ensures Slot(WithDefault(kids0, kind, f), hi - 1, f, kids0)
  {
    var kids := WithDefault(kids0, kind, f);
    hide Discardable, Push, Upsert, Last;
    forall n: Node | n.fn == f
      ensures kids[hi - 1 := n] == Upsert(kids0, n)
    {
      UpsertRange(kids, n, lo, hi);
      assert kids[hi - 1 := n] == kids[..hi - 1] + [n] + kids[hi..];
      if Last(kids0, f) == None {
        UpsertPushed(kids0, Blank(kind, f), n);
      }
    }
  }

  /** The object an edit of field f goes into. */
  function Found(kids0: seq<Node>, kind: Kind, f: uint64): Node {
    var l := Last(kids0, f);
    if l.Some? then l.value else Blank(kind, f)
  }

  lemma FoundLast(kids0: seq<Node>, kind: Kind, f: uint64)
    requires Last(kids0, f).Some? ==> !Discardable(Last(kids0, f).value, kind.EmbeddedMessage?)
    ensures Last(WithDefault(kids0, kind, f), f) == Some(Found(kids0, kind, f))
  {
    if Last(kids0, f) == None {
      LastPushed(kids0, Blank(kind, f));
    }
  }

  lemma SnapWithin(m: Obj, r: Obj, S: set<Obj>, W: set<Obj>, s0: Snapshot)
    requires m in S && S <= W && r in W && UnderOnly(r, S, W, s0.below) && KeptOff(S, s0.line, s0.trees)
    requires UpLine(W, r) == s0.line + {r} && m in s0.below
    requires forall o | o in S && o != m :: o in s0.tables && o.objects == s0.tables[o]
    ensures Within(S, Snap(W, r), s0)
  {
    assert r in S ==> Above(W, r, r);
  }

  /** GetFieldObjectDefault where nothing needs to be thrown away, with all that the edit that
      follows depends on. */
  method FindUnder(m: Obj, kind: Kind, f: uint64, ghost S: set<Obj>)
      returns (r: Obj, ghost W: set<Obj>, ghost i: nat)
    requires m in S && Valid(S) && m.IsMessage() && !kind.RootMessage? && m.tree.Message?
    requires var l := Last(m.tree.kids, f);
      l.Some? ==> l.value.Message? == kind.EmbeddedMessage?
    modifies S`depth, S`parent, m`objects, S`isDirty, S`tree
    ensures S <= W && fresh(W - S) && Valid(W) && r in W && m.tree.Message?
    ensures r.tree == Found(old(m.tree.kids), kind, f)
    ensures Slot(m.tree.kids, i, f, old(m.tree.kids))
    ensures Within(S, Snap(W, r), old(Snap(S, m)))
    ensures Apart(m, i, Snap(W, r), m.objects, m.tree.kids) && r == m.objects[i]
    ensures forall o | o in m.objects :: o in W
  {
    hide *;
    ghost var s0, kids0 := Snap(S, m), m.tree.kids;
    NotDiscardable(kids0, kind, f);
    InTables(S, m);
    ghost var lo, hi;
    r, W, lo, hi := GetFieldObjectDefault(m, kind, f, S);
    SnapApart(m, f, r, lo, hi, W);
    SnapWithin(m, r, S, W, s0);
    FoundLast(kids0, kind, f);
    HoldsLast(m, f, r, lo, hi);
    HoldsParts(m, f, r, lo, hi, W);
    DefaultSlot(kids0, kind, f, lo, hi);
    i := hi - 1;
  }

  lemma NotDiscardable(kids: seq<Node>, kind: Kind, f: uint64)
    requires var l := Last(kids, f); l.Some? ==> l.value.Message? == kind.EmbeddedMessage?
    ensures Last(kids, f).Some? ==> !Discardable(Last(kids, f).value, kind.EmbeddedMessage?)
    ensures MayAsk(kids, kind, f)
  {
  }

  lemma InTables(S: set<Obj>, m: Obj)
    requires m in S
    ensures var s := Snap(S, m);
      && s.line == UpLine(S, m) && s.trees == TreesOf(S) && s.below == Under(S, m) && m in s.below
      && forall o | o in S :: o in s.tables && s.tables[o] == o.objects
  {
  }

  lemma HoldsParts(m: Obj, f: uint64, r: Obj, lo: nat, hi: nat, W: set<Obj>)
    requires m in W && Valid(W) && Holds(m, f, r, lo, hi)
    ensures m.tree.Message? && lo < hi && Range(m.tree.kids, f, lo, hi) && |m.tree.kids| == |m.objects| && r == m.objects[hi - 1]
    ensures forall o | o in m.objects :: o in W
  {
    assert m.Linked(W);
  }

  /** Setting the leaf at the end of a path, creating what is missing on the way: the tree becomes
      what SetLeaf says, everything changed is dirty up to the root, and nothing else is touched. */
  method SetLeafAt(m: Obj, path: seq<uint64>, leaf: Node, ghost S: set<Obj>) returns (ghost W: set<Obj>)
    requires m in S && Valid(S) && m.IsMessage() && m.tree.Message? && Ready(m.tree.kids, path, leaf)
    modifies S`depth, S`parent, S`objects, S`isDirty, S`tree, S`value, S`value32, S`content
    ensures S <= W && fresh(W - S) && Valid(W)
    ensures m.tree == Message(m.fieldNumber, SetLeaf(old(m.tree.kids), path, leaf), m.fieldsUnique, true)
    ensures Untouched(S, old(Snap(S, m)))
    decreases |path|
  {
    hide *;
    ghost var kids0 := m.tree.kids;
    ghost var i, V;
    var r;
    if path == [] {
      ReadyLeaf(kids0, leaf);
      r, V, i := FindUnder(m, LeafKind(leaf), leaf.fn, S);
      ghost var s, objs, kids := Snap(V, r), m.objects, m.tree.kids;
      W := SetFound(r, leaf, V);
      LeafSlot(kids, i, kids0, leaf);
      EditedTree(m, i, r, V, W, s, objs, kids);
      UntouchedWithin(S, V, s, old(Snap(S, m)));
    } else {
      ReadyStep(kids0, path, leaf);
      r, V, i := FindUnder(m, EmbeddedMessage, path[0], S);
      ghost var s, objs, kids := Snap(V, r), m.objects, m.tree.kids;
      FoundMessage(r, kids0, path[0], V);
      ghost var unique := r.fieldsUnique;
      W := SetLeafAt(r, path[1..], leaf, V);
      StepSlot(kids, i, kids0, path, leaf);
      EditedTree(m, i, r, V, W, s, objs, kids);
      UntouchedWithin(S, V, s, old(Snap(S, m)));
    }
  }

  lemma ReadyLeaf(kids: seq<Node>, leaf: Node)
    requires Ready(kids, [], leaf)
    ensures !leaf.Message? && !LeafKind(leaf).RootMessage? && !LeafKind(leaf).EmbeddedMessage?
    ensures var l := Last(kids, leaf.fn); l.Some? ==> !l.value.Message?
    ensures var n := Found(kids, LeafKind(leaf), leaf.fn); !n.Message? && LeafKind(n) == LeafKind(leaf) && n.fn == leaf.fn
  {
  }

  lemma ReadyStep(kids: seq<Node>, path: seq<uint64>, leaf: Node)
    requires path != [] && Ready(kids, path, leaf)
    ensures var l := Last(kids, path[0]); l.Some? ==> l.value.Message?
    ensures Ready(SubMessage(kids, path[0]).kids, path[1..], leaf)
    ensures Found(kids, EmbeddedMessage, path[0]) == SubMessage(kids, path[0])
  {
  }

  lemma FoundMessage(r: Obj, kids: seq<Node>, f: uint64, W: set<Obj>)
    requires r in W && Valid(W) && r.tree == SubMessage(kids, f)
    ensures r.IsMessage() && r.tree.Message? && r.fieldNumber == f
    ensures SubMessage(kids, f) == Message(f, r.tree.kids, r.fieldsUnique, r.tree.dirty)
  {
    assert r.Mirrored();
  }

  lemma LeafSlot(kids: seq<Node>, i: nat, kids0: seq<Node>, leaf: Node)
    requires !leaf.Message? && Slot(kids, i, leaf.fn, kids0)
    ensures Touched(leaf).dirty && kids[i := Touched(leaf)] == SetLeaf(kids0, [], leaf)
  {
  }

  lemma StepSlot(kids: seq<Node>, i: nat, kids0: seq<Node>, path: seq<uint64>, leaf: Node)
    requires path != [] && Slot(kids, i, path[0], kids0)
    ensures var m := SubMessage(kids0, path[0]);
      kids[i := Message(m.fn, SetLeaf(m.kids, path[1..], leaf), m.unique, true)] == SetLeaf(kids0, path, leaf)
  {
  }

  /** The setter on the object found, in the terms of the walk down. */
  method SetFound(r: Obj, leaf: Node, ghost V: set<Obj>) returns (ghost W: set<Obj>)
    requires r in V && Valid(V) && !leaf.Message? && !r.tree.Message?
    requires LeafKind(r.tree) == LeafKind(leaf) && r.tree.fn == leaf.fn
    modifies r`value, r`value32, r`content, V`isDirty, V`tree
    ensures W == V && Valid(W) && r.tree == Touched(leaf)
    ensures Untouched(V, old(Snap(V, r)))
  {
    hide *;
    W := V;
    LeafObject(r, leaf, V);
    ghost var s := Snap(V, r);
    InTables(V, r);
    SetTo(r, leaf, V);
    OnlyTrees(V, r, s);
  }

  lemma LeafObject(r: Obj, leaf: Node, V: set<Obj>)
    requires r in V && Valid(V) && !leaf.Message? && !r.tree.Message?
    requires LeafKind(r.tree) == LeafKind(leaf) && r.tree.fn == leaf.fn
    ensures r.kind == LeafKind(leaf) && r.fieldNumber == leaf.fn
  {
    HeldMirrored(r, V);
  }

  lemma OnlyTrees(V: set<Obj>, r: Obj, s: Snapshot)
    requires r in V && KeptOff(V, UpLine(V, r), s.trees) && s.line == UpLine(V, r)
    requires forall o | o in V :: o in s.tables && s.tables[o] == o.objects
    ensures Untouched(V, s)
  {
    hide UpLine;
  }

  // ----- whole sessions -----

  /** Every edit finds objects of the right kinds when its turn comes. */
  predicate ReadyAll(kids: seq<Node>, ops: seq<Set>)
    decreases |ops|
  {
    ops == [] || (
      && Ready(kids, ops[0].path, ops[0].leaf)
      && ReadyAll(SetLeaf(kids, ops[0].path, ops[0].leaf), ops[1..]))
  }

  /** Any number of edits of the settings tree. */
  method Edit(root: Obj, ops: seq<Set>, ghost S: set<Obj>) returns (ghost W: set<Obj>)
    requires root in S && Valid(S) && root.IsMessage() && root.tree.Message? && ReadyAll(root.tree.kids, ops)
    modifies S`depth, S`parent, S`objects, S`isDirty, S`tree, S`value, S`value32, S`content
    ensures S <= W && fresh(W - S) && Valid(W) && root.tree.Message?
    ensures root.tree.kids == SetAll(old(root.tree.kids), ops)
  {
    hide Valid, Ready, SetLeaf, Snap, Untouched;
    W := S;
    for i := 0 to |ops|
      invariant S <= W && fresh(W - S) && Valid(W) && root.tree.Message?
      invariant ReadyAll(root.tree.kids, ops[i..])
      invariant SetAll(root.tree.kids, ops[i..]) == SetAll(old(root.tree.kids), ops)
    {
      assert ops[i..][1..] == ops[i + 1..];
      W := SetLeafAt(root, ops[i].path, ops[i].leaf, W);
    }
  }

  /** FlushSettings: the bytes of what changed, and a clean tree. */
  method FlushSettings(root: Obj, ghost S: set<Obj>) returns (data: seq<byte>)
    requires root in S && Valid(S) && root.kind.RootMessage? && root.tree.Message?
    requires DirtyPayloadSizeAll(root.tree.kids) < TWO_64
    modifies S`isDirty, S`tree
    ensures Valid(S) && old(root.tree).Message? && data == EncodeDirtyAll(old(root.tree).kids)
    ensures root.tree == Clean(old(root.tree))
  {
    hide *;
    RootHasNoParent(root, S);
    data := EncodeDirtyFields(root, [], S);
    assert [] + EncodeDirtyAll(root.tree.kids) == EncodeDirtyAll(root.tree.kids);
    SettledRoot(root, S);
    root.MarkClean(S);
    root.CleanRoot(S);
  }

  /** A root message is nobody's child. */
  lemma RootHasNoParent(root: Obj, S: set<Obj>)
    requires root in S && Valid(S) && root.kind.RootMessage?
    ensures root.parent == null && root.IsMessage()
  {
    LinksSplit(S);
  }

  lemma SettledRoot(root: Obj, S: set<Obj>)
    requires root in S && Valid(S)
    ensures root.Settled(S, true) && forall o | o in S :: o.DirtyUp()
  {
  }

  // ----- what a lookup leaves in the table -----

  /** A field without objects gets a new one; an empty string or byte array where a message is wanted, and
      an empty message where a leaf is, goes with its whole field; everything else stays. */
  lemma DefaultForm(kids: seq<Node>, kind: Kind, f: uint64)
    ensures var l := Last(kids, f);
      && (l.None? ==> WithDefault(kids, kind, f) == Push(kids, Blank(kind, f)))
      && (l.Some? && kind == EmbeddedMessage && (l.value.Text? || l.value.Blob?) && l.value.content == [] ==>
            WithDefault(kids, kind, f) == Push(Without(kids, f), Blank(kind, f)))
      && (l.Some? && kind != EmbeddedMessage && l.value.Message? && l.value.kids == [] ==>
            WithDefault(kids, kind, f) == Push(Without(kids, f), Blank(kind, f)))
      && (l.Some? && kind == EmbeddedMessage && !((l.value.Text? || l.value.Blob?) && l.value.content == []) ==>
            WithDefault(kids, kind, f) == kids)
      && (l.Some? && kind != EmbeddedMessage && !(l.value.Message? && l.value.kids == []) ==> WithDefault(kids, kind, f) == kids)
    ensures Blank(kind, f) == match kind
      case StringKind => Text(f, [], false)
      case BytesKind => Blob(f, [], false)
      case VarIntKind => VarIntField(f, 0, false)
      case Fixed64Kind => Fixed64(f, 0, false)
      case Fixed32Kind => Fixed32(f, 0, false)
      case _ => Message(f, [], {}, false)
  {
    hide Push, Without, Last;
  }
}
