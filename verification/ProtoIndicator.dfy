/** SetOnlineIndicator on the heap, with MarkDirtyAndChildren. */
module ProtoIndicator {
  import opened Bytes
  import opened ProtoTree
  import opened ProtoFields
  import opened ProtoDelta
  import opened ProtoSync
  import opened ProtoObjects
  import opened ProtoSettings
  import opened ProtoStatus

  // ----- MarkDirtyAndChildren -----

  /** Neither above o nor below it, every tree is as it was. */
  ghost predicate KeptBeside(S: set<Obj>, o: Obj, trees: map<Obj, Node>)
    reads S`tree, S`parent, S`depth
    requires o in S
  {
    forall x | x in S && !Above(S, o, x) && !Above(S, x, o) :: x in trees && x.tree == trees[x]
  }

  ghost predicate AgreeBeside(S: set<Obj>, o: Obj, mid: map<Obj, Node>, trees: map<Obj, Node>)
    reads S`parent, S`depth
    requires o in S
  {
    forall x | x in S && !Above(S, o, x) && !Above(S, x, o) :: x in mid && x in trees && mid[x] == trees[x]
  }

  /** The walk up, and what it leaves alone. */
  method MarkFirst(o: Obj, ghost S: set<Obj>)
    requires o in S && Valid(S)
    modifies S`isDirty, S`tree
    ensures Valid(S) && KeptBeside(S, o, old(TreesOf(S)))
    ensures o.tree == if o.IsMessage() then Message(o.fieldNumber, old(o.tree).kids, o.fieldsUnique, true) else Touched(old(o.tree))
    ensures old(o.tree).Message? == o.IsMessage()
    ensures o.IsMessage() ==> |old(o.tree).kids| == |o.objects| && forall j :: 0 <= j < |o.objects| ==> o.objects[j].tree == old(o.tree).kids[j]
  {
    assert o.Mirrored() && o.KidsLinked(S) by {
      LinksSplit(S);
    }
    assert o.LooseUp(S);
    hide o.Linked, Above, o.DirtyUp, o.LooseUp, o.Mirrored, o.KidsLinked;
    o.MarkDirty(S);
    assert o.Mirrored();
    o.KidsKept(S);
    o.MarkedTree();
  }

  lemma BesideNow(S: set<Obj>, o: Obj, trees: map<Obj, Node>)
    requires o in S && KeptBeside(S, o, trees)
    ensures AgreeBeside(S, o, TreesOf(S), trees)
  {
  }

  /** The children and what is beside them. */
  lemma KidsBeside(o: Obj, i: nat, S: set<Obj>)
    requires o in S && Valid(S) && i < |o.objects|
    ensures o.objects[i] in S
    ensures forall j :: 0 <= j < |o.objects| && j != i ==>
      o.objects[j] in S && !Above(S, o.objects[i], o.objects[j]) && !Above(S, o.objects[j], o.objects[i])
    ensures forall x | x in S && !Above(S, o, x) && !Above(S, x, o) :: !Above(S, o.objects[i], x) && !Above(S, x, o.objects[i])
  {
    var k := o.objects[i];
    assert o.Linked(S) && InOrder(o.objects);
    o.KidsAreBelow(S);
    o.BelowKid(k, S);
    assert Above(S, k, k) && Above(S, o, k);
  }

  /** One child has been marked. */
  lemma KidMarked(o: Obj, i: nat, S: set<Obj>, mid: map<Obj, Node>, trees: map<Obj, Node>)
    requires o in S && Valid(S) && i < |o.objects| && o.objects[i] in S
    requires KeptBeside(S, o.objects[i], mid) && AgreeBeside(S, o, mid, trees) && o.objects[i].tree.dirty
    ensures KeptBeside(S, o, trees) && o.tree.dirty
    ensures forall j :: 0 <= j < |o.objects| && j != i ==> o.objects[j] in mid && o.objects[j].tree == mid[o.objects[j]]
  {
    KidsBeside(o, i, S);
    var k := o.objects[i];
    assert o.Linked(S) && o.Mirrored() && k.Mirrored() && k.DirtyUp();
    hide Above, k.Linked, Valid;
  }

  lemma AllMarked(o: Obj, S: set<Obj>, t: Node)
    requires o in S && Valid(S) && o.IsMessage() && t.Message? && t.fn == o.fieldNumber && t.unique == o.fieldsUnique && o.tree.dirty
    requires |t.kids| == |o.objects| && forall j :: 0 <= j < |o.objects| ==> o.objects[j].tree == Soiled(t.kids[j])
    ensures o.tree == Soiled(t)
  {
    assert o.Mirrored();
    assert o.tree.kids == SoiledAll(t.kids);
  }

  lemma MessageParts(o: Obj, S: set<Obj>)
    requires o in S && Valid(S)
    ensures o.tree.fn == o.fieldNumber && o.tree.Message? == o.IsMessage()
    ensures o.IsMessage() ==> o.tree.unique == o.fieldsUnique
    ensures !o.IsMessage() ==> Soiled(o.tree) == Touched(o.tree)
  {
    assert o.Mirrored();
  }

  /** MarkDirty on a leaf, MarkDirtyAndChildren on a message. */
  method MarkDirtyAndChildren(o: Obj, ghost S: set<Obj>)
    requires o in S && Valid(S)
    modifies S`isDirty, S`tree
    ensures Valid(S) && o.tree == Soiled(old(o.tree)) && KeptBeside(S, o, old(TreesOf(S)))
    decreases o.tree
  {
    hide *;
    ghost var t, trees := o.tree, TreesOf(S);
    MessageParts(o, S);
    MarkFirst(o, S);
    if o.IsMessage() {
      for i := 0 to |o.objects|
        invariant Valid(S) && o.tree.dirty && KeptBeside(S, o, trees)
        invariant forall j :: 0 <= j < i ==> o.objects[j].tree == Soiled(t.kids[j])
        invariant forall j :: i <= j < |o.objects| ==> o.objects[j].tree == t.kids[j]
      {
        ghost var mid := TreesOf(S);
        BesideNow(S, o, trees);
        KidsBeside(o, i, S);
        TreesAre(S);
        MarkDirtyAndChildren(o.objects[i], S);
        KidMarked(o, i, S, mid, trees);
      }
      AllMarked(o, S, t);
    }
  }

  lemma TreesAre(S: set<Obj>)
    ensures forall x | x in S :: x in TreesOf(S) && TreesOf(S)[x] == x.tree
  {
  }

  // ----- down the path -----

  /** MarkDirtyAndChildren on the message at the end of a path that is there. */
  method MarkPath(m: Obj, path: seq<uint64>, ghost S: set<Obj>) returns (ghost W: set<Obj>)
    requires m in S && Valid(S) && m.IsMessage() && m.tree.Message? && path != [] && Leads(m.tree.kids, path)
    modifies S`depth, S`parent, S`objects, S`isDirty, S`tree
    ensures S <= W && fresh(W - S) && Valid(W)
    ensures m.tree == Message(m.fieldNumber, SoilAt(old(m.tree.kids), path), m.fieldsUnique, true)
    ensures Untouched(S, old(Snap(S, m)))
    decreases |path|
  {
    hide *;
    ghost var kids0 := m.tree.kids;
    ghost var i, V;
    var r;
    LeadsStep(kids0, path);
    r, V, i := FindUnder(m, EmbeddedMessage, path[0], S);
    ghost var s, objs, kids := Snap(V, r), m.objects, m.tree.kids;
    FoundMessage(r, kids0, path[0], V);
    ghost var unique := r.fieldsUnique;
    if |path| == 1 {
      ghost var trees := TreesOf(V);
      InTables(V, r);
      MarkDirtyAndChildren(r, V);
      W := V;
      BesideUntouched(V, r, s);
    } else {
      W := MarkPath(r, path[1..], V);
    }
    MarkSlot(kids, i, kids0, path);
    EditedTree(m, i, r, V, W, s, objs, kids);
    UntouchedWithin(S, V, s, old(Snap(S, m)));
  }

  lemma LeadsStep(kids: seq<Node>, path: seq<uint64>)
    requires path != [] && Leads(kids, path)
    ensures var l := Last(kids, path[0]); l.Some? && l.value.Message?
    ensures Leads(SubMessage(kids, path[0]).kids, path[1..])
    ensures Found(kids, EmbeddedMessage, path[0]) == SubMessage(kids, path[0])
  {
  }

  lemma MarkSlot(kids: seq<Node>, i: nat, kids0: seq<Node>, path: seq<uint64>)
    requires path != [] && Slot(kids, i, path[0], kids0)
    ensures var m := SubMessage(kids0, path[0]);
      && Soiled(m).dirty
      && kids[i := if |path| == 1 then Soiled(m) else Message(m.fn, SoilAt(m.kids, path[1..]), m.unique, true)] == SoilAt(kids0, path)
  {
  }

  lemma BesideUntouched(V: set<Obj>, r: Obj, s: Snapshot)
    requires r in V && KeptBeside(V, r, s.trees) && s.line == UpLine(V, r) && s.below == ProtoSettings.Under(V, r)
    requires forall o | o in V :: o in s.tables && s.tables[o] == o.objects
    ensures Untouched(V, s)
  {
  }

  // ----- looking a string up -----

  lemma {:induction false} LastAt(kids: seq<Node>, f: uint64)
    ensures Last(kids, f) == if At(kids, f) == [] then None else Some(At(kids, f)[|At(kids, f)| - 1])
  {
    if kids != [] {
      LastAt(kids[1..], f);
    }
  }

  lemma {:induction false} NothingThere(path: seq<uint64>, f: uint64)
    ensures Get([], path, f) == None
    decreases |path|
  {
    if path != [] {
      NothingThere(path[1..], f);
    }
  }

  function TextOf(n: Option<Node>): Option<seq<byte>> {
    if n.Some? && n.value.Text? then Some(n.value.content) else None
  }

  /** The string at the end of a path, if there is one. */
  method TextAt(m: Obj, path: seq<uint64>, f: uint64, ghost S: set<Obj>) returns (c: Option<seq<byte>>)
    requires m in S && Valid(S) && m.IsMessage() && m.tree.Message?
    ensures c == TextOf(Get(m.tree.kids, path, f))
    decreases |path|
  {
    hide Valid, Last, At;
    var step := if path == [] then f else path[0];
    var r := m.GetFieldObject(step, S);
    LastAt(m.tree.kids, step);
    if path != [] {
      NothingThere(path[1..], f);
    }
    if r == null {
      return None;
    }
    KindOf(r, S);
    if path == [] {
      return if r.kind.StringKind? then Some(r.content) else None;
    }
    if !r.IsMessage() {
      return None;
    }
    c := TextAt(r, path[1..], f, S);
  }

  lemma KindOf(r: Obj, S: set<Obj>)
    requires r in S && Valid(S)
    ensures r.tree.Message? == r.IsMessage() && r.tree.Text? == r.kind.StringKind?
    ensures r.tree.Text? ==> r.tree.content == r.content
  {
    assert r.Mirrored();
  }

  // ----- SetOnlineIndicator -----

  lemma {:induction false} HeapSorted(o: Obj, S: set<Obj>)
    requires o in S && Valid(S) && o.tree.Message?
    ensures SortedDeep(o.tree.kids)
    decreases o.tree
  {
    assert o.Mirrored() && o.Linked(S);
    forall n | n in o.tree.kids && n.Message?
      ensures SortedDeep(n.kids)
    {
      var i :| 0 <= i < |o.tree.kids| && o.tree.kids[i] == n;
      HeapSorted(o.objects[i], S);
    }
    forall i, j | 0 <= i < j < |o.tree.kids|
      ensures o.tree.kids[i].fn <= o.tree.kids[j].fn
    {
      assert o.objects[i].Mirrored() && o.objects[j].Mirrored();
    }
  }

  lemma {:induction false} LastStored(kids: seq<Node>, n: Node)
    requires Sorted(kids)
    ensures Last(Upsert(kids, n), n.fn) == Some(n)
  {
    if kids != [] {
      LastStored(kids[1..], n);
      if n.fn < kids[0].fn {
        NoneLater(kids, n.fn);
        assert ([n] + kids)[1..] == kids;
      } else if kids[0].fn == n.fn && (|kids| == 1 || kids[1].fn != n.fn) {
        NoneLater(kids[1..], n.fn);
        assert Upsert(kids, n)[1..] == kids[1..];
      } else {
        assert Upsert(kids, n)[1..] == Upsert(kids[1..], n);
      }
    }
  }

  lemma NoneLater(kids: seq<Node>, f: uint64)
    requires Sorted(kids) && (kids != [] ==> f < kids[0].fn)
    ensures Last(kids, f) == None
  {
  }

  /** After the edit the path is there. */
  lemma {:induction false} EditLeads(kids: seq<Node>, path: seq<uint64>, leaf: Node)
    requires SortedDeep(kids)
    ensures Leads(SetLeaf(kids, path, leaf), path)
    decreases |path|
  {
    if path != [] {
      var m := SubMessage(kids, path[0]);
      EditLeads(m.kids, path[1..], leaf);
      LastStored(kids, Message(m.fn, SetLeaf(m.kids, path[1..], leaf), m.unique, true));
      hide SetLeaf, Upsert, SortedDeep;
    }
  }

  /** SetOnlineIndicator, for a status whose name is state; none is empty, so a state that is missing
      is never taken for it. */
  method SetOnlineIndicator(root: Obj, state: seq<byte>, ghost S: set<Obj>) returns (ghost W: set<Obj>)
    requires root in S && Valid(S) && root.IsMessage() && root.tree.Message? && state != []
    requires Ready(root.tree.kids, [ACTIVITY, INDICATOR], Indicator(state))
    modifies S`depth, S`parent, S`objects, S`isDirty, S`tree, S`value, S`value32, S`content
    ensures S <= W && fresh(W - S) && Valid(W) && root.tree.Message?
    ensures root.tree.kids == Indicated(old(root.tree.kids), state)
  {
    hide *;
    ghost var kids := root.tree.kids;
    var path := [ACTIVITY, INDICATOR];
    HeapSorted(root, S);
    EditLeads(kids, path, Indicator(state));
    IndicatedWhen(kids, state);
    W := S;
    var current := TextAt(root, path, STATE, S);
    if current != Some(state) {
      W := SetLeafAt(root, path, Indicator(state), W);
      W := MarkPath(root, path, W);
    }
  }

  lemma IndicatedWhen(kids: seq<Node>, state: seq<byte>)
    ensures Indicated(kids, state) ==
      if TextOf(Get(kids, [ACTIVITY, INDICATOR], STATE)) == Some(state) then kids
      else SoilAt(SetLeaf(kids, [ACTIVITY, INDICATOR], Indicator(state)), [ACTIVITY, INDICATOR])
  {
  }

  // ----- SetCustomStatus -----

  const CUSTOM_STATUS: uint64 := 2

  /** The three leaves SetCustomStatus sets. */
  function CustomStatus(text: seq<byte>, emoji: seq<byte>, expiry: uint64): seq<Set> {
    var path := [ACTIVITY, CUSTOM_STATUS];
    [Set(path, Text(1, text, false)), Set(path, Text(3, emoji, false)), Set(path, Fixed64(4, expiry, false))]
  }

  /** Editing beside the indicator leaves it alone. */
  lemma BesideIndicator(kids: seq<Node>, leaf: Node)
    requires Unique(kids) && Fits(kids, [ACTIVITY, CUSTOM_STATUS], leaf)
    ensures var e := SetLeaf(kids, [ACTIVITY, CUSTOM_STATUS], leaf);
      Unique(e) && Last(SubMessage(e, ACTIVITY).kids, INDICATOR) == Last(SubMessage(kids, ACTIVITY).kids, INDICATOR)
  {
    var path, m := [ACTIVITY, CUSTOM_STATUS], SubMessage(kids, ACTIVITY);
    SetLeafUnique(kids, path, leaf);
    SubUnique(kids, ACTIVITY);
    UniqueAscends(kids);
    UniqueAscends(m.kids);
    assert path[1..] == [CUSTOM_STATUS] && [CUSTOM_STATUS][1..] == [];
    var c := SubMessage(m.kids, CUSTOM_STATUS);
    var n := Message(CUSTOM_STATUS, SetLeaf(c.kids, [], leaf), c.unique, true);
    assert SetLeaf(m.kids, [CUSTOM_STATUS], leaf) == Upsert(m.kids, n);
    LastUpsert(kids, Message(ACTIVITY, Upsert(m.kids, n), m.unique, true), ACTIVITY);
    LastUpsert(m.kids, n, INDICATOR);
    hide Upsert, Last;
  }

  /** SetCustomStatus then asks for the indicator as a string.  The assertion in that call holds exactly
      if there was no indicator, or it was no message, or an empty one: once a state is set, it fails. */
  lemma CustomStatusAsserts(kids: seq<Node>, text: seq<byte>, emoji: seq<byte>, expiry: uint64)
    requires Unique(kids) && FitsAll(kids, CustomStatus(text, emoji, expiry))
    ensures var asked := SubMessage(SetAll(kids, CustomStatus(text, emoji, expiry)), ACTIVITY).kids;
      var l := Last(SubMessage(kids, ACTIVITY).kids, INDICATOR);
      && (MayAsk(asked, StringKind, INDICATOR) <==> l.None? || !l.value.Message? || l.value.kids == [])
      && (Get(kids, [ACTIVITY, INDICATOR], STATE).Some? ==> !MayAsk(asked, StringKind, INDICATOR))
  {
    hide *;
    var path := [ACTIVITY, CUSTOM_STATUS];
    var k1 := SetLeaf(kids, path, Text(1, text, false));
    var k2 := SetLeaf(k1, path, Text(3, emoji, false));
    ThreeSets(kids, text, emoji, expiry);
    BesideIndicator(kids, Text(1, text, false));
    BesideIndicator(k1, Text(3, emoji, false));
    BesideIndicator(k2, Fixed64(4, expiry, false));
    AskedForString(kids);
    AskedForString(SetLeaf(k2, path, Fixed64(4, expiry, false)));
  }

  lemma ThreeSets(kids: seq<Node>, text: seq<byte>, emoji: seq<byte>, expiry: uint64)
    requires FitsAll(kids, CustomStatus(text, emoji, expiry))
    ensures var path := [ACTIVITY, CUSTOM_STATUS];
      var k1 := SetLeaf(kids, path, Text(1, text, false));
      var k2 := SetLeaf(k1, path, Text(3, emoji, false));
      && Fits(kids, path, Text(1, text, false)) && Fits(k1, path, Text(3, emoji, false)) && Fits(k2, path, Fixed64(4, expiry, false))
      && SetAll(kids, CustomStatus(text, emoji, expiry)) == SetLeaf(k2, path, Fixed64(4, expiry, false))
  {
    var ops := CustomStatus(text, emoji, expiry);
    var k1 := SetLeaf(kids, ops[0].path, ops[0].leaf);
    var k2 := SetLeaf(k1, ops[1].path, ops[1].leaf);
    hide SetLeaf, Fits;
    assert ops[1..] == [ops[1], ops[2]] && ops[1..][1..] == [ops[2]] && [ops[2]][1..] == [];
    assert FitsAll(k1, [ops[1], ops[2]]) && SetAll(kids, ops) == SetAll(k1, [ops[1], ops[2]]);
    assert [ops[1], ops[2]][1..] == [ops[2]];
    assert FitsAll(k2, [ops[2]]) && SetAll(k1, [ops[1], ops[2]]) == SetAll(k2, [ops[2]]);
  }

  lemma AskedForString(kids: seq<Node>)
    ensures var asked := SubMessage(kids, ACTIVITY).kids;
      var l := Last(asked, INDICATOR);
      && (MayAsk(asked, StringKind, INDICATOR) <==> l.None? || !l.value.Message? || l.value.kids == [])
      && (Get(kids, [ACTIVITY, INDICATOR], STATE).Some? ==> l.Some? && l.value.Message? && l.value.kids != [])
  {
    assert [ACTIVITY, INDICATOR][1..] == [INDICATOR] && [INDICATOR][1..] == [];
    var m := SubMessage(kids, ACTIVITY);
    assert Get(kids, [ACTIVITY, INDICATOR], STATE) == Get(SubMessage(m.kids, INDICATOR).kids, [], STATE);
  }

  // ----- in figures -----

  /** The indicator's state is field 1 of field 1 of field 11, and is set there, dirty, unless it is there. */
  lemma IndicatorForm(kids: seq<Node>, state: seq<byte>)
    requires Unique(kids)
    ensures var l := Get(kids, [11, 1], 1);
      if l.Some? && l.value.Text? && l.value.content == state then Indicated(kids, state) == kids
      else Indicated(kids, state) == SoilAt(SetLeaf(kids, [11, 1], Text(1, state, false)), [11, 1])
  {
    hide SoilAt, SetLeaf, Get;
  }

  /** The custom status is field 2 of field 11, with the text in field 1, the emoji in 3 and the expiry in 4. */
  lemma StatusForm(text: seq<byte>, emoji: seq<byte>, expiry: uint64)
    ensures CustomStatus(text, emoji, expiry) ==
      [Set([11, 2], Text(1, text, false)), Set([11, 2], Text(3, emoji, false)), Set([11, 2], Fixed64(4, expiry, false))]
  {
  }

  /** Marking: the message at the end of the path with all it holds, and everything on the way. */
  lemma SoilForm(kids: seq<Node>, f: uint64, path: seq<uint64>)
    ensures SoilAt(kids, [f]) == Upsert(kids, Soiled(SubMessage(kids, f)))
    ensures path != [] ==> var m := SubMessage(kids, f);
      SoilAt(kids, [f] + path) == Upsert(kids, Message(f, SoilAt(m.kids, path), m.unique, true))
  {
    assert ([f] + path)[1..] == path;
    hide Upsert, SubMessage, Soiled;
  }

  lemma SoiledForm(n: Node)
    ensures match n
      case VarIntField(fn, v, _) => Soiled(n) == VarIntField(fn, v, true)
      case Fixed64(fn, v, _) => Soiled(n) == Fixed64(fn, v, true)
      case Fixed32(fn, v, _) => Soiled(n) == Fixed32(fn, v, true)
      case Text(fn, c, _) => Soiled(n) == Text(fn, c, true)
      case Blob(fn, c, _) => Soiled(n) == Blob(fn, c, true)
      case Message(fn, kids, unique, _) =>
        var m := Soiled(n);
        && m.Message? && m.fn == fn && m.unique == unique && m.dirty == true && |m.kids| == |kids|
        && forall i :: 0 <= i < |kids| ==> m.kids[i] == Soiled(kids[i])
  {
  }
}
