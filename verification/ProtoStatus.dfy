/** Setting the online indicator: what else it marks so that it is sent along, and what that saves on
    the other side. */
module ProtoStatus {
  import opened Bytes
  import opened ProtoTree
  import opened ProtoFields
  import opened ProtoWire
  import opened ProtoRoundTrip
  import opened ProtoDelta
  import opened ProtoSync

  const ACTIVITY: uint64 := 11
  const INDICATOR: uint64 := 1
  const STATE: uint64 := 1

  // ----- MarkDirtyAndChildren -----

  /** n with everything in it dirty. */
  function Soiled(n: Node): (r: Node)
    ensures r.fn == n.fn && r.dirty && r.Message? == n.Message?
  {
    if n.Message? then Message(n.fn, SoiledAll(n.kids), n.unique, true) else Touched(n)
  }

  function SoiledAll(kids: seq<Node>): (r: seq<Node>)
    ensures |r| == |kids| && forall i :: 0 <= i < |kids| ==> r[i] == Soiled(kids[i])
  {
    if kids == [] then [] else [Soiled(kids[0])] + SoiledAll(kids[1..])
  }

  lemma {:induction false} SoiledIsNew(n: Node)
    ensures AllNew(Soiled(n))
  {
    if n.Message? {
      forall k | k in SoiledAll(n.kids)
        ensures AllNew(k)
      {
        var i :| 0 <= i < |n.kids| && SoiledAll(n.kids)[i] == k;
        SoiledIsNew(n.kids[i]);
      }
    }
  }

  lemma {:induction false} SoiledRelated(a: seq<Node>, b: seq<Node>)
    requires Related(a, b)
    ensures Related(a, SoiledAll(b))
    decreases b
  {
    if b != [] {
      assert SoiledAll(b)[1..] == SoiledAll(b[1..]);
      SoiledIsNew(b[0]);
      if Present(a, b[0]) {
        if b[0].Message? {
          InsideRelated(a[0], b[0]);
          SoiledRelated(a[0].kids, b[0].kids);
        }
        SoiledRelated(a[1..], b[1..]);
      } else {
        SoiledRelated(a, b[1..]);
      }
    }
  }

  lemma {:induction false} SoiledUnique(b: seq<Node>)
    requires Unique(b)
    ensures Unique(SoiledAll(b))
    decreases b
  {
    var s := SoiledAll(b);
    forall k | k in s
      ensures Packable(k.fn) && (k.Message? ==> Unique(k.kids))
    {
      var i :| 0 <= i < |b| && s[i] == k;
      assert b[i] in b;
      if k.Message? {
        SoiledUnique(b[i].kids);
      }
    }
  }

  /** The table after MarkDirtyAndChildren on the message the path leads to. */
  function SoilAt(kids: seq<Node>, path: seq<uint64>): seq<Node>
    requires path != []
    decreases |path|
  {
    var m := SubMessage(kids, path[0]);
    Upsert(kids, if |path| == 1 then Soiled(m) else Message(m.fn, SoilAt(m.kids, path[1..]), m.unique, true))
  }

  /** The path leads from message to message. */
  predicate Leads(kids: seq<Node>, path: seq<uint64>)
    decreases |path|
  {
    path == [] || (Last(kids, path[0]).Some? && Last(kids, path[0]).value.Message? && Leads(SubMessage(kids, path[0]).kids, path[1..]))
  }

  lemma {:induction false} SoilAtRelated(a: seq<Node>, b: seq<Node>, path: seq<uint64>)
    requires Unique(a) && Unique(b) && Related(a, b) && path != [] && Leads(b, path)
    ensures Related(a, SoilAt(b, path)) && Unique(SoilAt(b, path))
    decreases |path|
  {
    var f, m := path[0], SubMessage(b, path[0]);
    var n := if |path| == 1 then Soiled(m) else Message(m.fn, SoilAt(m.kids, path[1..]), m.unique, true);
    RelatedLast(a, b, f);
    assert m in b && Packable(f);
    match Last(a, f) {
      case Some(x) =>
        InsideRelated(x, m);
        if |path| == 1 {
          SoiledRelated(x.kids, m.kids);
          SoiledUnique(m.kids);
        } else {
          SoilAtRelated(x.kids, m.kids, path[1..]);
        }
      case None =>
        if |path| == 1 {
          SoiledIsNew(m);
          SoiledUnique(m.kids);
        } else {
          SoilAtNew(m.kids, path[1..]);
        }
    }
    UpsertRelated(a, b, n);
    UpsertUnique(b, n);
  }

  lemma {:induction false} SoilAtNew(b: seq<Node>, path: seq<uint64>)
    requires Unique(b) && AllAreNew(b) && path != [] && Leads(b, path)
    ensures AllAreNew(SoilAt(b, path)) && Unique(SoilAt(b, path))
    decreases |path|
  {
    var m := SubMessage(b, path[0]);
    assert m in b && AllNew(m) && Packable(path[0]);
    if |path| == 1 {
      SoiledIsNew(m);
      SoiledUnique(m.kids);
      UpsertUnique(b, Soiled(m));
    } else {
      SoilAtNew(m.kids, path[1..]);
      UpsertUnique(b, Message(m.fn, SoilAt(m.kids, path[1..]), m.unique, true));
    }
  }

  // ----- when an edit of one field is covered -----

  lemma {:induction false} NewIsCovered(a: seq<Node>, unique: set<uint64>, b: seq<Node>)
    requires Related(a, b) && AllAreNew(b)
    ensures Covered(a, unique, b)
    decreases b
  {
    if b != [] {
      assert b[0] in b && AllNew(b[0]);
      if Present(a, b[0]) && b[0].Message? && a[0].Message? {
        assert RelatedNode(a[0], b[0]);
        NewIsCovered(a[0].kids, a[0].unique, b[0].kids);
      }
      NewIsCovered(Behind(a, b[0]), unique, b[1..]);
    }
  }

  /** One message of the edited table against the replica's. */
  predicate CoveredPair(x: Node, unique: set<uint64>, y: Node) {
    y.dirty && y.Message? && x.Message? ==> if y.fn in unique then Covered(x.kids, x.unique, y.kids) else AllNew(y)
  }

  /** When only field f was edited, the rest does not matter. */
  lemma {:induction false} CoveredOne(a: seq<Node>, unique: set<uint64>, b: seq<Node>, f: uint64)
    requires Unique(a) && Unique(b) && Related(a, b) && forall k | k in b && k.fn != f :: !k.dirty
    ensures Covered(a, unique, b) <==> (Last(a, f).Some? && Last(b, f).Some? ==> CoveredPair(Last(a, f).value, unique, Last(b, f).value))
    decreases b
  {
    hide RelatedNode, AllNew, Unique;
    UniqueAscends(a);
    UniqueAscends(b);
    if a != [] {
      LastUnique(a, f);
    }
    if b != [] {
      assert b[0] in b;
      HeadFacts(a, b);
      LastUnique(b, f);
      CoveredOne(Behind(a, b[0]), unique, b[1..], f);
    }
  }

  // ----- SetOnlineIndicator -----

  function Indicator(state: seq<byte>): Node { Text(STATE, state, false) }

  /** The table after SetOnlineIndicator: unless the state is already there, it is set, and the whole
      indicator marked dirty. */
  function Indicated(kids: seq<Node>, state: seq<byte>): seq<Node> {
    var l := Get(kids, [ACTIVITY, INDICATOR], STATE);
    if l.Some? && l.value.Text? && l.value.content == state then kids
    else SoilAt(SetLeaf(kids, [ACTIVITY, INDICATOR], Indicator(state)), [ACTIVITY, INDICATOR])
  }

  lemma {:induction false} UpsertKeeps(kids: seq<Node>, n: Node)
    requires Ascending(kids)
    ensures forall k: Node | k.fn != n.fn :: k in Upsert(kids, n) <==> k in kids
    ensures Last(Upsert(kids, n), n.fn) == Some(n)
  {
    LastUpsert(kids, n, n.fn);
    UpsertKeepsOthers(kids, n);
  }

  lemma {:induction false} UpsertKeepsOthers(kids: seq<Node>, n: Node)
    ensures forall k | k in kids && k.fn != n.fn :: k in Upsert(kids, n)
  {
    if kids != [] {
      UpsertKeepsOthers(kids[1..], n);
    }
  }

  lemma {:induction false} OnlyOne(kids: seq<Node>, k: Node)
    requires Ascending(kids) && k in kids
    ensures Last(kids, k.fn) == Some(k)
  {
    LastUnique(kids, k.fn);
    if kids[0] != k {
      OnlyOne(kids[1..], k);
    }
  }

  lemma {:induction false} LastClean(t: seq<Node>, f: uint64)
    ensures Last(CleanAll(t), f) == match Last(t, f) { case Some(x) => Some(Clean(x)) case None => None }
  {
    if t != [] {
      LastClean(t[1..], f);
      assert CleanAll(t)[1..] == CleanAll(t[1..]);
    }
  }

  /** The two changes of one message, seen in the table around it. */
  lemma TwiceUpserted(kids: seq<Node>, n: Node, n': Node)
    requires Ascending(kids) && n.fn == n'.fn
    ensures var r := Upsert(Upsert(kids, n), n');
      && Ascending(r) && Last(r, n.fn) == Some(n') && forall k: Node | k.fn != n.fn :: k in r <==> k in kids
  {
    hide Upsert, Last;
    UpsertAscends(kids, n);
    UpsertAscends(Upsert(kids, n), n');
    UpsertKeeps(kids, n);
    UpsertKeeps(Upsert(kids, n), n');
  }

  /** The activity and the indicator once the state is set, before and after they are marked. */
  function SetIndicator(c: seq<Node>, state: seq<byte>): Node {
    var mi := SubMessage(SubMessage(c, ACTIVITY).kids, INDICATOR);
    Message(INDICATOR, Upsert(mi.kids, Touched(Indicator(state))), mi.unique, true)
  }

  function MarkedActivity(c: seq<Node>, state: seq<byte>): Node {
    var ma := SubMessage(c, ACTIVITY);
    var n := SetIndicator(c, state);
    Message(ACTIVITY, Upsert(Upsert(ma.kids, n), Soiled(n)), ma.unique, true)
  }

  lemma IndicatedIs(c: seq<Node>, state: seq<byte>)
    requires Unique(c)
    ensures var e := SetLeaf(c, [ACTIVITY, INDICATOR], Indicator(state));
      && Ascending(c) && Ascending(SubMessage(c, ACTIVITY).kids) && Leads(e, [ACTIVITY, INDICATOR])
      && SoilAt(e, [ACTIVITY, INDICATOR])
        == Upsert(Upsert(c, Message(ACTIVITY, Upsert(SubMessage(c, ACTIVITY).kids, SetIndicator(c, state)), SubMessage(c, ACTIVITY).unique, true)),
                  MarkedActivity(c, state))
  {
    var ma := SubMessage(c, ACTIVITY);
    SubUnique(c, ACTIVITY);
    UniqueAscends(c);
    UniqueAscends(ma.kids);
    var n2 := SetIndicator(c, state);
    var n1 := Message(ACTIVITY, Upsert(ma.kids, n2), ma.unique, true);
    assert [ACTIVITY, INDICATOR][1..] == [INDICATOR] && [INDICATOR][1..] == [];
    var e := SetLeaf(c, [ACTIVITY, INDICATOR], Indicator(state));
    assert SetLeaf(ma.kids, [INDICATOR], Indicator(state)) == Upsert(ma.kids, n2);
    assert e == Upsert(c, n1);
    LastUpsert(c, n1, ACTIVITY);
    LastUpsert(ma.kids, n2, INDICATOR);
    hide Upsert, Last;
    assert SubMessage(e, ACTIVITY) == n1 && SubMessage(n1.kids, INDICATOR) == n2;
    assert Leads(n2.kids, []) && Leads(n1.kids, [INDICATOR]);
  }

  /** What the edited table has dirty: the activity, in it the indicator, and all of that. */
  lemma IndicatedParts(c: seq<Node>, state: seq<byte>)
    requires Unique(c) && forall k | k in c :: k == Clean(k)
    ensures var e := SoilAt(SetLeaf(c, [ACTIVITY, INDICATOR], Indicator(state)), [ACTIVITY, INDICATOR]);
      var m := MarkedActivity(c, state);
      && Last(e, ACTIVITY) == Some(m) && (forall k | k in e && k.fn != ACTIVITY :: !k.dirty)
      && Last(m.kids, INDICATOR) == Some(Soiled(SetIndicator(c, state)))
      && (forall k | k in m.kids && k.fn != INDICATOR :: !k.dirty)
      && (AllNew(m) <==> forall k | k in SubMessage(c, ACTIVITY).kids :: k.fn == INDICATOR)
  {
    var ma, n := SubMessage(c, ACTIVITY), SetIndicator(c, state);
    IndicatedIs(c, state);
    TwiceUpserted(c, Message(ACTIVITY, Upsert(ma.kids, n), ma.unique, true), MarkedActivity(c, state));
    TwiceUpserted(ma.kids, n, Soiled(n));
    SoiledIsNew(n);
    CleanInside(c);
    var m := MarkedActivity(c, state);
    hide Upsert, SoilAt, SetLeaf, Soiled, SetIndicator;
    forall k | k in m.kids && k.fn == INDICATOR
      ensures AllNew(k)
    {
      OnlyOne(m.kids, k);
    }
    assert AllNew(m) <==> forall k | k in m.kids :: AllNew(k);
    forall k | k in m.kids && k.fn != INDICATOR
      ensures !AllNew(k)
    {
    }
  }

  lemma CleanInside(c: seq<Node>)
    requires forall k | k in c :: k == Clean(k)
    ensures forall k | k in SubMessage(c, ACTIVITY).kids :: !k.dirty
  {
    var l := Last(c, ACTIVITY);
    if l.Some? && l.value.Message? {
      assert l.value == Clean(l.value);
      assert l.value.kids == CleanAll(l.value.kids);
    }
  }

  /** When the other side is right about the activity. */
  predicate Spared(t: seq<Node>, unique: set<uint64>) {
    ACTIVITY in unique || forall k | k in SubMessage(t, ACTIVITY).kids :: k.fn == INDICATOR
  }

  lemma CleanFacts(t: seq<Node>)
    requires Unique(t)
    ensures var c := CleanAll(t); Unique(c) && PlainAll(c) == PlainAll(t) && forall k | k in c :: k == Clean(k) && !k.dirty
    ensures |SubMessage(CleanAll(t), ACTIVITY).kids| == |SubMessage(t, ACTIVITY).kids|
    ensures forall i :: 0 <= i < |SubMessage(t, ACTIVITY).kids| ==>
      SubMessage(CleanAll(t), ACTIVITY).kids[i].fn == SubMessage(t, ACTIVITY).kids[i].fn
  {
    var c := CleanAll(t);
    CleanUnique(t);
    CleanArePlain(t);
    LastClean(t, ACTIVITY);
    forall k | k in c
      ensures k == Clean(k) && !k.dirty
    {
      var i :| 0 <= i < |c| && c[i] == k;
      CleanTwice(t[i]);
    }
  }

  lemma {:induction false} CleanTwice(n: Node)
    ensures Clean(Clean(n)) == Clean(n)
  {
    if n.Message? {
      var kids := CleanAll(n.kids);
      forall i | 0 <= i < |kids|
        ensures CleanAll(kids)[i] == kids[i]
      {
        CleanTwice(n.kids[i]);
      }
    }
  }

  /** The marked activity against the replica's. */
  lemma CoveredActivity(x: Node, unique: set<uint64>, m: Node, n: Node)
    requires RelatedNode(x, m) && m.dirty && m.Message? && Unique(x.kids) && Unique(m.kids)
    requires Last(m.kids, INDICATOR) == Some(n) && AllNew(n) && forall k | k in m.kids && k.fn != INDICATOR :: !k.dirty
    ensures CoveredPair(x, unique, m) <==> m.fn in unique || AllNew(m)
  {
    InsideRelated(x, m);
    CoveredOne(x.kids, x.unique, m.kids, INDICATOR);
    RelatedLast(x.kids, m.kids, INDICATOR);
    var l := Last(x.kids, INDICATOR);
    if l.Some? && n.Message? && l.value.Message? {
      InsideRelated(l.value, n);
      NewIsCovered(l.value.kids, l.value.unique, n.kids);
    }
    hide RelatedNode, Related, Unique, Covered, Last;
  }

  lemma CoveredIndicator(t: seq<Node>, replica: seq<Node>, unique: set<uint64>, state: seq<byte>)
    requires Unique(t) && Unique(replica) && PlainAll(replica) == PlainAll(t)
    requires Fits(CleanAll(t), [ACTIVITY, INDICATOR], Indicator(state))
    ensures var e := SoilAt(SetLeaf(CleanAll(t), [ACTIVITY, INDICATOR], Indicator(state)), [ACTIVITY, INDICATOR]);
      && Related(replica, e) && Unique(e) && (Covered(replica, unique, e) <==> Spared(t, unique))
  {
    var c, path := CleanAll(t), [ACTIVITY, INDICATOR];
    hide Covered, Related, RelatedNode, AllNew, Unique, Last, SetLeaf, SoilAt, CoveredPair, Fits, Clean, CleanAll, SubMessage, Leads;
    CleanFacts(t);
    PlainRelated(replica, c);
    SetLeafRelated(replica, c, path, Indicator(state));
    SetLeafUnique(c, path, Indicator(state));
    IndicatedIs(c, state);
    SoilAtRelated(replica, SetLeaf(c, path, Indicator(state)), path);
    IndicatedParts(c, state);
    var e, m := SoilAt(SetLeaf(c, path, Indicator(state)), path), MarkedActivity(c, state);
    CoveredOne(replica, unique, e, ACTIVITY);
    RelatedLast(replica, e, ACTIVITY);
    SoiledIsNew(SetIndicator(c, state));
    SameFields(t);
    var l := Last(replica, ACTIVITY);
    if l.Some? {
      PairUp(l.value, m);
      CoveredActivity(l.value, unique, m, Soiled(SetIndicator(c, state)));
    } else {
      NoActivity(replica, t);
    }
  }

  lemma PairUp(x: Node, m: Node)
    requires RelatedNode(x, m) && m.Message?
    ensures x.Message?
  {
  }

  lemma SameFields(t: seq<Node>)
    requires Unique(t)
    ensures (forall k | k in SubMessage(CleanAll(t), ACTIVITY).kids :: k.fn == INDICATOR)
      <==> forall k | k in SubMessage(t, ACTIVITY).kids :: k.fn == INDICATOR
  {
    CleanFacts(t);
    hide CleanAll, SubMessage, Unique, Clean, PlainAll;
    var kids, now := SubMessage(t, ACTIVITY).kids, SubMessage(CleanAll(t), ACTIVITY).kids;
    if forall k | k in kids :: k.fn == INDICATOR {
      FieldsOnly(kids, now);
    }
    if forall k | k in now :: k.fn == INDICATOR {
      FieldsOnly(now, kids);
    }
  }

  lemma FieldsOnly(kids: seq<Node>, now: seq<Node>)
    requires |kids| == |now| && (forall i :: 0 <= i < |kids| ==> kids[i].fn == now[i].fn) && forall k | k in kids :: k.fn == INDICATOR
    ensures forall k | k in now :: k.fn == INDICATOR
  {
    forall k | k in now
      ensures k.fn == INDICATOR
    {
      var i :| 0 <= i < |now| && now[i] == k;
      assert kids[i] in kids;
    }
  }

  /** A replica without an activity is one of a tree without. */
  lemma NoActivity(replica: seq<Node>, t: seq<Node>)
    requires Unique(t) && Unique(replica) && PlainAll(replica) == PlainAll(t) && Last(replica, ACTIVITY) == None
    ensures SubMessage(t, ACTIVITY).kids == []
  {
    CleanFacts(t);
    PlainRelated(replica, CleanAll(t));
    RelatedLast(replica, CleanAll(t), ACTIVITY);
    LastClean(t, ACTIVITY);
  }

  /** One round after SetOnlineIndicator: marking the indicator and all in it does not help the rest of
      the activity.  The other side ends up with the same tree exactly if the state was set already, or
      it declares the activity unique, or there is nothing in the activity but the indicator. */
  lemma IndicatorSync(t: seq<Node>, replica: seq<Node>, unique: set<uint64>, state: seq<byte>, hint: Option<Hint>)
    requires Unique(t) && Unique(replica) && PlainAll(replica) == PlainAll(t)
    requires Fits(CleanAll(t), [ACTIVITY, INDICATOR], Indicator(state))
    requires NamesAll(hint, Indicated(CleanAll(t), state)) && DirtyPayloadSizeAll(Indicated(CleanAll(t), state)) < TWO_64
    ensures var edited := Indicated(CleanAll(t), state);
      var received := DecodeInto([], {}, EncodeDirtyAll(edited), hint);
      var m := Merge(replica, unique, received.kids);
      && received.error == 0 && m.error == 0
      && (PlainAll(m.kids) == PlainAll(edited) <==> edited == CleanAll(t) || Spared(t, unique))
  {
    hide *;
    var c := CleanAll(t);
    var edited := Indicated(c, state);
    IndicatedRelates(t, replica, unique, state);
    DeltaArrives(edited, hint);
    DeltaMerged(replica, unique, edited);
  }

  lemma IndicatedRelates(t: seq<Node>, replica: seq<Node>, unique: set<uint64>, state: seq<byte>)
    requires Unique(t) && Unique(replica) && PlainAll(replica) == PlainAll(t)
    requires Fits(CleanAll(t), [ACTIVITY, INDICATOR], Indicator(state))
    ensures var e := Indicated(CleanAll(t), state);
      && Related(replica, e) && Unique(e) && (Covered(replica, unique, e) <==> e == CleanAll(t) || Spared(t, unique))
  {
    var c := CleanAll(t);
    CleanFacts(t);
    PlainRelated(replica, c);
    CoveredIndicator(t, replica, unique, state);
    CleanCovered(replica, unique, c);
    IndicatedCases(c, state);
    hide *;
  }

  lemma IndicatedCases(c: seq<Node>, state: seq<byte>)
    ensures var e := Indicated(c, state);
      e == c || e == SoilAt(SetLeaf(c, [ACTIVITY, INDICATOR], Indicator(state)), [ACTIVITY, INDICATOR])
  {
  }

  lemma {:induction false} CleanCovered(a: seq<Node>, unique: set<uint64>, c: seq<Node>)
    requires forall k | k in c :: !k.dirty
    ensures Covered(a, unique, c)
  {
    if c != [] {
      CleanCovered(Behind(a, c[0]), unique, c[1..]);
    }
  }
}
