/** Delta synchronisation: MarkClean, leaf setters, EncodeDirty and MergeWith. */
module ProtoDelta {
  import opened Bytes
  import opened ProtoTree
  import opened ProtoFields
  import opened ProtoRoundTrip

  const SUPPOSED_TO_BE_UNIQUE := 4

  /** Not a code of the program: MergeWith casts a leaf to a message, and nothing is known from there on. */
  const MISCAST := -1

  // ----- MergeWith -----

  datatype Merged = Merged(error: int, kids: seq<Node>)

  /** The length of the vector the front of a field table belongs to. */
  function GroupSize(src: seq<Node>): (g: nat)
    requires src != []
    ensures 1 <= g <= |src|
    ensures forall i :: 0 <= i < g ==> src[i].fn == src[0].fn
  {
    if |src| > 1 && src[1].fn == src[0].fn then 1 + GroupSize(src[1..]) else 1
  }

  /** Overwrites the first object stored under n's field. */
  function ReplaceFirst(kids: seq<Node>, n: Node): seq<Node> {
    if kids == [] then [] else if kids[0].fn == n.fn then [n] + kids[1..] else [kids[0]] + ReplaceFirst(kids[1..], n)
  }

  /** What merging one field's vector does to the destination's table. */
  function MergeField(kids: seq<Node>, unique: set<uint64>, vec: seq<Node>): Merged
    requires vec != []
    decreases vec, 0
  {
    var f := vec[0].fn;
    var dst := At(kids, f);
    if f !in unique || dst == [] then
      Merged(0, AddAll(Without(kids, f), {}, vec))
    else if |dst| != 1 && |vec| != 1 then
      Merged(SUPPOSED_TO_BE_UNIQUE, kids)
    else if dst[0].Message? then
      if vec[0].Message? then
        var m := Merge(dst[0].kids, dst[0].unique, vec[0].kids);
        var d := dst[0];
        if m.error != 0 then Merged(m.error, kids)
        else Merged(0, ReplaceFirst(kids, Message(d.fn, m.kids, d.unique, true)))
      else Merged(MISCAST, kids)
    else
      Merged(0, ReplaceFirst(kids, vec[0]))
  }

  /** MergeWith: walks the other message's fields in order and stops at the first error. */
  function Merge(kids: seq<Node>, unique: set<uint64>, src: seq<Node>): Merged
    decreases src, 1
  {
    if src == [] then Merged(0, kids) else
    var g := GroupSize(src);
    var step := if g == |src| then MergeField(kids, unique, src) else MergeField(kids, unique, src[..g]);
    if step.error != 0 || g == |src| then step else Merge(step.kids, unique, src[g..])
  }

  // ----- leaf setters and MarkClean -----

  /** Overwrites the last object stored under n's field, or stores n there. */
  function Upsert(kids: seq<Node>, n: Node): (r: seq<Node>)
    ensures forall k :: k in r ==> k == n || k in kids
    ensures n in r
  {
    if kids == [] || n.fn < kids[0].fn then [n] + kids
    else if kids[0].fn == n.fn && (|kids| == 1 || kids[1].fn != n.fn) then [n] + kids[1..]
    else [kids[0]] + Upsert(kids[1..], n)
  }

  function Last(kids: seq<Node>, f: uint64): (r: Option<Node>)
    ensures r.Some? ==> r.value in kids && r.value.fn == f
    ensures r.None? ==> forall k :: k in kids ==> k.fn != f
  {
    if kids == [] then None
    else
      var later := Last(kids[1..], f);
      if later.Some? then later else if kids[0].fn == f then Some(kids[0]) else None
  }

  /** The leaf n as a setter leaves it. */
  function Touched(n: Node): Node {
    match n
    case VarIntField(fn, v, _) => VarIntField(fn, v, true)
    case Fixed64(fn, v, _) => Fixed64(fn, v, true)
    case Fixed32(fn, v, _) => Fixed32(fn, v, true)
    case Text(fn, c, _) => Text(fn, c, true)
    case Blob(fn, c, _) => Blob(fn, c, true)
    case Message(fn, kids, unique, _) => Message(fn, kids, unique, true)
  }

  /** The message GetFieldObjectDefault hands out for field f: the last one there or a new one. */
  function SubMessage(kids: seq<Node>, f: uint64): (r: Node)
    ensures r.fn == f && r.Message?
  {
    var l := Last(kids, f);
    if l.Some? && l.value.Message? then l.value else Message(f, [], {}, false)
  }

  /** GetFieldObjectDefault down the path, creating what is missing, then the leaf's setter:
      everything on the way becomes dirty. */
  function SetLeaf(kids: seq<Node>, path: seq<uint64>, leaf: Node): seq<Node>
    decreases |path|
  {
    if path == [] then Upsert(kids, Touched(leaf))
    else
      var m := SubMessage(kids, path[0]);
      Upsert(kids, Message(m.fn, SetLeaf(m.kids, path[1..], leaf), m.unique, true))
  }

  /** The objects already on the path are of the kinds the caller asks for. */
  predicate Fits(kids: seq<Node>, path: seq<uint64>, leaf: Node)
    decreases |path|
  {
    if path == [] then
      !leaf.Message? && Packable(leaf.fn) && (Last(kids, leaf.fn).Some? ==> !Last(kids, leaf.fn).value.Message?)
    else
      && Packable(path[0])
      && (Last(kids, path[0]).Some? ==> Last(kids, path[0]).value.Message?)
      && Fits(SubMessage(kids, path[0]).kids, path[1..], leaf)
  }

  datatype Set = Set(path: seq<uint64>, leaf: Node)

  function SetAll(kids: seq<Node>, ops: seq<Set>): seq<Node>
    decreases |ops|
  {
    if ops == [] then kids else SetAll(SetLeaf(kids, ops[0].path, ops[0].leaf), ops[1..])
  }

  predicate FitsAll(kids: seq<Node>, ops: seq<Set>)
    decreases |ops|
  {
    ops == [] || (
      && Fits(kids, ops[0].path, ops[0].leaf)
      && FitsAll(SetLeaf(kids, ops[0].path, ops[0].leaf), ops[1..]))
  }

  /** MarkClean, recursively. */
  function Clean(n: Node): (r: Node)
    ensures r.fn == n.fn && !r.dirty
  {
    match n
    case VarIntField(fn, v, _) => VarIntField(fn, v, false)
    case Fixed64(fn, v, _) => Fixed64(fn, v, false)
    case Fixed32(fn, v, _) => Fixed32(fn, v, false)
    case Text(fn, c, _) => Text(fn, c, false)
    case Blob(fn, c, _) => Blob(fn, c, false)
    case Message(fn, kids, unique, _) => Message(fn, CleanAll(kids), unique, false)
  }

  function CleanAll(kids: seq<Node>): (r: seq<Node>)
    ensures |r| == |kids|
    ensures forall i :: 0 <= i < |kids| ==> r[i] == Clean(kids[i])
  {
    if kids == [] then [] else [Clean(kids[0])] + CleanAll(kids[1..])
  }

  // ----- how the edited tree relates to the replica -----

  /** Every field of every message holds at most one object. */
  predicate Unique(kids: seq<Node>) {
    && Ascending(kids)
    && forall k | k in kids :: Packable(k.fn) && (k.Message? ==> Unique(k.kids))
  }

  /** n is new since the last MarkClean: all of it is dirty. */
  predicate AllNew(n: Node) {
    n.dirty && (n.Message? ==> forall k | k in n.kids :: AllNew(k))
  }

  predicate RelatedNode(x: Node, y: Node)
    decreases y
  {
    && x.fn == y.fn && x.Message? == y.Message?
    && (if !y.dirty then Plain(x) == Plain(y) else y.Message? ==> Related(x.kids, y.kids))
  }

  /** b is a with some leaves set: each object of a is still there, equal if it is clean, and
      what b adds is all new. */
  predicate Related(a: seq<Node>, b: seq<Node>)
    decreases b
  {
    if b == [] then a == []
    else if a != [] && a[0].fn == b[0].fn then RelatedNode(a[0], b[0]) && Related(a[1..], b[1..])
    else (a == [] || b[0].fn < a[0].fn) && AllNew(b[0]) && Related(a, b[1..])
  }

  /** Where the edited tree changes a message the replica has too, the replica either declares
      its field unique and the same holds inside, or everything in that message is dirty. */
  predicate Covered(a: seq<Node>, unique: set<uint64>, b: seq<Node>)
    decreases b
  {
    b == [] || (CoveredHead(a, unique, b[0]) && Covered(Behind(a, b[0]), unique, b[1..]))
  }

  predicate CoveredHead(a: seq<Node>, unique: set<uint64>, n: Node)
    decreases n
  {
    n.dirty && n.Message? && Present(a, n) && a[0].Message? ==>
      if n.fn in unique then Covered(a[0].kids, a[0].unique, n.kids) else AllNew(n)
  }

  /** The replica's table starts with n's field. */
  predicate Present(a: seq<Node>, n: Node) {
    a != [] && a[0].fn == n.fn
  }

  /** The replica's table past n's field. */
  function Behind(a: seq<Node>, n: Node): seq<Node> {
    if Present(a, n) then a[1..] else a
  }

  /** What merging the delta of b into a leaves, field by field. */
  function Synced(a: seq<Node>, unique: set<uint64>, b: seq<Node>): (r: seq<Node>)
    requires Related(a, b)
    ensures |r| == |b|
    decreases b, 1
  {
    if b == [] then [] else [SyncedHead(a, unique, b)] + Synced(Behind(a, b[0]), unique, b[1..])
  }

  function SyncedHead(a: seq<Node>, unique: set<uint64>, b: seq<Node>): (h: Node)
    requires b != [] && Related(a, b)
    ensures h.fn == b[0].fn
    decreases b, 0
  {
    var n := b[0];
    if !n.dirty && Present(a, n) then a[0]
    else if Present(a, n) && n.fn in unique && a[0].Message? then
      assert RelatedNode(a[0], n);
      Message(n.fn, Synced(a[0].kids, a[0].unique, n.kids), a[0].unique, true)
    else Fresh(Prune(n))
  }

  // ----- merging a delta -----

  lemma {:induction false} AtPresent(done: seq<Node>, x: Node, a: seq<Node>)
    requires forall d :: d in done || d in a ==> d.fn != x.fn
    ensures At(done + [x] + a, x.fn) == [x]
  {
    var s := done + [x] + a;
    if done == [] {
      AtAbsent(a, x.fn);
      assert s[1..] == a;
    } else {
      AtPresent(done[1..], x, a);
      assert done[0] in done;
      assert s[1..] == done[1..] + [x] + a;
    }
  }

  lemma {:induction false} AtAbsent(a: seq<Node>, f: uint64)
    requires forall d :: d in a ==> d.fn != f
    ensures At(a, f) == [] && Without(a, f) == a
  {
    if a != [] {
      assert a[0] in a;
      AtAbsent(a[1..], f);
      assert a == [a[0]] + a[1..];
    }
  }

  lemma {:induction false} ReplaceMiddle(done: seq<Node>, x: Node, a: seq<Node>, n: Node)
    requires n.fn == x.fn && forall d :: d in done ==> d.fn != x.fn
    ensures ReplaceFirst(done + [x] + a, n) == done + [n] + a
  {
    var s := done + [x] + a;
    if done == [] {
      assert s[1..] == a;
    } else {
      assert done[0] in done;
      ReplaceMiddle(done[1..], x, a, n);
      assert s[1..] == done[1..] + [x] + a;
      assert [done[0]] + (done[1..] + [n] + a) == done + [n] + a;
    }
  }

  lemma {:induction false} PushMiddle(done: seq<Node>, a: seq<Node>, n: Node)
    requires forall d :: d in done ==> d.fn < n.fn
    requires a == [] || n.fn < a[0].fn
    ensures Push(done + a, n) == done + [n] + a
  {
    if done == [] {
      assert done + a == a;
      assert done + [n] + a == [n] + a;
    } else {
      assert done[0] in done;
      PushMiddle(done[1..], a, n);
      assert (done + a)[1..] == done[1..] + a && (done + a)[0] == done[0];
      assert Push(done + a, n) == [done[0]] + Push(done[1..] + a, n);
      hide Push;
      assert [done[0]] + (done[1..] + [n] + a) == done + [n] + a;
    }
  }

  lemma MergeOne(kids: seq<Node>, unique: set<uint64>, n: Node, rest: seq<Node>)
    requires rest == [] || rest[0].fn != n.fn
    ensures Merge(kids, unique, [n] + rest) ==
      var step := MergeField(kids, unique, [n]);
      if step.error != 0 then step else Merge(step.kids, unique, rest)
  {
    var src := [n] + rest;
    assert GroupSize(src) == 1;
    assert src[..1] == [n] && src[1..] == rest;
    if rest == [] {
      assert src == [n];
    }
  }

  lemma {:induction false} PruneFields(kids: seq<Node>)
    requires Ascending(kids)
    ensures forall p :: p in PruneAll(kids) ==> exists k :: k in kids && k.fn == p.fn
    ensures Ascending(PruneAll(kids))
  {
    if kids != [] {
      PruneFields(kids[1..]);
      var rest := PruneAll(kids[1..]);
      forall p | p in rest ensures kids[0].fn < p.fn {
        var k :| k in kids[1..] && k.fn == p.fn;
      }
      if kids[0].dirty {
        var p := [Prune(kids[0])] + rest;
        assert PruneAll(kids) == p;
        forall i, j | 0 <= i < j < |p| ensures p[i].fn < p[j].fn {
          assert p[j] in rest;
        }
        assert kids[0] in kids;
      } else {
        assert PruneAll(kids) == rest;
      }
    }
  }

  predicate Before(done: seq<Node>, s: seq<Node>) {
    forall d, n :: d in done && n in s ==> d.fn < n.fn
  }

  lemma UniqueTail(a: seq<Node>)
    requires Unique(a) && a != []
    ensures Unique(a[1..]) && Ascending(a[1..]) && Before([a[0]], a[1..])
    ensures a[0].Message? ==> Unique(a[0].kids)
  {
    assert a[0] in a;
  }

  /** A field the replica does not have is stored between the fields around it. */
  lemma MergeNew(done: seq<Node>, a: seq<Node>, unique: set<uint64>, n: Node)
    requires Before(done, [n]) && Before([n], a)
    ensures MergeField(done + a, unique, [n]) == Merged(0, done + [n] + a)
  {
    assert n in [n];
    AtAbsent(done + a, n.fn);
    StoreMiddle(done, a, n);
  }

  lemma StoreMiddle(done: seq<Node>, a: seq<Node>, n: Node)
    requires Before(done, [n]) && Before([n], a)
    ensures AddAll(done + a, {}, [n]) == done + [n] + a
  {
    assert n in [n];
    assert a != [] ==> a[0] in a;
    PushMiddle(done, a, n);
    assert AddAll(done + a, {}, [n]) == AddAll(Push(done + a, n), {}, [n][1..]);
  }

  /** A repeated field of the replica is replaced whole. */
  lemma MergeRepeated(done: seq<Node>, x: Node, a: seq<Node>, unique: set<uint64>, n: Node)
    requires x.fn == n.fn && n.fn !in unique
    requires Before(done, [n]) && Before([n], a)
    ensures MergeField(done + [x] + a, unique, [n]) == Merged(0, done + [n] + a)
  {
    assert n in [n];
    WithoutMiddle(done, x, a);
    StoreMiddle(done, a, n);
  }

  lemma {:induction false} WithoutMiddle(done: seq<Node>, x: Node, a: seq<Node>)
    requires forall d :: d in done || d in a ==> d.fn != x.fn
    ensures Without(done + [x] + a, x.fn) == done + a
  {
    var s := done + [x] + a;
    if done == [] {
      assert s[1..] == a && done + a == a;
      AtAbsent(a, x.fn);
    } else {
      assert done[0] in done;
      WithoutMiddle(done[1..], x, a);
      assert s[1..] == done[1..] + [x] + a;
      assert [done[0]] + (done[1..] + a) == done + a;
    }
  }

  /** A leaf the replica has under a unique field is overwritten where it stands. */
  lemma MergeLeaf(done: seq<Node>, x: Node, a: seq<Node>, unique: set<uint64>, n: Node)
    requires x.fn == n.fn && n.fn in unique && !x.Message?
    requires Before(done, [n]) && Before([n], a)
    ensures MergeField(done + [x] + a, unique, [n]) == Merged(0, done + [n] + a)
  {
    assert n in [n];
    AtPresent(done, x, a);
    ReplaceMiddle(done, x, a, n);
  }

  /** A message the replica has under a unique field is merged into. */
  lemma MergeMessage(done: seq<Node>, x: Node, a: seq<Node>, unique: set<uint64>, n: Node)
    requires x.fn == n.fn && n.fn in unique && x.Message? && n.Message?
    requires Before(done, [n]) && Before([n], a)
    requires Merge(x.kids, x.unique, n.kids).error == 0
    ensures MergeField(done + [x] + a, unique, [n]) ==
      Merged(0, done + [Message(x.fn, Merge(x.kids, x.unique, n.kids).kids, x.unique, true)] + a)
  {
    assert n in [n];
    AtPresent(done, x, a);
    ReplaceMiddle(done, x, a, Message(x.fn, Merge(x.kids, x.unique, n.kids).kids, x.unique, true));
  }

  lemma TailFields(n: Node, rest: seq<Node>)
    requires Ascending(rest) && Before([n], rest)
    ensures var tail := FreshAll(PruneAll(rest)); tail == [] || tail[0].fn != n.fn
  {
    PruneFields(rest);
    var p := PruneAll(rest);
    if p != [] {
      assert p[0] in p && n in [n];
      assert FreshAll(p)[0].fn == p[0].fn;
    }
  }

  /** The delta of a table is the delta of its tail, after its first object if that is dirty. */
  lemma DeltaCons(b: seq<Node>)
    requires b != []
    ensures b[0].dirty ==> FreshAll(PruneAll(b)) == [Fresh(Prune(b[0]))] + FreshAll(PruneAll(b[1..]))
    ensures !b[0].dirty ==> FreshAll(PruneAll(b)) == FreshAll(PruneAll(b[1..]))
  {
    if b[0].dirty {
      assert PruneAll(b)[1..] == PruneAll(b[1..]);
    } else {
      assert PruneAll(b) == PruneAll(b[1..]);
    }
  }

  lemma RelatedHead(a: seq<Node>, b: seq<Node>)
    requires b != [] && Unique(a) && Related(a, b)
    ensures Related(Behind(a, b[0]), b[1..])
    ensures if Present(a, b[0]) then RelatedNode(a[0], b[0]) else AllNew(b[0])
    ensures Before([b[0]], Behind(a, b[0]))
  {
    if a != [] {
      UniqueTail(a);
      assert a == [a[0]] + a[1..];
      assert a[0] in [a[0]];
    }
  }

  lemma HeadFacts(a: seq<Node>, b: seq<Node>)
    requires b != [] && Unique(a) && Unique(b) && Related(a, b)
    ensures Unique(Behind(a, b[0])) && Unique(b[1..]) && Ascending(b[1..]) && Related(Behind(a, b[0]), b[1..])
    ensures Before([b[0]], Behind(a, b[0])) && Before([b[0]], b[1..])
    ensures if Present(a, b[0]) then RelatedNode(a[0], b[0]) && a[0].Message? == b[0].Message? else AllNew(b[0])
    ensures Present(a, b[0]) && a[0].Message? ==> Unique(a[0].kids) && Unique(b[0].kids)
  {
    hide Related, AllNew, Unique, Before, Ascending;
    RelatedHead(a, b);
    UniqueTail(b);
    if a != [] {
      UniqueTail(a);
    }
  }

  lemma KindKept(n: Node)
    ensures Fresh(Prune(n)).Message? == n.Message?
    ensures n.Message? ==> Fresh(Prune(n)).kids == FreshAll(PruneAll(n.kids))
  {
  }

  lemma {:induction false} MergePresent(done: seq<Node>, x: Node, a: seq<Node>, unique: set<uint64>, n: Node)
    requires n.dirty && RelatedNode(x, n)
    requires x.Message? ==> Unique(x.kids) && Unique(n.kids)
    requires Before(done, [n]) && Before([n], a)
    ensures MergeField(done + [x] + a, unique, [Fresh(Prune(n))]) == Merged(0, done + [
      if n.fn in unique && x.Message? then Message(n.fn, Synced(x.kids, x.unique, n.kids), x.unique, true)
      else Fresh(Prune(n))] + a)
    decreases n, 1
  {
    hide Merge, MergeField, Unique, Related, Fresh, Prune, Synced;
    var p := Fresh(Prune(n));
    assert p in [p] && n in [n];
    KindKept(n);
    if n.fn !in unique {
      MergeRepeated(done, x, a, unique, p);
    } else if x.Message? {
      MergeDelta([], x.kids, x.unique, n.kids);
      assert [] + x.kids == x.kids;
      assert [] + Synced(x.kids, x.unique, n.kids) == Synced(x.kids, x.unique, n.kids);
      MergeMessage(done, x, a, unique, p);
    } else {
      MergeLeaf(done, x, a, unique, p);
    }
  }

  /** Merging the first object of a delta settles its field and leaves the rest to merge. */
  lemma {:induction false} MergeHead(done: seq<Node>, a: seq<Node>, unique: set<uint64>, b: seq<Node>)
    requires b != [] && Unique(a) && Unique(b) && Related(a, b)
    requires Before(done, a) && Before(done, b)
    ensures Merge(done + a, unique, FreshAll(PruneAll(b))) ==
      Merge(done + [SyncedHead(a, unique, b)] + Behind(a, b[0]), unique, FreshAll(PruneAll(b[1..])))
    decreases b, 1
  {
    hide Merge, MergeField, Unique, AllNew, FreshAll, PruneAll, Fresh, Prune, Synced, RelatedNode;
    var n, a' := b[0], Behind(a, b[0]);
    HeadFacts(a, b);
    DeltaCons(b);
    if Present(a, n) {
      assert a == [a[0]] + a';
      assert done + a == done + [a[0]] + a';
    }
    if n.dirty {
      var p := Fresh(Prune(n));
      assert Before(done, [n]) && Before(done, [p]);
      TailFields(n, b[1..]);
      MergeOne(done + a, unique, p, FreshAll(PruneAll(b[1..])));
      if Present(a, n) {
        MergePresent(done, a[0], a', unique, n);
      } else {
        MergeNew(done, a, unique, p);
      }
    } else {
      assert Present(a, n) by { NewIsDirty(n); }
    }
  }

  lemma NewIsDirty(n: Node)
    ensures AllNew(n) ==> n.dirty
  {
  }

  lemma MergeNothing(kids: seq<Node>, unique: set<uint64>)
    ensures Merge(kids, unique, FreshAll(PruneAll([]))) == Merged(0, kids)
  {
  }

  /** Merging the delta of b into a, the fields before them (done) already merged. */
  lemma {:induction false} MergeDelta(done: seq<Node>, a: seq<Node>, unique: set<uint64>, b: seq<Node>)
    requires Unique(a) && Unique(b) && Related(a, b)
    requires Before(done, a) && Before(done, b)
    ensures Merge(done + a, unique, FreshAll(PruneAll(b))) == Merged(0, done + Synced(a, unique, b))
    decreases b, 2
  {
    hide Merge, FreshAll, PruneAll, Unique;
    if b == [] {
      assert done + a == done;
      MergeNothing(done, unique);
    } else {
      var h, a' := SyncedHead(a, unique, b), Behind(a, b[0]);
      HeadFacts(a, b);
      MergeHead(done, a, unique, b);
      assert h.fn == b[0].fn && b[0] in b && b[0] in [b[0]];
      MergeDelta(done + [h], a', unique, b[1..]);
      assert done + [h] + Synced(a', unique, b[1..]) == done + ([h] + Synced(a', unique, b[1..]));
    }
  }
}
