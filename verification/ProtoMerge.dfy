/** MergeWith on the heap: the other message's objects move over, replaced ones are destroyed, and
    nested messages are merged in place. */
module ProtoMerge {
  import opened Bytes
  import opened ProtoTree
  import opened ProtoFields
  import opened ProtoDelta
  import opened ProtoObjects

  // ----- what merging keeps, on values -----

  lemma {:induction false} AddAllMembers(kids: seq<Node>, unique: set<uint64>, ns: seq<Node>)
    ensures forall k | k in AddAll(kids, unique, ns) :: k in kids || k in ns
    decreases |ns|
  {
    if ns != [] {
      AddAllMembers(Add(kids, unique, ns[0]), unique, ns[1..]);
    }
  }

  lemma {:induction false} ReplaceFirstMembers(kids: seq<Node>, n: Node)
    ensures forall k | k in ReplaceFirst(kids, n) :: k == n || k in kids
  {
    if kids != [] {
      ReplaceFirstMembers(kids[1..], n);
    }
  }

  lemma {:induction false} AtMembers(kids: seq<Node>, f: uint64)
    ensures forall k | k in At(kids, f) :: k in kids && k.fn == f
  {
    if kids != [] {
      AtMembers(kids[1..], f);
    }
  }

  lemma {:induction false} MergeFieldUpClosed(kids: seq<Node>, unique: set<uint64>, vec: seq<Node>)
    requires vec != [] && UpClosedAll(kids) && UpClosedAll(vec) && MergeField(kids, unique, vec).error == 0
    ensures UpClosedAll(MergeField(kids, unique, vec).kids)
    decreases vec, 0
  {
    var f := vec[0].fn;
    var dst := At(kids, f);
    AtMembers(kids, f);
    assert UpClosed(vec[0]);
    if f !in unique || dst == [] {
      AddAllMembers(Without(kids, f), {}, vec);
    } else if dst[0].Message? {
      var d := dst[0];
      assert UpClosed(d);
      if vec[0].Message? {
        MergeUpClosed(d.kids, d.unique, vec[0].kids);
        ReplaceFirstMembers(kids, Message(d.fn, Merge(d.kids, d.unique, vec[0].kids).kids, d.unique, true));
      }
    } else {
      ReplaceFirstMembers(kids, vec[0]);
    }
  }

  /** A merge that succeeds leaves no dirty object below a clean one. */
  lemma {:induction false} MergeUpClosed(kids: seq<Node>, unique: set<uint64>, src: seq<Node>)
    requires UpClosedAll(kids) && UpClosedAll(src) && Merge(kids, unique, src).error == 0
    ensures UpClosedAll(Merge(kids, unique, src).kids)
    decreases src, 1
  {
    if src != [] {
      var g := GroupSize(src);
      if g == |src| {
        MergeFieldUpClosed(kids, unique, src);
      } else {
        MergeFieldUpClosed(kids, unique, src[..g]);
        MergeUpClosed(MergeField(kids, unique, src[..g]).kids, unique, src[g..]);
      }
    }
  }

  /** A message that declares no field unique takes over every field whole: its merges never fail. */
  lemma {:induction false} UndeclaredNeverFails(kids: seq<Node>, src: seq<Node>)
    ensures Merge(kids, {}, src).error == 0
    decreases |src|
  {
    if src != [] {
      MergeTurn(kids, {}, src);
      UndeclaredNeverFails(MergeField(kids, {}, src[..GroupSize(src)]).kids, src[GroupSize(src)..]);
    }
  }

  /** Wherever the two have the same field, both have messages there or both have leaves. */
  predicate KindsAgree(kids: seq<Node>, src: seq<Node>)
    decreases src
  {
    forall x, y | x in kids && y in src && x.fn == y.fn ::
      x.Message? == y.Message? && (x.Message? ==> KindsAgree(x.kids, y.kids))
  }

  lemma {:induction false} GroupEnds(src: seq<Node>)
    requires Sorted(src) && src != []
    ensures forall n | n in src[GroupSize(src)..] :: n.fn > src[0].fn
    ensures Sorted(src[GroupSize(src)..])
  {
    if |src| > 1 && src[1].fn == src[0].fn {
      GroupEnds(src[1..]);
      assert src[1..][GroupSize(src[1..])..] == src[GroupSize(src)..];
    }
  }

  /** A field's turn touches no other field. */
  lemma OtherFieldsKept(kids: seq<Node>, unique: set<uint64>, vec: seq<Node>)
    requires vec != [] && forall n | n in vec :: n.fn == vec[0].fn
    ensures forall k | k in MergeField(kids, unique, vec).kids :: k in kids || k.fn == vec[0].fn
  {
    var f := vec[0].fn;
    var dst := At(kids, f);
    AddAllMembers(Without(kids, f), {}, vec);
    if dst != [] {
      ReplaceFirstMembers(kids, vec[0]);
      if dst[0].Message? && vec[0].Message? {
        AtMembers(kids, f);
        ReplaceFirstMembers(kids, Message(dst[0].fn, Merge(dst[0].kids, dst[0].unique, vec[0].kids).kids, dst[0].unique, true));
      }
    }
    hide Merge, AddAll, Without, ReplaceFirst;
  }

  lemma {:induction false} FieldNotMiscast(kids: seq<Node>, unique: set<uint64>, vec: seq<Node>)
    requires vec != [] && KindsAgree(kids, vec) && (forall n | n in vec && n.Message? :: SortedDeep(n.kids))
    ensures MergeField(kids, unique, vec).error != MISCAST
    decreases vec, 0
  {
    var dst := At(kids, vec[0].fn);
    AtMembers(kids, vec[0].fn);
    if dst != [] {
      assert dst[0] in kids && vec[0] in vec;
      if dst[0].Message? && vec[0].Message? {
        NeverMiscast(dst[0].kids, dst[0].unique, vec[0].kids);
      }
    }
    hide AddAll, Without, ReplaceFirst, Merge;
  }

  /** The cast is never wrong when the two trees agree on what is a message. */
  lemma {:induction false} NeverMiscast(kids: seq<Node>, unique: set<uint64>, src: seq<Node>)
    requires KindsAgree(kids, src) && SortedDeep(src)
    ensures Merge(kids, unique, src).error != MISCAST
    decreases src, 1
  {
    if src != [] {
      var g := GroupSize(src);
      var vec := src[..g];
      assert forall n | n in vec :: n in src;
      MergeTurn(kids, unique, src);
      GroupEnds(src);
      OtherFieldsKept(kids, unique, vec);
      AgreeParts(kids, src, g, MergeField(kids, unique, vec).kids);
      if g == |src| {
        assert vec == src && src[g..] == [];
      }
      hide MergeField, KindsAgree, SortedDeep;
      FieldNotMiscast(kids, unique, vec);
      if g < |src| {
        NeverMiscast(MergeField(kids, unique, vec).kids, unique, src[g..]);
      }
    }
  }

  lemma AgreeParts(kids: seq<Node>, src: seq<Node>, g: nat, step: seq<Node>)
    requires KindsAgree(kids, src) && SortedDeep(src) && 0 < g <= |src| && Sorted(src[g..])
    requires (forall n | n in src[g..] :: n.fn != src[0].fn) && forall k | k in step :: k in kids || k.fn == src[0].fn
    ensures KindsAgree(kids, src[..g]) && KindsAgree(step, src[g..]) && SortedDeep(src[g..])
    ensures forall n | n in src[..g] && n.Message? :: SortedDeep(n.kids)
  {
    assert (forall n | n in src[..g] :: n in src) && forall n | n in src[g..] :: n in src;
  }

  /** One field's turn, whether or not it is the last. */
  lemma MergeTurn(kids: seq<Node>, unique: set<uint64>, src: seq<Node>)
    requires src != []
    ensures var step := MergeField(kids, unique, src[..GroupSize(src)]);
      Merge(kids, unique, src) == if step.error != 0 then step else Merge(step.kids, unique, src[GroupSize(src)..])
  {
    hide MergeField;
    if GroupSize(src) == |src| {
      assert src[..|src|] == src && src[|src|..] == [];
    }
  }

  // ----- the heap around a merge -----

  /** Every tree, table, parent and depth at some moment. */
  datatype Snap = Snap(trees: map<Obj, Node>, tables: map<Obj, seq<Obj>>, parents: map<Obj, Obj?>, depths: map<Obj, nat>)

  ghost function Now(T: set<Obj>): Snap
    reads T`tree, T`objects, T`parent, T`depth
  {
    Snap(map x | x in T :: x.tree, map x | x in T :: x.objects, map x | x in T :: x.parent, map x | x in T :: x.depth)
  }

  /** B holds the children of everything in it. */
  ghost predicate Closed(T: set<Obj>, B: set<Obj>)
    reads T`objects
  {
    B <= T && forall x, k | x in B && k in x.objects :: k in B
  }

  /** Outside B everything is as in s, the trees on the line apart. */
  predicate KeptBy(T: set<Obj>, B: set<Obj>, line: set<Obj>, now: Snap, s: Snap) {
    forall x | x in T && x !in B ::
      && x in now.tables && x in s.tables && now.tables[x] == s.tables[x]
      && x in now.parents && x in s.parents && now.parents[x] == s.parents[x]
      && x in now.depths && x in s.depths && now.depths[x] == s.depths[x]
      && (x !in line ==> x in now.trees && x in s.trees && now.trees[x] == s.trees[x])
  }

  ghost predicate Kept(T: set<Obj>, B: set<Obj>, line: set<Obj>, s: Snap)
    reads T`tree, T`objects, T`parent, T`depth
  {
    KeptBy(T, B, line, Now(T), s)
  }

  lemma KeptIs(T: set<Obj>, B: set<Obj>, line: set<Obj>, s: Snap)
    requires Kept(T, B, line, s)
    ensures KeptBy(T, B, line, Now(T), s)
  {
  }

  /** x's table may change by c without touching y or what is above y. */
  ghost predicate MayAlter(x: Obj, y: Obj, c: Cut, B: set<Obj>)
    reads c.S
  {
    && Steady(c.S) && Closed(c.S, B) && x in B && y in B && x != y && x.IsMessage()
    && x.FitsAt(c) && !Above(c.S, x, y) && !Above(c.S, y, x)
    && (c.ob != null ==> c.ob in B && c.ob != y && !Above(c.S, c.ob, y))
  }

  /** What a change to x's table does to the links, against an earlier snapshot. */
  ghost predicate Altered(x: Obj, c: Cut, s: Snap)
    reads c.S
  {
    && x in c.S && x in s.tables && c.lo <= c.hi <= |s.tables[x]|
    && x.objects == s.tables[x][..c.lo] + (if c.ob == null then [] else [c.ob]) + s.tables[x][c.hi..]
    && forall z | z in c.S ::
         && z in s.depths && z.depth == s.depths[z]
         && z in s.tables && (z != x ==> z.objects == s.tables[z])
         && z in s.parents && z.parent == if z == c.ob then x else if z in s.tables[x][c.lo..c.hi] then null else s.parents[z]
  }

  /** One change to the table of one side. */
  method Alter(x: Obj, y: Obj, c: Cut, ghost B: set<Obj>)
    requires MayAlter(x, y, c, B)
    modifies c.S`parent, x`objects, c.S`tree
    ensures Steady(c.S) && Altered(x, c, old(Now(c.S)))
    ensures UpLine(c.S, x) == old(UpLine(c.S, x)) && UpLine(c.S, y) == old(UpLine(c.S, y))
    ensures forall o | o in c.S && o !in UpLine(c.S, x) :: o.tree == old(o.tree)
    ensures y.tree == old(y.tree)
    ensures c.lo <= c.hi <= |old(x.tree.kids)| == |old(x.objects)|
    ensures x.tree.Message? && x.tree.kids == old(x.tree.kids)[..c.lo] + (if c.ob == null then [] else [old(c.ob.tree)]) + old(x.tree.kids)[c.hi..]
  {
    hide *;
    MayAlterParts(x, y, c, B);
    ghost var s, line := Now(c.S), UpLine(c.S, y);
    AlterTable(x, c);
    OffTheLine(x, c, s, line);
    y.LineStays(c.S);
  }

  lemma MayAlterParts(x: Obj, y: Obj, c: Cut, B: set<Obj>)
    requires MayAlter(x, y, c, B)
    ensures x in c.S && y in c.S && x.IsMessage() && x.FitsAt(c) && Steady(c.S)
    ensures y !in UpLine(c.S, x) && forall z | z in UpLine(c.S, y) :: z in c.S && z != c.ob && z !in x.objects
    ensures forall z | z in c.S :: z in Now(c.S).parents && Now(c.S).parents[z] == z.parent
    ensures Now(c.S).tables[x] == x.objects
  {
    KidsNotAbove(x, y, c.S);
    hide Steady, Above, x.FitsAt;
  }

  /** Off the line to y no parent changes. */
  lemma OffTheLine(x: Obj, c: Cut, s: Snap, line: set<Obj>)
    requires Altered(x, c, s) && forall z | z in line :: z in c.S && z != c.ob && z !in s.tables[x]
    ensures forall z | z in line :: z in s.parents && z.parent == s.parents[z]
  {
  }

  method AlterTable(x: Obj, c: Cut)
    requires x in c.S && x.IsMessage() && x.FitsAt(c) && Steady(c.S)
    modifies c.S`parent, x`objects, c.S`tree
    ensures Steady(c.S) && Altered(x, c, old(Now(c.S)))
    ensures UpLine(c.S, x) == old(UpLine(c.S, x))
    ensures forall o | o in c.S && o !in UpLine(c.S, x) :: o.tree == old(o.tree)
    ensures c.lo <= c.hi <= |old(x.tree.kids)| == |old(x.objects)|
    ensures x.tree.Message? && x.tree.kids == old(x.tree.kids)[..c.lo] + (if c.ob == null then [] else [old(c.ob.tree)]) + old(x.tree.kids)[c.hi..]
  {
    hide Steady, UpLine, x.FitsAt;
    x.Change(c);
  }

  /** No child of x is above y, unless x is. */
  lemma KidsNotAbove(x: Obj, y: Obj, T: set<Obj>)
    requires Steady(T) && x in T && y in T && !Above(T, x, y)
    ensures forall k | k in x.objects :: k in T && k.parent == x && !Above(T, k, y)
  {
    assert x.Linked(T);
    forall k | k in x.objects
      ensures k in T && k.parent == x && !Above(T, k, y)
    {
      if Above(T, k, y) {
        AboveTransitive(T, x, k, y);
      }
    }
  }

  // ----- what a change keeps -----

  lemma SnapClosed(T: set<Obj>, B: set<Obj>)
    requires Closed(T, B)
    ensures B <= T && forall z, k | z in B && k in Now(T).tables[z] :: k in B
    ensures forall z | z in T :: z in Now(T).tables && z in Now(T).trees && Now(T).trees[z] == z.tree
  {
  }

  lemma AlteredClosed(x: Obj, c: Cut, B: set<Obj>, s: Snap)
    requires Altered(x, c, s) && x in B && B <= c.S && (c.ob != null ==> c.ob in B)
    requires forall z, k | z in B && z in s.tables && k in s.tables[z] :: k in B
    ensures Closed(c.S, B)
  {
    forall z, k | z in B && k in z.objects
      ensures k in B
    {
      if z == x && k != c.ob {
        assert k in s.tables[x];
      }
    }
  }

  lemma AlteredKept(x: Obj, c: Cut, B: set<Obj>, line: set<Obj>, s: Snap, s0: Snap)
    requires Altered(x, c, s) && x in B && (c.ob != null ==> c.ob in B) && KeptBy(c.S, B, line, s, s0)
    requires forall k | k in s.tables[x] :: k in B
    requires forall z | z in c.S && z !in line :: z in s.trees && z.tree == s.trees[z]
    ensures Kept(c.S, B, line, s0)
  {
    var now := Now(c.S);
    forall z | z in c.S && z !in B
      ensures z in now.tables && z in s0.tables && now.tables[z] == s0.tables[z]
      ensures z in now.parents && z in s0.parents && now.parents[z] == s0.parents[z]
      ensures z in now.depths && z in s0.depths && now.depths[z] == s0.depths[z]
      ensures z !in line ==> z in now.trees && z in s0.trees && now.trees[z] == s0.trees[z]
    {
      assert z != x && z != c.ob && z !in s.tables[x][c.lo..c.hi];
    }
  }

  /** Dirty objects have dirty parents or parents on the line, for the parents of a snapshot. */
  ghost predicate LooseWith(T: set<Obj>, line: set<Obj>, parents: map<Obj, Obj?>)
    reads T`isDirty
  {
    forall z | z in T && z.isDirty && z in parents && parents[z] != null && parents[z] in T ::
      parents[z].isDirty || parents[z] in line
  }

  lemma LooseSnap(m: Obj, T: set<Obj>)
    requires m in T && m.LooseUp(T)
    ensures LooseWith(T, UpLine(T, m), Now(T).parents)
  {
    assert Above(T, m, m);
  }

  lemma LooseAgain(m: Obj, T: set<Obj>, parents: map<Obj, Obj?>)
    requires m in T && LooseWith(T, UpLine(T, m), parents)
    requires forall z | z in T :: z.parent == null || z.parent == m || (z in parents && z.parent == parents[z])
    ensures m.LooseUp(T)
  {
  }

  /** Two messages whose subtrees are apart, in a heap right but for dirt below m's line. */
  ghost predicate Sides(T: set<Obj>, B: set<Obj>, m: Obj, o: Obj)
    reads T
  {
    && Steady(T) && Closed(T, B) && m in B && o in B && m != o && m.IsMessage() && o.IsMessage()
    && m.LooseUp(T) && !Above(T, m, o) && !Above(T, o, m)
  }

  /** A change on one side, with all that the rest of the merge depends on. */
  method Step(m: Obj, o: Obj, x: Obj, c: Cut, ghost B: set<Obj>, ghost line: set<Obj>, ghost s0: Snap)
    requires Sides(c.S, B, m, o) && (x == m || x == o) && x.FitsAt(c) && (x == o ==> c.ob == null)
    requires c.ob != null ==> c.ob in B && c.ob != o && !Above(c.S, c.ob, o)
    requires Kept(c.S, B, line, s0) && line == UpLine(c.S, m) + UpLine(c.S, o)
    modifies c.S`parent, x`objects, c.S`tree
    ensures Sides(c.S, B, m, o) && Kept(c.S, B, line, s0)
    ensures UpLine(c.S, m) == old(UpLine(c.S, m)) && UpLine(c.S, o) == old(UpLine(c.S, o))
    ensures Altered(x, c, old(Now(c.S)))
    ensures forall z | z in c.S && z !in UpLine(c.S, x) :: z.tree == old(z.tree)
    ensures x == m ==> o.tree == old(o.tree)
    ensures x == o ==> m.tree == old(m.tree)
    ensures m.parent == old(m.parent) && o.parent == old(o.parent)
    ensures c.lo <= c.hi <= |old(x.tree.kids)| == |old(x.objects)|
    ensures x.tree.Message? && x.tree.kids == old(x.tree.kids)[..c.lo] + (if c.ob == null then [] else [old(c.ob.tree)]) + old(x.tree.kids)[c.hi..]
  {
    hide *;
    ghost var s := Now(c.S);
    SidesParts(m, o, x, c, B);
    KeptIs(c.S, B, line, s0);
    Alter(x, if x == m then o else m, c, B);
    AlteredClosed(x, c, B, s);
    AlteredOff(x, c, s, UpLine(c.S, x), line);
    AlteredKept(x, c, B, line, s, s0);
    AlteredParents(m, x, c, s);
    AlteredEnds(m, o, x, c, s);
    LooseAgain(m, c.S, s.parents);
    SidesAgain(m, o, c.S, B);
  }

  lemma SidesParts(m: Obj, o: Obj, x: Obj, c: Cut, B: set<Obj>)
    requires Sides(c.S, B, m, o) && (x == m || x == o) && x.FitsAt(c) && (x == o ==> c.ob == null)
    requires c.ob != null ==> c.ob in B && c.ob != o && !Above(c.S, c.ob, o)
    ensures m in c.S && o in c.S && m in B && o in B && B <= c.S && m != o && m.IsMessage() && o.IsMessage()
    ensures MayAlter(x, if x == m then o else m, c, B)
    ensures LooseWith(c.S, UpLine(c.S, m), Now(c.S).parents)
    ensures forall z, k | z in B && z in Now(c.S).tables && k in Now(c.S).tables[z] :: k in B
    ensures forall z | z in c.S :: z in Now(c.S).trees && Now(c.S).trees[z] == z.tree
    ensures x in Now(c.S).tables && forall k | k in Now(c.S).tables[x] :: k in B
    ensures o !in UpLine(c.S, m) && m !in UpLine(c.S, o)
    ensures m !in Now(c.S).tables[x] && o !in Now(c.S).tables[x] && m != c.ob && o != c.ob
    ensures m in Now(c.S).parents && Now(c.S).parents[m] == m.parent && o in Now(c.S).parents && Now(c.S).parents[o] == o.parent
  {
    KidsNotAbove(x, if x == m then o else m, c.S);
    assert Above(c.S, m, m) && Above(c.S, o, o);
    assert x.Linked(c.S);
    LooseSnap(m, c.S);
    SnapClosed(c.S, B);
    hide Steady, Above, m.LooseUp;
  }

  lemma SidesAgain(m: Obj, o: Obj, T: set<Obj>, B: set<Obj>)
    requires Steady(T) && Closed(T, B) && m in B && o in B && m in T && o in T && m != o && m.IsMessage() && o.IsMessage()
    requires m.LooseUp(T) && o !in UpLine(T, m) && m !in UpLine(T, o)
    ensures Sides(T, B, m, o)
  {
    hide Steady, m.LooseUp, Closed;
  }

  lemma AlteredParents(m: Obj, x: Obj, c: Cut, s: Snap)
    requires Altered(x, c, s) && (c.ob != null ==> x == m)
    ensures forall z | z in c.S :: z.parent == null || z.parent == m || (z in s.parents && z.parent == s.parents[z])
  {
  }

  lemma AlteredEnds(m: Obj, o: Obj, x: Obj, c: Cut, s: Snap)
    requires Altered(x, c, s) && m in c.S && o in c.S && m != c.ob && o != c.ob && m !in s.tables[x] && o !in s.tables[x]
    ensures m in s.parents && o in s.parents && m.parent == s.parents[m] && o.parent == s.parents[o]
  {
  }

  lemma AlteredOff(x: Obj, c: Cut, s: Snap, up: set<Obj>, line: set<Obj>)
    requires up <= line && forall z | z in c.S && z !in up :: z in s.trees && z.tree == s.trees[z]
    ensures forall z | z in c.S && z !in line :: z in s.trees && z.tree == s.trees[z]
  {
  }

  // ----- making room below -----

  /** What is strictly below o. */
  ghost function Below(T: set<Obj>, o: Obj): set<Obj>
    reads T`parent, T`depth
  {
    set x | x in T && x != o && Above(T, o, x)
  }

  /** The children of what is below o, and o's own, are below o. */
  lemma BelowKids(T: set<Obj>, o: Obj)
    requires Steady(T) && o in T
    ensures forall x, k | (x == o || x in Below(T, o)) && k in x.objects :: k in Below(T, o) && x.depth < k.depth
  {
    forall x, k | (x == o || x in Below(T, o)) && k in x.objects
      ensures k in Below(T, o) && x.depth < k.depth
    {
      assert x.Linked(T);
      if x == o {
        assert Above(T, o, o);
      }
      AboveDepth(T, o, x);
    }
  }

  lemma {:induction false} AboveDepth(T: set<Obj>, a: Obj, d: Obj)
    requires d in T && Above(T, a, d)
    ensures a.depth <= d.depth
    decreases d.depth
  {
    if a != d {
      AboveDepth(T, a, d.parent);
    }
  }

  /** Everything below o stays within a closed set o is in. */
  lemma {:induction false} BelowClosed(T: set<Obj>, B: set<Obj>, o: Obj, x: Obj)
    requires Steady(T) && Closed(T, B) && o in B && x in T && Above(T, o, x)
    ensures x in B
    decreases x.depth
  {
    assert x.Linked(T);
    if x != o {
      BelowClosed(T, B, o, x.parent);
    }
  }

  /** Lowers everything strictly below o; depths are the proof's own. */
  ghost method Sink(T: set<Obj>, o: Obj, levels: nat)
    requires Steady(T) && o in T
    modifies T`depth
    ensures Steady(T) && forall x | x in T :: x.depth == old(x.depth) + if x in old(Below(T, o)) then levels else 0
    ensures forall x | x in T :: UpLine(T, x) == old(UpLine(T, x))
  {
    hide *;
    BelowKids(T, o);
    BelowInHeap(T, o);
    ghost var X := Below(T, o);
    Raise(X, levels);
    StillOrdered(T, o, X, levels, old(map x | x in T :: x.depth));
    StillSteady(T);
    SameLines(T);
  }

  lemma BelowInHeap(T: set<Obj>, o: Obj)
    requires Steady(T)
    ensures Below(T, o) <= T && forall x, k | x in T && k in x.objects && k in Below(T, o) :: x == o || x in Below(T, o)
    ensures forall x, k | x in T && k in x.objects :: x.depth < k.depth && k in T
  {
    forall x, k | x in T && k in x.objects
      ensures x.depth < k.depth && k in T && (k in Below(T, o) ==> x == o || x in Below(T, o))
    {
      assert x.Linked(T);
    }
  }

  ghost method Raise(X: set<Obj>, levels: nat)
    modifies X`depth
    ensures forall x | x in X :: x.depth == old(x.depth) + levels
  {
    forall x | x in X {
      x.depth := x.depth + levels;
    }
  }

  lemma StillOrdered(T: set<Obj>, o: Obj, X: set<Obj>, levels: nat, depths: map<Obj, nat>)
    requires forall x | x in T :: x in depths && x.depth == depths[x] + if x in X then levels else 0
    requires forall x, k | x in T && k in x.objects :: k in T && depths[x] < depths[k]
    requires forall x, k | (x == o || x in X) && k in x.objects :: k in X
    ensures forall x, k | x in T && k in x.objects :: x.depth < k.depth
  {
  }

  /** Links and trees are right after depths changed, if children are still below their parents. */
  twostate lemma StillSteady(T: set<Obj>)
    requires old(Steady(T))
    requires unchanged(T`tree, T`isDirty, T`value, T`value32, T`content, T`objects, T`fieldsUnique, T`parent)
    requires forall x, k | x in T && k in x.objects :: x.depth < k.depth
    ensures Steady(T)
  {
    forall x | x in T
      ensures x.Linked(T) && x.Mirrored()
    {
      assert old(x.Linked(T)) && old(x.Mirrored());
    }
  }

  twostate lemma SameLines(T: set<Obj>)
    requires old(Steady(T)) && Steady(T) && unchanged(T`parent)
    ensures forall x | x in T :: UpLine(T, x) == old(UpLine(T, x))
  {
    forall x | x in T
      ensures x.ParentLinked(T) && old(x.ParentLinked(T))
    {
      assert x.Linked(T) && old(x.Linked(T));
    }
    hide Steady;
    forall x | x in T
      ensures UpLine(T, x) == old(UpLine(T, x))
    {
      x.AboveByParents(T);
    }
  }

  // ----- moving a field's objects -----

  /** Where a merge keeps its books: the heap, what it may touch, the lines above the two messages,
      and the moment it began. */
  datatype Books = Books(ghost T: set<Obj>, ghost B: set<Obj>, ghost line: set<Obj>, ghost s0: Snap)

  /** Between two fields: the two sides are apart, what the other side still has is deep enough to
      move over, and nothing outside was touched. */
  ghost predicate During(b: Books, m: Obj, o: Obj)
    reads b.T
  {
    && Sides(b.T, b.B, m, o) && Kept(b.T, b.B, b.line, b.s0)
    && m in b.T && o in b.T && b.line == UpLine(b.T, m) + UpLine(b.T, o)
    && (forall k | k in o.objects :: k in b.T && m.depth < k.depth)
  }

  /** An object on its own, ready to go into m's table. */
  ghost predicate Free(b: Books, m: Obj, o: Obj, v: Obj)
    reads b.T`parent, b.T`depth, v`parent, v`depth, m`depth
  {
    && v in b.B && v in b.T && v.parent == null && !v.kind.RootMessage? && m.depth < v.depth
    && m in b.T && o in b.T && v != o && v !in UpLine(b.T, o) && v !in UpLine(b.T, m)
  }

  /** Takes the objects at [i, j) out of o's table. */
  method Detach(m: Obj, o: Obj, i: nat, j: nat, ghost b: Books)
    requires During(b, m, o) && i <= j <= |o.objects|
    modifies b.T`parent, o`objects, b.T`tree
    ensures During(b, m, o) && m.tree == old(m.tree) && m.depth == old(m.depth) && m.parent == old(m.parent) && o.parent == old(o.parent)
    ensures UpLine(b.T, m) == old(UpLine(b.T, m)) && UpLine(b.T, o) == old(UpLine(b.T, o))
    ensures o.objects == old(o.objects)[..i] + old(o.objects)[j..]
    ensures |old(o.tree.kids)| == |old(o.objects)| && o.tree.Message?
    ensures o.tree.kids == old(o.tree.kids)[..i] + old(o.tree.kids)[j..]
    ensures forall v | v in old(o.objects)[i..j] :: Free(b, m, o, v) && v.tree == old(v.tree)
  {
    hide *;
    ghost var c := Cut(i, j, null, b.T);
    ghost var s, vec := Now(b.T), o.objects[i..j];
    BeforeDetach(m, o, i, j, b);
    Step(m, o, o, Cut(i, j, null, b.T), b.B, b.line, b.s0);
    AfterDetach(m, o, i, j, b, s, vec);
  }

  lemma BeforeDetach(m: Obj, o: Obj, i: nat, j: nat, b: Books)
    requires During(b, m, o) && i <= j <= |o.objects|
    ensures var c := Cut(i, j, null, b.T);
      && m in b.T && o in b.T && Sides(b.T, b.B, m, o) && o.FitsAt(c)
      && Kept(b.T, b.B, b.line, b.s0) && b.line == UpLine(b.T, m) + UpLine(b.T, o)
    ensures var s := Now(b.T); o in s.tables && s.tables[o] == o.objects && m in s.depths && s.depths[m] == m.depth
    ensures forall v | v in o.objects[i..j] ::
      && v in b.B && v in b.T && !v.kind.RootMessage? && m.depth < v.depth && v in Now(b.T).depths && Now(b.T).depths[v] == v.depth
      && v != o && v !in UpLine(b.T, o) && v !in UpLine(b.T, m)
    ensures forall k | k in o.objects :: k in b.T && m.depth < k.depth && k in Now(b.T).depths && Now(b.T).depths[k] == k.depth
  {
    assert o.Linked(b.T);
    forall v | v in o.objects[i..j]
      ensures v in b.B && v in b.T && !v.kind.RootMessage? && m.depth < v.depth && v != o && v !in UpLine(b.T, o) && v !in UpLine(b.T, m)
    {
      assert v in o.objects;
      NotAbove(b.T, v, o);
      NotAbove(b.T, v, m);
    }
    hide Steady, Kept;
  }

  lemma AfterDetach(m: Obj, o: Obj, i: nat, j: nat, b: Books, s: Snap, vec: seq<Obj>)
    requires m in b.T && o in b.T && Sides(b.T, b.B, m, o) && Kept(b.T, b.B, b.line, b.s0) && b.line == UpLine(b.T, m) + UpLine(b.T, o)
    requires Altered(o, Cut(i, j, null, b.T), s) && m in s.depths && vec == s.tables[o][i..j]
    requires forall v | v in vec ::
      && v in b.B && v in b.T && !v.kind.RootMessage? && v in s.depths && s.depths[m] < s.depths[v]
      && v != o && v !in UpLine(b.T, o) && v !in UpLine(b.T, m)
    requires forall k | k in s.tables[o] :: k in b.T && k in s.depths && s.depths[m] < s.depths[k]
    ensures During(b, m, o) && forall v | v in vec :: Free(b, m, o, v)
    ensures m.depth == s.depths[m] && o.objects == s.tables[o][..i] + s.tables[o][j..]
  {
    hide Sides, Kept, UpLine;
    assert s.tables[o][..i] + [] + s.tables[o][j..] == s.tables[o][..i] + s.tables[o][j..];
    forall k | k in o.objects
      ensures k in b.T && m.depth < k.depth
    {
      assert k in s.tables[o];
    }
  }

  /** Destroys the objects at [lo, hi) of m's table, while others wait to be stored. */
  method Drop(m: Obj, o: Obj, lo: nat, hi: nat, ghost vec: seq<Obj>, ghost b: Books)
    requires During(b, m, o) && lo <= hi <= |m.objects| && forall v | v in vec :: Free(b, m, o, v)
    modifies b.T`parent, m`objects, b.T`tree
    ensures During(b, m, o) && o.tree == old(o.tree) && m.depth == old(m.depth) && m.parent == old(m.parent) && o.parent == old(o.parent)
    ensures UpLine(b.T, m) == old(UpLine(b.T, m)) && UpLine(b.T, o) == old(UpLine(b.T, o))
    ensures m.objects == old(m.objects)[..lo] + old(m.objects)[hi..]
    ensures |old(m.tree.kids)| == |old(m.objects)| && m.tree.Message?
    ensures m.tree.kids == old(m.tree.kids)[..lo] + old(m.tree.kids)[hi..]
    ensures forall v | v in vec :: Free(b, m, o, v) && v.tree == old(v.tree)
  {
    hide *;
    ghost var s := Now(b.T);
    BeforeTable(m, o, b);
    FreeFacts(m, o, b, vec);
    NothingFits(m, Cut(lo, hi, null, b.T));
    Step(m, o, m, Cut(lo, hi, null, b.T), b.B, b.line, b.s0);
    AfterTable(m, o, Cut(lo, hi, null, b.T), b, s);
    StillFree(m, o, Cut(lo, hi, null, b.T), b, s, vec);
    assert old(m.objects)[..lo] + [] == old(m.objects)[..lo];
  }

  lemma FreeFacts(m: Obj, o: Obj, b: Books, vec: seq<Obj>)
    requires forall v | v in vec :: Free(b, m, o, v)
    ensures forall v | v in vec ::
      && v in b.B && v in b.T && v in Now(b.T).parents && Now(b.T).parents[v] == null && !v.kind.RootMessage? && v.parent == null
      && m in b.T && v in Now(b.T).depths && m in Now(b.T).depths && Now(b.T).depths[m] < Now(b.T).depths[v] && m.depth < v.depth
      && o in b.T && v != o && v !in UpLine(b.T, o) && v !in UpLine(b.T, m)
  {
    hide UpLine;
  }

  lemma NothingFits(m: Obj, c: Cut)
    requires m in c.S && c.lo <= c.hi <= |m.objects| && c.ob == null
    ensures m.FitsAt(c)
  {
  }

  lemma BeforeTable(m: Obj, o: Obj, b: Books)
    requires During(b, m, o)
    ensures m in b.T && o in b.T && Sides(b.T, b.B, m, o) && Kept(b.T, b.B, b.line, b.s0) && b.line == UpLine(b.T, m) + UpLine(b.T, o)
    ensures var s := Now(b.T);
      && m in s.tables && s.tables[m] == m.objects && o in s.tables && s.tables[o] == o.objects && m in s.depths && s.depths[m] == m.depth
    ensures forall k | k in o.objects :: k in b.T && m.depth < k.depth && k in Now(b.T).depths && Now(b.T).depths[k] == k.depth
    ensures m != o
  {
    hide Steady, Closed, Above, m.LooseUp, Kept, UpLine;
  }

  lemma AfterTable(m: Obj, o: Obj, c: Cut, b: Books, s: Snap)
    requires c.S == b.T && m in b.T && o in b.T && m != o
    requires Sides(b.T, b.B, m, o) && Kept(b.T, b.B, b.line, b.s0) && b.line == UpLine(b.T, m) + UpLine(b.T, o)
    requires Altered(m, c, s) && m in s.depths && o in s.tables
    requires forall k | k in s.tables[o] :: k in b.T && k in s.depths && s.depths[m] < s.depths[k]
    ensures During(b, m, o) && m.depth == s.depths[m]
    ensures m.objects == s.tables[m][..c.lo] + (if c.ob == null then [] else [c.ob]) + s.tables[m][c.hi..]
  {
    hide Sides, Kept, UpLine;
  }

  lemma StillFree(m: Obj, o: Obj, c: Cut, b: Books, s: Snap, vec: seq<Obj>)
    requires c.S == b.T && m in b.T && o in b.T && Altered(m, c, s) && m in s.depths && (c.ob != null ==> c.ob !in vec)
    requires forall v | v in vec ::
      && v in b.B && v in b.T && v in s.parents && s.parents[v] == null && !v.kind.RootMessage?
      && v in s.depths && s.depths[m] < s.depths[v] && v != o && v !in UpLine(b.T, o) && v !in UpLine(b.T, m)
    ensures forall v | v in vec :: Free(b, m, o, v)
  {
    hide UpLine;
  }

  /** Stores one waiting object at position at of m's table. */
  method StoreOne(m: Obj, o: Obj, at: nat, v: Obj, ghost vec: seq<Obj>, ghost b: Books)
    requires During(b, m, o) && m.Place(at, at, v) && Free(b, m, o, v) && v !in vec && forall w | w in vec :: Free(b, m, o, w)
    modifies b.T`parent, m`objects, b.T`tree
    ensures During(b, m, o) && o.tree == old(o.tree) && m.depth == old(m.depth) && m.parent == old(m.parent) && o.parent == old(o.parent)
    ensures UpLine(b.T, m) == old(UpLine(b.T, m)) && UpLine(b.T, o) == old(UpLine(b.T, o))
    ensures at <= |old(m.objects)| == |old(m.tree.kids)| && m.objects == old(m.objects)[..at] + [v] + old(m.objects)[at..]
    ensures m.tree.Message? && m.tree.kids == old(m.tree.kids)[..at] + [old(v.tree)] + old(m.tree.kids)[at..]
    ensures forall w | w in vec :: Free(b, m, o, w) && w.tree == old(w.tree)
  {
    hide *;
    ghost var s := Now(b.T);
    BeforeTable(m, o, b);
    FreeFacts(m, o, b, vec);
    FreeFits(m, o, at, v, b);
    Step(m, o, m, Cut(at, at, v, b.T), b.B, b.line, b.s0);
    AfterTable(m, o, Cut(at, at, v, b.T), b, s);
    StillFree(m, o, Cut(at, at, v, b.T), b, s, vec);
  }

  lemma FreeFits(m: Obj, o: Obj, at: nat, v: Obj, b: Books)
    requires m in b.T && o in b.T && m.Place(at, at, v) && Free(b, m, o, v)
    ensures m.FitsAt(Cut(at, at, v, b.T)) && v in b.B && v != o && !Above(b.T, v, o)
  {
  }

  lemma Between<X>(a: seq<X>, mid: seq<X>, c: seq<X>, v: X)
    ensures var s, at := a + mid + c, |a| + |mid|; s[..at] + [v] + s[at..] == a + (mid + [v]) + c
  {
    assert (a + mid + c)[..|a| + |mid|] == a + mid && (a + mid + c)[|a| + |mid|..] == c;
  }

  /** m's objects below at and from at on leave room for field f. */
  predicate RoomFor(m: Obj, at: nat, f: uint64)
    reads m`objects
  {
    && at <= |m.objects|
    && (forall i :: 0 <= i < at ==> m.objects[i].fieldNumber <= f)
    && (forall i :: at <= i < |m.objects| ==> f <= m.objects[i].fieldNumber)
  }

  lemma RoomIsPlace(m: Obj, at: nat, v: Obj, f: uint64)
    requires RoomFor(m, at, f) && v.fieldNumber == f
    ensures m.Place(at, at, v)
    ensures (forall i :: 0 <= i < at ==> m.objects[i].fieldNumber <= f) && forall i :: at <= i < |m.objects| ==> f <= m.objects[i].fieldNumber
  {
  }

  lemma RoomAfter(m: Obj, at: nat, v: Obj, was: seq<Obj>, f: uint64)
    requires at <= |was| && v.fieldNumber == f && m.objects == was[..at] + [v] + was[at..]
    requires (forall i :: 0 <= i < at ==> was[i].fieldNumber <= f) && forall i :: at <= i < |was| ==> f <= was[i].fieldNumber
    ensures RoomFor(m, at + 1, f)
  {
  }

  /** The waiting objects from j on, with their trees. */
  ghost predicate Waiting(b: Books, m: Obj, o: Obj, vec: seq<Obj>, trees: seq<Node>, f: uint64)
    reads b.T`parent, b.T`depth, vec, m`depth
  {
    && |vec| == |trees| && (forall i, j :: 0 <= i < j < |vec| ==> vec[i] != vec[j])
    && forall i :: 0 <= i < |vec| ==> Free(b, m, o, vec[i]) && vec[i].tree == trees[i] && vec[i].fieldNumber == f
  }

  lemma WaitingFirst(b: Books, m: Obj, o: Obj, vec: seq<Obj>, trees: seq<Node>, f: uint64, j: nat)
    requires j < |vec| == |trees| && Waiting(b, m, o, vec[j..], trees[j..], f)
    ensures Free(b, m, o, vec[j]) && vec[j].tree == trees[j] && vec[j].fieldNumber == f && vec[j] !in vec[j + 1..]
    ensures forall w | w in vec[j + 1..] :: Free(b, m, o, w)
    ensures TreesAre(vec[j + 1..], trees[j + 1..]) && Alike(vec[j + 1..], f)
  {
    hide Free;
    assert vec[j..][0] == vec[j] && trees[j..][0] == trees[j];
    assert vec[j..][1..] == vec[j + 1..] && trees[j..][1..] == trees[j + 1..];
  }

  ghost predicate TreesAre(vec: seq<Obj>, trees: seq<Node>)
    reads vec`tree
  {
    |vec| == |trees| && forall i :: 0 <= i < |vec| ==> vec[i].tree == trees[i]
  }

  /** Different objects of one field. */
  predicate Alike(vec: seq<Obj>, f: uint64) {
    (forall i, j :: 0 <= i < j < |vec| ==> vec[i] != vec[j]) && forall v | v in vec :: v.fieldNumber == f
  }

  lemma WaitingRest(b: Books, m: Obj, o: Obj, vec: seq<Obj>, trees: seq<Node>, f: uint64, j: nat)
    requires j < |vec| == |trees| && Alike(vec[j + 1..], f) && TreesAre(vec[j + 1..], trees[j + 1..])
    requires forall w | w in vec[j + 1..] :: Free(b, m, o, w)
    ensures Waiting(b, m, o, vec[j + 1..], trees[j + 1..], f)
  {
    hide Free;
  }

  /** The table's trees with the first j of the waiting ones stored. */
  predicate StoredSoFar(now: seq<Node>, was: seq<Node>, at: nat, trees: seq<Node>, j: nat) {
    at <= |was| && j <= |trees| && now == was[..at] + trees[..j] + was[at..]
  }

  lemma StoredNone(was: seq<Node>, at: nat, trees: seq<Node>)
    requires at <= |was|
    ensures StoredSoFar(was, was, at, trees, 0)
  {
    assert was[..at] + [] + was[at..] == was;
  }

  lemma StoredOneMore(now: seq<Node>, was: seq<Node>, at: nat, trees: seq<Node>, j: nat, next: seq<Node>)
    requires StoredSoFar(now, was, at, trees, j) && j < |trees|
    requires at + j <= |now| && next == now[..at + j] + [trees[j]] + now[at + j..]
    ensures StoredSoFar(next, was, at, trees, j + 1)
  {
    Between(was[..at], trees[..j], was[at..], trees[j]);
    assert trees[..j] + [trees[j]] == trees[..j + 1];
  }

  lemma StoredAll(now: seq<Node>, was: seq<Node>, at: nat, trees: seq<Node>)
    requires StoredSoFar(now, was, at, trees, |trees|)
    ensures at <= |was| && now == was[..at] + trees + was[at..]
  {
    assert trees[..|trees|] == trees;
  }

  lemma DuringTable(b: Books, m: Obj, o: Obj)
    requires During(b, m, o)
    ensures m.IsMessage() && o.IsMessage() && m in b.T && o in b.T && m != o
    ensures m.tree.Message? && |m.tree.kids| == |m.objects| && m.tree.unique == m.fieldsUnique && m.tree.fn == m.fieldNumber
    ensures o.tree.Message? && |o.tree.kids| == |o.objects|
    ensures forall i :: 0 <= i < |m.objects| ==> m.objects[i].tree == m.tree.kids[i] && m.objects[i].fieldNumber == m.tree.kids[i].fn
    ensures forall i :: 0 <= i < |o.objects| ==> o.objects[i].tree == o.tree.kids[i] && o.objects[i].fieldNumber == o.tree.kids[i].fn
    ensures InOrder(m.objects) && InOrder(o.objects)
  {
    assert m.Linked(b.T) && m.Mirrored() && o.Linked(b.T) && o.Mirrored();
    forall i | 0 <= i < |m.objects|
      ensures m.objects[i].Mirrored()
    {
    }
    forall i | 0 <= i < |o.objects|
      ensures o.objects[i].Mirrored()
    {
    }
    hide Kept, Closed, m.LooseUp, Above, UpLine;
  }

  /** Stores the waiting objects one behind the other. */
  method StoreAll(m: Obj, o: Obj, at: nat, vec: seq<Obj>, ghost trees: seq<Node>, ghost f: uint64, ghost b: Books)
    requires During(b, m, o) && Waiting(b, m, o, vec, trees, f) && RoomFor(m, at, f)
    modifies b.T`parent, m`objects, b.T`tree
    ensures During(b, m, o) && o.tree == old(o.tree) && m.depth == old(m.depth) && m.parent == old(m.parent) && o.parent == old(o.parent)
    ensures UpLine(b.T, m) == old(UpLine(b.T, m)) && UpLine(b.T, o) == old(UpLine(b.T, o))
    ensures at <= |old(m.tree.kids)| && m.tree.Message?
    ensures m.tree.kids == old(m.tree.kids)[..at] + trees + old(m.tree.kids)[at..]
  {
    hide *;
    DuringTable(b, m, o);
    ghost var was := m.tree.kids;
    WaitingShape(m, at, vec, trees, f, b, o);
    StoredNone(was, at, trees);
    for j := 0 to |vec|
      invariant During(b, m, o) && o.tree == old(o.tree) && m.depth == old(m.depth) && m.tree.Message?
      invariant m.parent == old(m.parent) && o.parent == old(o.parent)
      invariant UpLine(b.T, m) == old(UpLine(b.T, m)) && UpLine(b.T, o) == old(UpLine(b.T, o))
      invariant Waiting(b, m, o, vec[j..], trees[j..], f) && RoomFor(m, at + j, f)
      invariant StoredSoFar(m.tree.kids, was, at, trees, j)
    {
      ghost var now, table := m.tree.kids, m.objects;
      WaitingFirst(b, m, o, vec, trees, f, j);
      RoomIsPlace(m, at + j, vec[j], f);
      StoreOne(m, o, at + j, vec[j], vec[j + 1..], b);
      RoomAfter(m, at + j, vec[j], table, f);
      WaitingRest(b, m, o, vec, trees, f, j);
      StoredOneMore(now, was, at, trees, j, m.tree.kids);
    }
    StoredAll(m.tree.kids, was, at, trees);
  }

  lemma WaitingShape(m: Obj, at: nat, vec: seq<Obj>, trees: seq<Node>, f: uint64, b: Books, o: Obj)
    requires Waiting(b, m, o, vec, trees, f) && RoomFor(m, at, f)
    ensures |vec| == |trees| && at <= |m.objects| && vec[0..] == vec && trees[0..] == trees
  {
  }

  // ----- what one field's turn comes to -----

  lemma {:induction false} AddAllRange(kids: seq<Node>, f: uint64, lo: nat, hi: nat, vec: seq<Node>)
    requires Range(kids, f, lo, hi) && forall n | n in vec :: n.fn == f
    ensures AddAll(kids, {}, vec) == kids[..hi] + vec + kids[hi..]
    decreases |vec|
  {
    hide AddAll, Add, Range;
    InRange(kids, f, lo, hi);
    if vec == [] {
      AddAllNothing(kids);
      assert kids[..hi] + [] + kids[hi..] == kids;
    } else {
      var next := kids[..hi] + [vec[0]] + kids[hi..];
      AddAllFirst(kids, vec);
      AddRange(kids, {}, vec[0], lo, hi);
      RangeGrows(kids, f, lo, hi, vec[0]);
      assert forall n | n in vec[1..] :: n in vec;
      AddAllRange(next, f, lo, hi + 1, vec[1..]);
      SplitAgain(kids[..hi], vec, kids[hi..]);
    }
  }

  lemma InRange(kids: seq<Node>, f: uint64, lo: nat, hi: nat)
    requires Range(kids, f, lo, hi)
    ensures lo <= hi <= |kids|
  {
  }

  lemma AddAllNothing(kids: seq<Node>)
    ensures AddAll(kids, {}, []) == kids
  {
  }

  lemma AddAllFirst(kids: seq<Node>, vec: seq<Node>)
    requires vec != []
    ensures AddAll(kids, {}, vec) == AddAll(Add(kids, {}, vec[0]), {}, vec[1..])
  {
  }

  lemma RangeGrows(kids: seq<Node>, f: uint64, lo: nat, hi: nat, n: Node)
    requires Range(kids, f, lo, hi) && n.fn == f
    ensures Range(kids[..hi] + [n] + kids[hi..], f, lo, hi + 1)
  {
  }

  lemma SplitAgain(a: seq<Node>, vec: seq<Node>, c: seq<Node>)
    requires vec != []
    ensures var next := a + [vec[0]] + c; next[..|a| + 1] + vec[1..] + next[|a| + 1..] == a + vec + c
  {
    var next := a + [vec[0]] + c;
    assert next[..|a| + 1] == a + [vec[0]] && next[|a| + 1..] == c;
    assert [vec[0]] + vec[1..] == vec;
  }

  /** A whole vector in place of another. */
  lemma AdoptValue(kids: seq<Node>, f: uint64, lo: nat, hi: nat, vec: seq<Node>)
    requires Range(kids, f, lo, hi) && forall n | n in vec :: n.fn == f
    ensures AddAll(Without(kids, f), {}, vec) == (kids[..lo] + kids[hi..])[..lo] + vec + (kids[..lo] + kids[hi..])[lo..]
  {
    WithoutRange(kids, f, lo, hi);
    var w := kids[..lo] + kids[hi..];
    assert w[..lo] == kids[..lo] && w[lo..] == kids[hi..];
    AddAllRange(w, f, lo, lo, vec);
  }

  lemma {:induction false} ReplaceFirstAt(kids: seq<Node>, n: Node, at: nat)
    requires at < |kids| && kids[at].fn == n.fn && forall i :: 0 <= i < at ==> kids[i].fn != n.fn
    ensures ReplaceFirst(kids, n) == kids[at := n]
  {
    if at > 0 {
      ReplaceFirstAt(kids[1..], n, at - 1);
      assert kids[at := n] == [kids[0]] + kids[1..][at - 1 := n];
    }
  }

  lemma FirstAt(kids: seq<Node>, f: uint64, lo: nat, hi: nat)
    requires Range(kids, f, lo, hi)
    ensures At(kids, f) == kids[lo..hi] && |At(kids, f)| == hi - lo
    ensures lo < hi ==> At(kids, f)[0] == kids[lo]
  {
    AtRange(kids, f, lo, hi);
  }

  // ----- nested messages -----

  /** What a merge of d and s may touch. */
  ghost function Reach(T: set<Obj>, d: Obj, s: Obj): set<Obj>
    reads T`parent, T`depth
  {
    {d, s} + Below(T, d) + Below(T, s)
  }

  /** Seen from a child d of m: o's side is out of its reach, and so are m and d's siblings. */
  lemma ChildApart(T: set<Obj>, m: Obj, o: Obj, d: Obj)
    requires Steady(T) && m in T && o in T && d in m.objects && !Above(T, m, o) && !Above(T, o, m)
    ensures d in T && d.parent == m && m.depth < d.depth && !Above(T, d, m) && !Above(T, d, o)
    ensures forall s | s in o.objects :: !Above(T, d, s) && d != s
    ensures forall k | k in m.objects && k != d :: !Above(T, d, k) && !Above(T, k, d)
    ensures forall k | k in o.objects :: !Above(T, k, d)
  {
    assert m.Linked(T) && o.Linked(T);
    m.KidsAreBelow(T);
    if Above(T, d, o) {
      AboveTransitive(T, m, d, o);
    }
    forall k | k in o.objects
      ensures !Above(T, k, d)
    {
      if Above(T, k, m) {
        AboveTransitive(T, o, k, m);
      }
    }
    hide Steady;
  }

  lemma ReachApart(b: Books, m: Obj, o: Obj, d: Obj, s: Obj)
    requires Sides(b.T, b.B, m, o) && d in m.objects && s in o.objects
    ensures var R := Reach(b.T, d, s);
      && R <= b.B && R <= b.T && Closed(b.T, R) && m !in R && o !in R && d != s && d in b.T && s in b.T
      && (forall k | k in m.objects && k != d :: k !in R && k !in UpLine(b.T, d) && k !in UpLine(b.T, s))
      && (forall k | k in o.objects && k != s :: k !in R && k !in UpLine(b.T, s) && k !in UpLine(b.T, d))
    ensures !Above(b.T, d, s) && !Above(b.T, s, d) && d.parent == m && s.parent == o && m.depth < d.depth && o.depth < s.depth
  {
    var T, B := b.T, b.B;
    ChildApart(T, m, o, d);
    ChildApart(T, o, m, s);
    BelowKids(T, d);
    BelowKids(T, s);
    assert d in B && s in B;
    ReachWithin(T, B, d, s);
    hide Steady, Above, m.LooseUp;
  }

  lemma ReachWithin(T: set<Obj>, B: set<Obj>, d: Obj, s: Obj)
    requires Steady(T) && Closed(T, B) && d in B && s in B
    ensures Reach(T, d, s) <= B
  {
    hide Steady, Closed;
    forall x | x in Reach(T, d, s)
      ensures x in B
    {
      if x != s && x != d && x in Below(T, d) {
        BelowClosed(T, B, d, x);
      } else if x != s && x != d {
        BelowClosed(T, B, s, x);
      }
    }
  }

  lemma ReachLines(b: Books, m: Obj, o: Obj, d: Obj, s: Obj)
    requires Sides(b.T, b.B, m, o) && d in m.objects && s in o.objects
    requires d.parent == m && s.parent == o && m.depth < d.depth && o.depth < s.depth && d in b.T && s in b.T
    ensures m in b.T && o in b.T && UpLine(b.T, d) == UpLine(b.T, m) + {d} && UpLine(b.T, s) == UpLine(b.T, o) + {s}
    ensures d !in UpLine(b.T, m) && s !in UpLine(b.T, o)
    ensures d.LooseUp(b.T)
  {
    UpLineStep(b.T, d);
    UpLineStep(b.T, s);
    ChildApart(b.T, m, o, d);
    ChildApart(b.T, o, m, s);
    LooseDown(b.T, m, d);
    hide Steady, Closed, m.LooseUp;
  }

  lemma LooseDown(T: set<Obj>, m: Obj, d: Obj)
    requires m in T && d in T && m.LooseUp(T) && UpLine(T, d) == UpLine(T, m) + {d}
    ensures d.LooseUp(T)
  {
    assert m in UpLine(T, m);
    forall z | z in T && z.isDirty && z.parent != null && z.parent in T
      ensures z.parent.isDirty || z.parent == d || Above(T, z.parent, d)
    {
      assert z.parent in UpLine(T, m) ==> z.parent in UpLine(T, d);
    }
  }

  /** A merge of two children may begin. */
  lemma NestedReady(b: Books, m: Obj, o: Obj, d: Obj, s: Obj)
    requires During(b, m, o) && d in m.objects && s in o.objects && d.IsMessage() && s.IsMessage()
    ensures Reach(b.T, d, s) <= b.T && Sides(b.T, Reach(b.T, d, s), d, s)
    ensures d.tree.Message? && s.tree.Message? && d.tree.unique == d.fieldsUnique && d.tree.fn == d.fieldNumber
  {
    ReachApart(b, m, o, d, s);
    ReachLines(b, m, o, d, s);
    assert d.Mirrored() && s.Mirrored();
    hide Steady, Above, m.LooseUp, Closed, UpLine;
  }

  /** What is to be remembered of the tables before two children are merged: the others in them are
      out of reach. */
  ghost predicate Beside(b: Books, m: Obj, d: Obj, R: set<Obj>, line: set<Obj>, was: Snap) {
    && m in b.T && m in b.B && m !in R && d in R && d in b.T && m in was.tables && d in was.tables[m]
    && forall k | k in was.tables[m] && k != d :: k in b.T && k !in R && k !in line
  }

  lemma BesideNow(b: Books, m: Obj, o: Obj, d: Obj, s: Obj)
    requires During(b, m, o) && d in m.objects && s in o.objects
    ensures d in b.T && s in b.T && m in b.T && o in b.T
    ensures var R, line := Reach(b.T, d, s), UpLine(b.T, d) + UpLine(b.T, s);
      && Beside(b, m, d, R, line, Now(b.T)) && Beside(b, o, s, R, line, Now(b.T)) && line == b.line + {d, s} && R <= b.B
    ensures UpLine(b.T, d) == UpLine(b.T, m) + {d} && UpLine(b.T, s) == UpLine(b.T, o) + {s}
    ensures d !in UpLine(b.T, m) && s !in UpLine(b.T, o) && d.parent == m && s.parent == o
  {
    hide Steady, Above, m.LooseUp, Closed, UpLine, Kept;
    ReachApart(b, m, o, d, s);
    ReachLines(b, m, o, d, s);
    ReachKids(b, m, o, d, s, Reach(b.T, d, s));
  }

  lemma ReachKids(b: Books, m: Obj, o: Obj, d: Obj, s: Obj, R: set<Obj>)
    requires m in b.T && o in b.T && Steady(b.T)
    ensures forall k | k in m.objects || k in o.objects :: k in b.T
  {
    assert m.Linked(b.T) && o.Linked(b.T);
  }

  lemma AfterBeside(b: Books, m: Obj, d: Obj, R: set<Obj>, line: set<Obj>, was: Snap)
    requires Beside(b, m, d, R, line, was) && Kept(b.T, R, line, was)
    ensures m in was.depths && m in was.parents && m.objects == was.tables[m] && m.depth == was.depths[m] && m.parent == was.parents[m]
    ensures forall k | k in m.objects && k != d ::
      k in was.trees && k in was.depths && k.tree == was.trees[k] && k.depth == was.depths[k]
  {
  }

  lemma LineBack(T: set<Obj>, m: Obj, d: Obj, up: set<Obj>)
    requires Steady(T) && m in T && d in T && d.parent == m && UpLine(T, d) == up + {d} && d !in up
    ensures UpLine(T, m) == up
  {
    assert d.Linked(T);
    UpLineStep(T, d);
    NotAbove(T, d, m);
    assert d !in UpLine(T, m);
    hide Steady, Above;
    assert UpLine(T, m) == UpLine(T, d) - {d};
  }

  lemma ClosedBack(T: set<Obj>, B: set<Obj>, R: set<Obj>, line: set<Obj>, was: Snap)
    requires Closed(T, R) && R <= B <= T && Kept(T, R, line, was)
    requires forall z | z in T :: z in was.tables
    requires forall z, k | z in B && k in was.tables[z] :: k in B
    ensures Closed(T, B)
  {
    forall x, k | x in B && k in x.objects
      ensures k in B
    {
      if x !in R {
        assert x.objects == was.tables[x];
      }
    }
  }

  lemma KeptBack(T: set<Obj>, B: set<Obj>, R: set<Obj>, line: set<Obj>, more: set<Obj>, was: Snap, s0: Snap)
    requires KeptBy(T, B, line, was, s0) && Kept(T, R, line + more, was) && R <= B && more <= B
    ensures Kept(T, B, line, s0)
  {
  }

  lemma ValidIsLoose(m: Obj, T: set<Obj>)
    requires Valid(T) && m in T
    ensures m.LooseUp(T)
  {
    forall z | z in T && z.isDirty && z.parent != null && z.parent in T
      ensures z.parent.isDirty
    {
      assert z.DirtyUp();
    }
  }

  lemma DeepAgain(b: Books, m: Obj, o: Obj, s: Obj, was: Snap)
    requires m in was.depths && m.depth == was.depths[m] && o in was.tables && o.objects == was.tables[o]
    requires forall k | k in was.tables[o] :: k in b.T && k in was.depths && was.depths[m] < was.depths[k]
    requires forall k | k in o.objects && k != s :: k in was.depths && k.depth == was.depths[k]
    requires s in was.depths && s.depth == was.depths[s]
    ensures forall k | k in o.objects :: k in b.T && m.depth < k.depth
  {
  }

  lemma DuringAgain(b: Books, m: Obj, o: Obj)
    requires Sides(b.T, b.B, m, o) && Kept(b.T, b.B, b.line, b.s0) && m in b.T && o in b.T && b.line == UpLine(b.T, m) + UpLine(b.T, o)
    requires forall k | k in o.objects :: k in b.T && m.depth < k.depth
    ensures During(b, m, o)
  {
    hide Sides, Kept, UpLine;
  }

  /** The facts of a moment between two fields that outlive a merge of two children. */
  ghost predicate Remembered(b: Books, m: Obj, o: Obj, was: Snap) {
    && m in b.T && o in b.T && m in b.B && o in b.B && m != o && m.IsMessage() && o.IsMessage() && b.B <= b.T
    && KeptBy(b.T, b.B, b.line, was, b.s0)
    && (forall z | z in b.T :: z in was.tables && z in was.depths && z in was.trees && z in was.parents)
    && (forall z, k | z in b.B && k in was.tables[z] :: k in b.B)
    && forall k | k in was.tables[o] :: k in b.T && was.depths[m] < was.depths[k]
  }

  lemma RememberNow(b: Books, m: Obj, o: Obj)
    requires During(b, m, o)
    ensures Remembered(b, m, o, Now(b.T)) && m in b.T && o in b.T
    ensures b.line == UpLine(b.T, m) + UpLine(b.T, o) && o !in UpLine(b.T, m) && m !in UpLine(b.T, o)
  {
    hide *;
    DuringParts(b, m, o);
    SnapClosed(b.T, b.B);
    SnapIs(b.T);
    KeptIs(b.T, b.B, b.line, b.s0);
    RememberedFrom(b, m, o, Now(b.T));
  }

  lemma DuringParts(b: Books, m: Obj, o: Obj)
    requires During(b, m, o)
    ensures m in b.T && o in b.T && m in b.B && o in b.B && m != o && m.IsMessage() && o.IsMessage()
    ensures Closed(b.T, b.B) && Kept(b.T, b.B, b.line, b.s0) && forall k | k in o.objects :: k in b.T && m.depth < k.depth
    ensures b.line == UpLine(b.T, m) + UpLine(b.T, o) && o !in UpLine(b.T, m) && m !in UpLine(b.T, o)
  {
    hide Steady, Closed, Kept, m.LooseUp, Above;
  }

  lemma RememberedFrom(b: Books, m: Obj, o: Obj, w: Snap)
    requires m in b.T && o in b.T && m in b.B && o in b.B && m != o && m.IsMessage() && o.IsMessage() && b.B <= b.T
    requires KeptBy(b.T, b.B, b.line, w, b.s0) && forall k | k in o.objects :: k in b.T && m.depth < k.depth
    requires forall x | x in b.T ::
      && x in w.trees && x in w.tables && x in w.parents && x in w.depths
      && x.tree == w.trees[x] && x.objects == w.tables[x] && x.parent == w.parents[x] && x.depth == w.depths[x]
    requires forall z, k | z in b.B && k in w.tables[z] :: k in b.B
    ensures Remembered(b, m, o, w)
  {
    hide KeptBy;
  }

  lemma NowIs(T: set<Obj>, x: Obj)
    requires x in T
    ensures var w := Now(T);
      && x in w.tables && w.tables[x] == x.objects && x in w.depths && w.depths[x] == x.depth
      && x in w.parents && w.parents[x] == x.parent && x in w.trees && w.trees[x] == x.tree
  {
  }

  /** Two children have been merged: the moment between two fields is back. */
  lemma AfterNested(b: Books, m: Obj, o: Obj, d: Obj, s: Obj, R: set<Obj>, was: Snap)
    requires Valid(b.T) && Closed(b.T, R) && R <= b.B && Kept(b.T, R, b.line + {d, s}, was) && Remembered(b, m, o, was)
    requires Beside(b, m, d, R, b.line + {d, s}, was) && Beside(b, o, s, R, b.line + {d, s}, was)
    requires s in was.depths && s.depth == was.depths[s] && m in b.T && o in b.T
    requires b.line == UpLine(b.T, m) + UpLine(b.T, o) && o !in UpLine(b.T, m) && m !in UpLine(b.T, o)
    ensures During(b, m, o)
  {
    hide *;
    ValidIsSteady(b.T);
    ValidIsLoose(m, b.T);
    RememberedTables(b, m, o, was);
    ClosedBack(b.T, b.B, R, b.line + {d, s}, was);
    BesideParts(b, m, d, R, b.line + {d, s}, was);
    BesideParts(b, o, s, R, b.line + {d, s}, was);
    KeptBack(b.T, b.B, R, b.line, {d, s}, was, b.s0);
    SidesAgain(m, o, b.T, b.B);
    AfterBeside(b, m, d, R, b.line + {d, s}, was);
    AfterBeside(b, o, s, R, b.line + {d, s}, was);
    DeepAgain(b, m, o, s, was);
    DuringAgain(b, m, o);
  }

  lemma RememberedTables(b: Books, m: Obj, o: Obj, was: Snap)
    requires Remembered(b, m, o, was)
    ensures m in b.B && o in b.B && m != o && m.IsMessage() && o.IsMessage() && b.B <= b.T && KeptBy(b.T, b.B, b.line, was, b.s0)
    ensures (forall z | z in b.T :: z in was.tables) && forall z, k | z in b.B && k in was.tables[z] :: k in b.B
    ensures m in was.depths && o in was.tables && forall k | k in was.tables[o] :: k in b.T && k in was.depths && was.depths[m] < was.depths[k]
  {
    hide KeptBy;
  }

  lemma BesideParts(b: Books, m: Obj, d: Obj, R: set<Obj>, line: set<Obj>, was: Snap)
    requires Beside(b, m, d, R, line, was)
    ensures m in b.T && m in b.B && m in was.tables && d in was.tables[m] && d in R && d in b.T
  {
  }

  lemma AfterNestedLines(T: set<Obj>, m: Obj, d: Obj, up: set<Obj>)
    requires Valid(T) && m in T && d in T && d.parent == m && UpLine(T, d) == up + {d} && d !in up
    ensures UpLine(T, m) == up
  {
    ValidIsSteady(T);
    LineBack(T, m, d, up);
  }

  /** The trees of m's children, as a snapshot has them. */
  ghost predicate KidsIn(was: Snap, m: Obj, kids: seq<Node>) {
    && m in was.tables && |kids| == |was.tables[m]| && InOrder(was.tables[m])
    && forall j :: 0 <= j < |kids| ==> was.tables[m][j] in was.trees && kids[j] == was.trees[was.tables[m][j]]
  }

  lemma KidsNow(b: Books, m: Obj, o: Obj)
    requires During(b, m, o)
    ensures m in b.T && o in b.T && m.tree.Message? && o.tree.Message?
    ensures KidsIn(Now(b.T), m, m.tree.kids) && KidsIn(Now(b.T), o, o.tree.kids)
    ensures Now(b.T).tables[m] == m.objects && Now(b.T).tables[o] == o.objects
  {
    hide *;
    DuringTable(b, m, o);
    DuringSteady(b, m, o);
    ReachKids(b, m, o, m, o, {});
    SnapIs(b.T);
    KidsInNow(m, b.T, Now(b.T));
    KidsInNow(o, b.T, Now(b.T));
  }

  lemma KidsInNow(x: Obj, T: set<Obj>, w: Snap)
    requires x in T && x.tree.Message? && |x.tree.kids| == |x.objects| && InOrder(x.objects)
    requires forall i :: 0 <= i < |x.objects| ==> x.objects[i] in T && x.objects[i].tree == x.tree.kids[i]
    requires forall z | z in T :: z in w.trees && z in w.tables && z.tree == w.trees[z] && z.objects == w.tables[z]
    ensures KidsIn(w, x, x.tree.kids)
  {
    hide InOrder;
  }

  /** After a merge of two children only their trees are new in the tables they are in. */
  lemma AfterNestedTables(b: Books, m: Obj, o: Obj, x: Obj, lo: nat, R: set<Obj>, was: Snap, kids: seq<Node>, line: set<Obj>)
    requires During(b, m, o) && (x == m || x == o) && KidsIn(was, x, kids) && lo < |kids|
    requires Beside(b, x, was.tables[x][lo], R, line, was) && Kept(b.T, R, line, was)
    ensures x in was.parents && x in was.depths && x.parent == was.parents[x] && x.depth == was.depths[x]
    ensures x.tree.Message? && |x.tree.kids| == |kids| && x.tree.kids == kids[lo := was.tables[x][lo].tree]
  {
    hide During, Kept, Beside;
    AfterBeside(b, x, was.tables[x][lo], R, line, was);
    DuringTable(b, m, o);
    var objs, now := x.objects, x.tree.kids;
    assert objs == was.tables[x];
    forall j | 0 <= j < |kids| && j != lo
      ensures now[j] == kids[j]
    {
      assert objs[j] in objs && objs[j] != objs[lo];
    }
  }

  /** Merges the child at i of o into the child at lo of m. */
  method MergeNested(m: Obj, o: Obj, lo: nat, i: nat, ghost b: Books, ghost src: Node) returns (code: int)
    requires During(b, m, o) && m.tree.Message? && o.tree.Message?
    requires lo < |m.objects| == |m.tree.kids| && i < |o.objects| == |o.tree.kids|
    requires m.objects[lo].IsMessage() && o.objects[i].IsMessage()
    requires src.Message? && o.tree.kids[i] in src.kids
    modifies b.T`depth, b.T`parent, b.T`objects, b.T`isDirty, b.T`tree
    ensures old(m.tree.kids)[lo].Message? && old(o.tree.kids)[i].Message?
    ensures code == MergeOf(old(m.tree.kids)[lo], old(o.tree.kids)[i]).error
    ensures code == 0 ==> During(b, m, o) && m.tree.Message? && o.tree.Message?
    ensures code == 0 ==> m.tree.kids == old(m.tree.kids)[lo := Merged1(old(m.tree.kids)[lo], old(o.tree.kids)[i])]
    ensures code == 0 ==> |o.tree.kids| == |old(o.tree.kids)| && o.tree.kids[i + 1..] == old(o.tree.kids)[i + 1..]
    ensures code == 0 ==> m.parent == old(m.parent) && o.parent == old(o.parent) && m.depth == old(m.depth) && o.depth == old(o.depth)
    ensures code == 0 ==> UpLine(b.T, m) == old(UpLine(b.T, m)) && UpLine(b.T, o) == old(UpLine(b.T, o))
    decreases src, 0
  {
    hide *;
    var d, s := m.objects[lo], o.objects[i];
    ChildTrees(b, m, o, lo, i);
    KidsNow(b, m, o);
    ghost var kids, subs, upM, upO := m.tree.kids, o.tree.kids, UpLine(b.T, m), UpLine(b.T, o);
    ghost var was, R := Now(b.T), Reach(b.T, d, s);
    BesideNow(b, m, o, d, s);
    RememberNow(b, m, o);
    NowIs(b.T, m);
    NowIs(b.T, o);
    NowIs(b.T, s);
    NestedReady(b, m, o, d, s);
    NestedMeans(d, kids[lo], subs[i]);
    code := MergeMessages(d, s, b.T, R);
    if code == 0 {
      AfterNestedLines(b.T, m, d, upM);
      AfterNestedLines(b.T, o, s, upO);
      AfterNested(b, m, o, d, s, R, was);
      AfterNestedTables(b, m, o, m, lo, R, was, kids, b.line + {d, s});
      AfterNestedTables(b, m, o, o, i, R, was, subs, b.line + {d, s});
      SuffixKept(subs, i, o.tree.kids);
    }
  }

  function MergeOf(d: Node, s: Node): Merged
    requires d.Message? && s.Message?
  {
    Merge(d.kids, d.unique, s.kids)
  }

  function Merged1(d: Node, s: Node): Node
    requires d.Message? && s.Message?
  {
    Message(d.fn, MergeOf(d, s).kids, d.unique, true)
  }

  lemma NestedMeans(d: Obj, dn: Node, sn: Node)
    requires dn.Message? && sn.Message? && dn.fn == d.fieldNumber && dn.unique == d.fieldsUnique
    ensures MergeOf(dn, sn) == Merge(dn.kids, d.fieldsUnique, sn.kids)
    ensures Merged1(dn, sn) == Message(d.fieldNumber, Merge(dn.kids, d.fieldsUnique, sn.kids).kids, d.fieldsUnique, true)
  {
    hide Merge;
  }

  lemma SuffixKept(subs: seq<Node>, i: nat, now: seq<Node>)
    requires i < |subs| == |now| && now == subs[i := now[i]]
    ensures now[i + 1..] == subs[i + 1..]
  {
  }

  lemma ChildTrees(b: Books, m: Obj, o: Obj, lo: nat, i: nat)
    requires During(b, m, o) && m.tree.Message? && o.tree.Message? && lo < |m.objects| == |m.tree.kids| && i < |o.objects| == |o.tree.kids|
    requires m.objects[lo].IsMessage() && o.objects[i].IsMessage()
    ensures m.objects[lo].tree == m.tree.kids[lo] && o.objects[i].tree == o.tree.kids[i]
    ensures m.tree.kids[lo].Message? && o.tree.kids[i].Message?
    ensures m.objects[lo] in m.objects && o.objects[i] in o.objects
  {
    hide During;
    DuringTable(b, m, o);
    DuringSteady(b, m, o);
    ReachKids(b, m, o, m, o, {});
    assert m.objects[lo].Mirrored() && o.objects[i].Mirrored();
    hide Kept, Closed, m.LooseUp, Above, UpLine;
  }

  // ----- one field -----

  /** How many objects from i on are of one field. */
  method GroupLength(o: Obj, i: nat, ghost kids: seq<Node>) returns (g: nat)
    requires i < |o.objects| == |kids| && forall j :: 0 <= j < |kids| ==> o.objects[j].fieldNumber == kids[j].fn
    ensures 1 <= g && i + g <= |kids| && g == GroupSize(kids[i..])
    ensures forall j :: i <= j < i + g ==> kids[j].fn == kids[i].fn
  {
    g := 1;
    while i + g < |o.objects| && o.objects[i + g].fieldNumber == o.objects[i].fieldNumber
      invariant 1 <= g && i + g <= |kids|
      invariant forall j :: i <= j < i + g ==> kids[j].fn == kids[i].fn
    {
      g := g + 1;
    }
    GroupIs(kids[i..], g);
  }

  lemma {:induction false} GroupIs(src: seq<Node>, g: nat)
    requires 1 <= g <= |src| && (forall j :: 0 <= j < g ==> src[j].fn == src[0].fn) && (g < |src| ==> src[g].fn != src[0].fn)
    ensures GroupSize(src) == g
    decreases g
  {
    if g > 1 {
      GroupIs(src[1..], g - 1);
    }
  }

  /** One field's turn, by where its vector stands in the destination. */
  lemma FieldCases(kids: seq<Node>, unique: set<uint64>, vec: seq<Node>, f: uint64, lo: nat, hi: nat)
    requires Range(kids, f, lo, hi) && vec != [] && forall n | n in vec :: n.fn == f
    ensures MergeField(kids, unique, vec) ==
      if f !in unique || lo == hi then Merged(0, (kids[..lo] + kids[hi..])[..lo] + vec + (kids[..lo] + kids[hi..])[lo..])
      else if hi - lo != 1 && |vec| != 1 then Merged(4, kids)
      else if kids[lo].Message? then
        if !vec[0].Message? then Merged(MISCAST, kids)
        else if MergeOf(kids[lo], vec[0]).error != 0 then Merged(MergeOf(kids[lo], vec[0]).error, kids)
        else Merged(0, kids[lo := Merged1(kids[lo], vec[0])])
      else Merged(0, kids[lo := vec[0]])
    ensures SUPPOSED_TO_BE_UNIQUE == 4 && MISCAST != 0 && MISCAST != 4
  {
    FirstAt(kids, f, lo, hi);
    assert vec[0].fn == f;
    if f !in unique || lo == hi {
      AdoptValue(kids, f, lo, hi, vec);
    } else if !(hi - lo != 1 && |vec| != 1) {
      FirstReplaced(kids, f, lo, hi, vec[0]);
      if kids[lo].Message? && vec[0].Message? {
        FirstReplaced(kids, f, lo, hi, Merged1(kids[lo], vec[0]));
      }
    }
    hide Merge, AddAll, Without, At, ReplaceFirst;
  }

  lemma FirstReplaced(kids: seq<Node>, f: uint64, lo: nat, hi: nat, n: Node)
    requires Range(kids, f, lo, hi) && lo < hi && n.fn == f
    ensures ReplaceFirst(kids, n) == kids[lo := n]
  {
    ReplaceFirstAt(kids, n, lo);
  }

  /** A group of o's objects, by their trees. */
  predicate Group(o: Obj, i: nat, g: nat, kids: seq<Node>, f: uint64)
    reads o`objects
  {
    && 1 <= g && i + g <= |o.objects| == |kids| && (forall j :: i <= j < i + g ==> o.objects[j].fieldNumber == f)
    && forall n | n in kids[i..i + g] :: n.fn == f
  }

  lemma GroupAwaits(b: Books, m: Obj, o: Obj, objs: seq<Obj>, kids: seq<Node>, i: nat, g: nat, n: nat, f: uint64)
    requires InOrder(objs) && n <= g && i + g <= |objs| == |kids|
    requires forall j :: i <= j < i + g ==> objs[j].fieldNumber == f && objs[j].tree == kids[j]
    requires forall v | v in objs[i..i + g] :: Free(b, m, o, v)
    ensures Waiting(b, m, o, objs[i..i + n], kids[i..i + n], f)
  {
    hide Free;
    var vec := objs[i..i + n];
    forall v | v in vec
      ensures v in objs[i..i + g]
    {
      var k :| 0 <= k < n && vec[k] == v;
      assert objs[i..i + g][k] == v;
    }
    forall k | 0 <= k < n
      ensures Free(b, m, o, vec[k]) && vec[k].tree == kids[i..i + n][k] && vec[k].fieldNumber == f
    {
      assert vec[k] in vec;
    }
  }

  lemma RoomWhereDropped(m: Obj, was: seq<Obj>, lo: nat, hi: nat, f: uint64)
    requires lo <= hi <= |was| && m.objects == was[..lo] + was[hi..]
    requires (forall i :: 0 <= i < lo ==> was[i].fieldNumber < f) && forall i :: hi <= i < |was| ==> f <= was[i].fieldNumber
    ensures RoomFor(m, lo, f)
  {
  }

  /** Takes g objects of one field out of o and stores the first n of them in m, in place of those at
      [lo, hi). */
  method Take(m: Obj, o: Obj, i: nat, g: nat, n: nat, lo: nat, hi: nat, ghost f: uint64, ghost b: Books)
    requires During(b, m, o) && m.tree.Message? && o.tree.Message? && n <= g && Group(o, i, g, o.tree.kids, f)
    requires lo <= hi <= |m.objects| && forall j :: 0 <= j < lo ==> m.objects[j].fieldNumber < f
    requires forall j :: hi <= j < |m.objects| ==> f <= m.objects[j].fieldNumber
    modifies b.T`parent, m`objects, o`objects, b.T`tree
    ensures During(b, m, o) && m.tree.Message? && o.tree.Message? && lo <= hi <= |old(m.tree.kids)| && i + g <= |old(o.tree.kids)|
    ensures var k := old(m.tree.kids)[..lo] + old(m.tree.kids)[hi..]; m.tree.kids == k[..lo] + old(o.tree.kids)[i..i + n] + k[lo..]
    ensures o.tree.kids == old(o.tree.kids)[..i] + old(o.tree.kids)[i + g..]
    ensures m.depth == old(m.depth) && m.parent == old(m.parent) && o.parent == old(o.parent)
    ensures UpLine(b.T, m) == old(UpLine(b.T, m)) && UpLine(b.T, o) == old(UpLine(b.T, o))
  {
    hide *;
    DuringTable(b, m, o);
    GroupParts(o, i, g, o.tree.kids, f);
    ghost var objs, kids, table := o.objects, o.tree.kids, m.objects;
    var vec := o.objects[i..i + n];
    Members(objs, i, g);
    Detach(m, o, i, i + g, b);
    Drop(m, o, lo, hi, objs[i..i + g], b);
    GroupAwaits(b, m, o, objs, kids, i, g, n, f);
    RoomWhereDropped(m, table, lo, hi, f);
    StoreAll(m, o, lo, vec, kids[i..i + n], f, b);
  }

  lemma Members(objs: seq<Obj>, i: nat, g: nat)
    requires i + g <= |objs|
    ensures forall j :: i <= j < i + g ==> objs[j] in objs[i..i + g]
  {
    assert forall j :: i <= j < i + g ==> objs[i..i + g][j - i] == objs[j];
  }

  lemma GroupParts(o: Obj, i: nat, g: nat, kids: seq<Node>, f: uint64)
    requires Group(o, i, g, kids, f)
    ensures 1 <= g && i + g <= |o.objects| == |kids| && forall j :: i <= j < i + g ==> o.objects[j].fieldNumber == f
    ensures kids[i..i + g] != [] && (forall n | n in kids[i..i + g] :: n.fn == f) && kids[i..i + g][0] == kids[i]
  {
  }

  /** One field of the other message: its objects move over, or are refused, or the first of them is
      merged into the first of the destination's. */
  method MergeGroup(m: Obj, o: Obj, i: nat, g: nat, ghost f: uint64, ghost b: Books, ghost src: Node) returns (code: int, next: nat)
    requires During(b, m, o) && m.tree.Message? && o.tree.Message? && Group(o, i, g, o.tree.kids, f)
    requires src.Message? && o.tree.kids[i] in src.kids
    modifies b.T`depth, b.T`parent, b.T`objects, b.T`isDirty, b.T`tree
    ensures i + g <= |old(o.tree.kids)| && old(o.tree.kids)[i..i + g] != []
    ensures code == MergeField(old(m.tree.kids), m.fieldsUnique, old(o.tree.kids)[i..i + g]).error
    ensures code == 0 ==> During(b, m, o) && m.tree.Message? && o.tree.Message?
    ensures code == 0 ==> m.tree.kids == MergeField(old(m.tree.kids), m.fieldsUnique, old(o.tree.kids)[i..i + g]).kids
    ensures code == 0 ==> next <= |o.tree.kids| && o.tree.kids[next..] == old(o.tree.kids)[i + g..]
    ensures code == 0 ==> m.parent == old(m.parent) && o.parent == old(o.parent) && m.depth == old(m.depth) && o.depth == old(o.depth)
    ensures code == 0 ==> UpLine(b.T, m) == old(UpLine(b.T, m)) && UpLine(b.T, o) == old(UpLine(b.T, o))
    decreases src, 1
  {
    hide *;
    DuringTable(b, m, o);
    DuringSteady(b, m, o);
    GroupParts(o, i, g, o.tree.kids, f);
    ghost var kids, subs := m.tree.kids, o.tree.kids;
    var lo, hi := m.Locate(o.objects[i].fieldNumber, b.T);
    FieldCases(kids, m.fieldsUnique, subs[i..i + g], f, lo, hi);
    InRange(kids, f, lo, hi);
    code, next := 0, i;
    if o.objects[i].fieldNumber !in m.fieldsUnique || lo == hi {
      Take(m, o, i, g, g, lo, hi, f, b);
      CutSuffix(subs, i, g);
    } else if hi - lo != 1 && g != 1 {
      return SUPPOSED_TO_BE_UNIQUE, i;
    } else if m.objects[lo].IsMessage() {
      KidKinds(b, m, o, lo, i);
      next := i + g;
      if !o.objects[i].IsMessage() {
        return MISCAST, i;
      }
      code := MergeNested(m, o, lo, i, b, src);
      LaterSuffix(subs, i, g);
    } else {
      KidKinds(b, m, o, lo, i);
      Take(m, o, i, g, 1, lo, lo + 1, f, b);
      CutSuffix(subs, i, g);
      OnePut(kids, lo, subs, i);
    }
  }

  lemma DuringSteady(b: Books, m: Obj, o: Obj)
    requires During(b, m, o)
    ensures Steady(b.T)
  {
  }

  lemma CutSuffix(subs: seq<Node>, i: nat, g: nat)
    requires i + g <= |subs|
    ensures (subs[..i] + subs[i + g..])[i..] == subs[i + g..]
  {
  }

  lemma LaterSuffix(subs: seq<Node>, i: nat, g: nat)
    requires 1 <= g && i + g <= |subs|
    ensures subs[i + 1..][g - 1..] == subs[i + g..]
  {
  }

  lemma OnePut(kids: seq<Node>, lo: nat, subs: seq<Node>, i: nat)
    requires lo < |kids| && i < |subs|
    ensures var k := kids[..lo] + kids[lo + 1..]; k[..lo] + subs[i..i + 1] + k[lo..] == kids[lo := subs[i]]
  {
    var k := kids[..lo] + kids[lo + 1..];
    assert k[..lo] == kids[..lo] && k[lo..] == kids[lo + 1..];
  }

  /** Message objects have message trees. */
  lemma KidKinds(b: Books, m: Obj, o: Obj, lo: nat, i: nat)
    requires During(b, m, o) && m.tree.Message? && o.tree.Message? && lo < |m.objects| == |m.tree.kids| && i < |o.objects| == |o.tree.kids|
    ensures m.objects[lo].IsMessage() <==> m.tree.kids[lo].Message?
    ensures o.objects[i].IsMessage() <==> o.tree.kids[i].Message?
  {
    hide During;
    DuringTable(b, m, o);
    DuringSteady(b, m, o);
    ReachKids(b, m, o, m, o, {});
    assert m.objects[lo].Mirrored() && o.objects[i].Mirrored();
    hide Steady;
  }

  // ----- the whole merge -----

  /** The proof's books are opened: what o has goes deep enough. */
  ghost method Open(m: Obj, o: Obj, T: set<Obj>, B: set<Obj>) returns (b: Books)
    requires Sides(T, B, m, o) && m in T && o in T
    modifies T`depth
    ensures b == Books(T, B, old(UpLine(T, m) + UpLine(T, o)), old(Now(T)))
    ensures During(b, m, o) && UpLine(T, m) == old(UpLine(T, m)) && UpLine(T, o) == old(UpLine(T, o))
    ensures m.depth == old(m.depth) && o.depth == old(o.depth)
  {
    hide *;
    b := Books(T, B, UpLine(T, m) + UpLine(T, o), Now(T));
    ghost var X := Below(T, o);
    OpenParts(m, o, T, B);
    LooseSnap(m, T);
    SnapIs(T);
    Sink(T, o, m.depth + 1);
    LooseAgain(m, T, b.s0.parents);
    SidesAgain(m, o, T, B);
    KeptSunk(T, B, b.line, b.s0, X);
    DuringAgain(b, m, o);
  }

  lemma OpenParts(m: Obj, o: Obj, T: set<Obj>, B: set<Obj>)
    requires Sides(T, B, m, o) && m in T && o in T
    ensures Steady(T) && Closed(T, B) && m in B && o in B && m != o && m.IsMessage() && o.IsMessage() && m.LooseUp(T)
    ensures o !in UpLine(T, m) && m !in UpLine(T, o) && m !in Below(T, o) && o !in Below(T, o) && Below(T, o) <= B
    ensures forall k | k in o.objects :: k in T && k in Below(T, o)
    ensures forall z | z in T :: z in Now(T).parents && Now(T).parents[z] == z.parent
  {
    BelowKids(T, o);
    forall x | x in Below(T, o)
      ensures x in B
    {
      BelowClosed(T, B, o, x);
    }
    hide Steady, Closed, m.LooseUp, Above;
  }

  lemma KeptSunk(T: set<Obj>, B: set<Obj>, line: set<Obj>, s0: Snap, X: set<Obj>)
    requires X <= B
    requires forall x | x in T ::
      && x in s0.trees && x in s0.tables && x in s0.parents && x in s0.depths
      && x.tree == s0.trees[x] && x.objects == s0.tables[x] && x.parent == s0.parents[x] && (x !in X ==> x.depth == s0.depths[x])
    ensures Kept(T, B, line, s0)
  {
  }

  /** The last step: m and everything above it is marked dirty. */
  method MarkMerged(m: Obj, o: Obj, ghost b: Books)
    requires During(b, m, o) && m.tree.Message?
    modifies b.T`isDirty, b.T`tree
    ensures Valid(b.T) && Closed(b.T, b.B) && Kept(b.T, b.B, b.line, b.s0)
    ensures m.tree == Message(m.fieldNumber, old(m.tree.kids), m.fieldsUnique, true)
  {
    hide *;
    DuringMarks(b, m, o);
    ghost var was := Now(b.T);
    SnapIs(b.T);
    MarkTop(m, b.T);
    KeptMarked(b.T, b.B, b.line, was, b.s0);
  }

  lemma SnapIs(T: set<Obj>)
    ensures var w := Now(T); forall x | x in T ::
      && x in w.trees && x in w.tables && x in w.parents && x in w.depths
      && x.tree == w.trees[x] && x.objects == w.tables[x] && x.parent == w.parents[x] && x.depth == w.depths[x]
  {
  }

  lemma KeptMarked(T: set<Obj>, B: set<Obj>, line: set<Obj>, was: Snap, s0: Snap)
    requires KeptBy(T, B, line, was, s0)
    requires forall x | x in T ::
      && x in was.trees && x in was.tables && x in was.parents && x in was.depths
      && x.objects == was.tables[x] && x.parent == was.parents[x] && x.depth == was.depths[x] && (x !in line ==> x.tree == was.trees[x])
    ensures Kept(T, B, line, s0)
  {
  }

  method MarkTop(m: Obj, ghost T: set<Obj>)
    requires m in T && m.IsMessage() && m.tree.Message? && m.LooseUp(T)
    requires (forall x | x in T :: x.Linked(T)) && forall x | x in T :: x.Mirrored()
    modifies T`isDirty, T`tree
    ensures Valid(T) && m.tree == Message(m.fieldNumber, old(m.tree.kids), m.fieldsUnique, true)
    ensures forall x | x in T && x !in UpLine(T, m) :: x.tree == old(x.tree)
  {
    assert m.Mirrored() && m.KidsLinked(T) by {
      LinksSplit(T);
    }
    hide m.Linked, Above, m.DirtyUp, m.LooseUp;
    m.MarkDirty(T);
    assert m.Mirrored();
    m.KidsKept(T);
    assert m.tree.kids == old(m.tree.kids);
  }

  lemma DuringMarks(b: Books, m: Obj, o: Obj)
    requires During(b, m, o)
    ensures m in b.T && m.IsMessage() && m.LooseUp(b.T) && Closed(b.T, b.B) && UpLine(b.T, m) <= b.line
    ensures KeptBy(b.T, b.B, b.line, Now(b.T), b.s0)
    ensures (forall x | x in b.T :: x.Linked(b.T)) && forall x | x in b.T :: x.Mirrored()
  {
  }

  lemma StartOfMerge(src: Node)
    requires src.Message?
    ensures src.kids[0..] == src.kids && forall n | n in src.kids[0..] :: n in src.kids
  {
  }

  lemma GroupMade(o: Obj, i: nat, g: nat, subs: seq<Node>, kids: seq<Node>, unique: set<uint64>)
    requires i < |subs| == |o.objects| && 1 <= g && i + g <= |subs| && g == GroupSize(subs[i..])
    requires forall j :: i <= j < i + g ==> subs[j].fn == subs[i].fn
    requires forall j :: 0 <= j < |subs| ==> o.objects[j].fieldNumber == subs[j].fn
    ensures Group(o, i, g, subs, subs[i].fn) && subs[i] in subs[i..] && subs[i..i + g] != []
    ensures var step := MergeField(kids, unique, subs[i..i + g]);
      Merge(kids, unique, subs[i..]) == if step.error != 0 then step else Merge(step.kids, unique, subs[i + g..])
  {
    MergeTurn(kids, unique, subs[i..]);
    hide Merge, MergeField;
    assert subs[i..][0] == subs[i] && subs[i..][..g] == subs[i..i + g] && subs[i..][g..] == subs[i + g..];
  }

  lemma RestOfMerge(subs: seq<Node>, i: nat, g: nat, all: seq<Node>)
    requires i + g <= |subs| && forall n | n in subs[i..] :: n in all
    ensures forall n | n in subs[i + g..] :: n in all
  {
    assert subs[i..][g..] == subs[i + g..];
  }

  lemma EndOfMerge(kids: seq<Node>, unique: set<uint64>, subs: seq<Node>, i: nat)
    requires i == |subs|
    ensures Merge(kids, unique, subs[i..]) == Merged(0, kids)
  {
  }

  /** The body of MergeWith, in a heap that holds both messages; the other one is gutted. */
  method MergeMessages(m: Obj, o: Obj, ghost T: set<Obj>, ghost B: set<Obj>) returns (code: int)
    requires Sides(T, B, m, o) && B <= T && m in T && o in T && m.tree.Message? && o.tree.Message?
    modifies T`depth, T`parent, T`objects, T`isDirty, T`tree
    ensures code == Merge(old(m.tree.kids), m.fieldsUnique, old(o.tree.kids)).error
    ensures code == 0 ==> Valid(T) && Closed(T, B) && Kept(T, B, old(UpLine(T, m) + UpLine(T, o)), old(Now(T)))
    ensures code == 0 ==>
      m.tree == Message(m.fieldNumber, Merge(old(m.tree.kids), m.fieldsUnique, old(o.tree.kids)).kids, m.fieldsUnique, true)
    ensures code == 0 ==> UpLine(T, m) == old(UpLine(T, m)) && UpLine(T, o) == old(UpLine(T, o))
    ensures code == 0 ==> m.parent == old(m.parent) && o.parent == old(o.parent) && m.depth == old(m.depth) && o.depth == old(o.depth)
    decreases o.tree, 2
  {
    hide *;
    ghost var kids0, src := m.tree.kids, o.tree;
    ghost var b := Open(m, o, T, B);
    StartOfMerge(src);
    var i: nat := 0;
    DuringTable(b, m, o);
    while i < |o.objects|
      invariant During(b, m, o) && m.tree.Message? && o.tree.Message? && i <= |o.tree.kids| == |o.objects|
      invariant Merge(kids0, m.fieldsUnique, src.kids) == Merge(m.tree.kids, m.fieldsUnique, o.tree.kids[i..])
      invariant forall n | n in o.tree.kids[i..] :: n in src.kids
      invariant m.parent == old(m.parent) && o.parent == old(o.parent) && m.depth == old(m.depth) && o.depth == old(o.depth)
      invariant UpLine(T, m) == old(UpLine(T, m)) && UpLine(T, o) == old(UpLine(T, o))
      decreases |o.tree.kids| - i
    {
      ghost var subs, at := o.tree.kids, i;
      DuringTable(b, m, o);
      var g := GroupLength(o, i, subs);
      GroupMade(o, i, g, subs, m.tree.kids, m.fieldsUnique);
      code, i := MergeGroup(m, o, i, g, subs[i].fn, b, src);
      if code != 0 {
        return;
      }
      DuringTable(b, m, o);
      RestOfMerge(subs, at, g, src.kids);
    }
    EndOfMerge(m.tree.kids, m.fieldsUnique, o.tree.kids, i);
    MarkMerged(m, o, b);
    return 0;
  }

  /** MergeWith on a message and another message with a heap of its own, which becomes part of the
      first one's. */
  method MergeWith(m: Obj, other: Obj, ghost S: set<Obj>, ghost U: set<Obj>) returns (code: int)
    requires m in S && Valid(S) && m.IsMessage() && other in U && Valid(U) && other.IsMessage() && S !! U
    requires m.tree.Message? && other.tree.Message?
    modifies (S + U)`depth, (S + U)`parent, (S + U)`objects, (S + U)`isDirty, (S + U)`tree
    ensures code == Merge(old(m.tree.kids), m.fieldsUnique, old(other.tree.kids)).error
    ensures code == 0 ==> Valid(S + U) && m.isDirty && m.parent == old(m.parent)
    ensures code == 0 ==>
      m.tree == Message(m.fieldNumber, Merge(old(m.tree.kids), m.fieldsUnique, old(other.tree.kids)).kids, m.fieldsUnique, true)
    ensures code == 0 ==> UpLine(S + U, m) == old(UpLine(S, m))
  {
    hide *;
    JoinedSides(m, other, S, U);
    code := MergeMessages(m, other, S + U, S + U);
    if code == 0 {
      DirtyAsTree(m, S + U);
    }
  }

  lemma JoinedSides(m: Obj, other: Obj, S: set<Obj>, U: set<Obj>)
    requires m in S && Valid(S) && m.IsMessage() && other in U && Valid(U) && other.IsMessage() && S !! U
    ensures Sides(S + U, S + U, m, other) && UpLine(S + U, m) == UpLine(S, m)
  {
    Join(S, U);
    ValidIsSteady(S + U);
    ValidIsLoose(m, S + U);
    UpLineJoin(S, U, m);
    UpLineJoin(U, S, other);
    assert U + S == S + U;
    AllClosed(S + U);
    hide Valid, Steady, Above, m.LooseUp;
    SidesAgain(m, other, S + U, S + U);
  }

  lemma AllClosed(T: set<Obj>)
    requires Steady(T)
    ensures Closed(T, T)
  {
    forall x, k | x in T && k in x.objects
      ensures k in T
    {
      assert x.Linked(T);
    }
  }

  lemma DirtyAsTree(m: Obj, T: set<Obj>)
    requires m in T && Valid(T) && m.tree.dirty
    ensures m.isDirty
  {
    assert m.Mirrored();
  }
}
