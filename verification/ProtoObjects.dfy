/** The object heap: message, string, byte-array and integer objects with parent pointers and
    dirty flags, updated in place.  A set S of objects is valid when every object in it agrees
    with its neighbours; each object's ghost tree is the value it stands for. */
module ProtoObjects {
  import opened Bytes
  import opened ProtoTree
  import opened ProtoFields
  import opened ProtoDelta

  const CANT_ADD_ROOT_MSG := 5

  datatype Kind = RootMessage | EmbeddedMessage | StringKind | BytesKind | VarIntKind | Fixed64Kind | Fixed32Kind

  /** The trees of a list of objects. */
  ghost function Trees(objs: seq<Obj>): (r: seq<Node>)
    reads objs`tree
    ensures |r| == |objs|
    ensures forall i :: 0 <= i < |objs| ==> r[i] == objs[i].tree
  {
    if objs == [] then [] else [objs[0].tree] + Trees(objs[1..])
  }

  /** Distinct objects in map order. */
  predicate InOrder(objs: seq<Obj>) {
    forall i, j :: 0 <= i < j < |objs| ==> objs[i] != objs[j] && objs[i].fieldNumber <= objs[j].fieldNumber
  }

  lemma SpliceInOrder(objs: seq<Obj>, lo: nat, hi: nat, ob: Obj?)
    requires InOrder(objs) && lo <= hi <= |objs| && ob !in objs
    requires ob != null ==>
      && (forall i :: 0 <= i < lo ==> objs[i].fieldNumber <= ob.fieldNumber)
      && (forall i :: hi <= i < |objs| ==> ob.fieldNumber <= objs[i].fieldNumber)
    ensures InOrder(objs[..lo] + (if ob == null then [] else [ob]) + objs[hi..])
  {
  }

  /** A change to a field table: the objects at [lo, hi) make room for ob, or for nothing. */
  datatype Cut = Cut(lo: nat, hi: nat, ob: Obj?, ghost S: set<Obj>)

  /** The value of a new object. */
  function Blank(kind: Kind, fn: uint64): (n: Node)
    ensures n.fn == fn && !n.dirty
  {
    match kind
    case StringKind => Text(fn, [], false)
    case BytesKind => Blob(fn, [], false)
    case VarIntKind => VarIntField(fn, 0, false)
    case Fixed64Kind => Fixed64(fn, 0, false)
    case Fixed32Kind => Fixed32(fn, 0, false)
    case _ => Message(fn, [], {}, false)
  }

  class Obj {
    const kind: Kind
    const fieldNumber: uint64
    var isDirty: bool
    var parent: Obj?
    var value: uint64
    var value32: uint32
    var content: seq<byte>
    var objects: seq<Obj>
    var fieldsUnique: set<uint64>

    ghost var tree: Node
    ghost var depth: nat

    /** A new object: clean, unattached, empty. */
    constructor (kind: Kind, fieldNumber: uint64)
      ensures this.kind == kind && this.fieldNumber == fieldNumber
      ensures !isDirty && parent == null && objects == [] && fieldsUnique == {} && content == [] && value == 0 && value32 == 0
      ensures Valid({this})
      ensures tree == Blank(kind, fieldNumber)
    {
      this.kind, this.fieldNumber := kind, fieldNumber;
      isDirty, parent, value, value32 := false, null, 0, 0;
      content, objects, fieldsUnique := [], [], {};
      tree, depth := Blank(kind, fieldNumber), 0;
    }

    /** A new integer object holding v. */
    constructor Integer(kind: Kind, fieldNumber: uint64, v: uint64)
      requires kind.VarIntKind? || kind.Fixed64Kind? || (kind.Fixed32Kind? && v < 0x1_0000_0000)
      ensures this.kind == kind && this.fieldNumber == fieldNumber
      ensures parent == null && Valid({this})
      ensures tree == if kind.VarIntKind? then VarIntField(fieldNumber, v, false)
                      else if kind.Fixed64Kind? then Fixed64(fieldNumber, v, false)
                      else Fixed32(fieldNumber, v, false)
    {
      this.kind, this.fieldNumber := kind, fieldNumber;
      isDirty, parent := false, null;
      value, value32 := v, if kind.Fixed32Kind? then v else 0;
      content, objects, fieldsUnique := [], [], {};
      tree := if kind.VarIntKind? then VarIntField(fieldNumber, v, false)
              else if kind.Fixed64Kind? then Fixed64(fieldNumber, v, false)
              else Fixed32(fieldNumber, v, false);
      depth := 0;
    }

    /** A new string or byte array object holding c. */
    constructor Storage(kind: Kind, fieldNumber: uint64, c: seq<byte>)
      requires kind.StringKind? || kind.BytesKind?
      ensures this.kind == kind && this.fieldNumber == fieldNumber
      ensures parent == null && Valid({this})
      ensures tree == if kind.StringKind? then Text(fieldNumber, c, false) else Blob(fieldNumber, c, false)
    {
      this.kind, this.fieldNumber := kind, fieldNumber;
      isDirty, parent, value, value32 := false, null, 0, 0;
      content, objects, fieldsUnique := c, [], {};
      tree := if kind.StringKind? then Text(fieldNumber, c, false) else Blob(fieldNumber, c, false);
      depth := 0;
    }

    predicate IsMessage() {
      kind.RootMessage? || kind.EmbeddedMessage?
    }

    /** Children are below their parent, distinct, in map order, and point back to it. */
    ghost predicate KidsLinked(S: set<Obj>)
      reads S`parent, S`objects, S`depth
      requires this in S
    {
      && (!IsMessage() ==> objects == [])
      && (forall i :: 0 <= i < |objects| ==>
            && objects[i] in S && objects[i].parent == this && !objects[i].kind.RootMessage?
            && depth < objects[i].depth)
      && InOrder(objects)
    }

    /** The parent, if any, lists this object among its children. */
    ghost predicate ParentLinked(S: set<Obj>)
      reads S`parent, S`objects, S`depth
      requires this in S
    {
      parent != null ==> parent in S && this in parent.objects && parent.depth < depth
    }

    ghost predicate Linked(S: set<Obj>)
      reads S`parent, S`objects, S`depth
      requires this in S
    {
      KidsLinked(S) && ParentLinked(S)
    }

    /** The ghost tree is the value of this object and its children's trees. */
    ghost predicate Mirrored()
      reads `tree, `isDirty, `value, `value32, `content, `objects, `fieldsUnique, objects`tree
    {
      && tree.fn == fieldNumber && tree.dirty == isDirty
      && match kind
         case StringKind => tree.Text? && tree.content == content
         case BytesKind => tree.Blob? && tree.content == content
         case VarIntKind => tree.VarIntField? && tree.value == value
         case Fixed64Kind => tree.Fixed64? && tree.value == value
         case Fixed32Kind => tree.Fixed32? && tree.value32 == value32
         case _ =>
           && tree.Message? && tree.unique == fieldsUnique && |tree.kids| == |objects|
           && forall i :: 0 <= i < |objects| ==> tree.kids[i] == objects[i].tree
    }

    /** A dirty object has a dirty parent. */
    ghost predicate DirtyUp()
      reads this, if parent == null then {} else {parent}
    {
      parent != null && isDirty ==> parent.isDirty
    }

    /** The value this object stands for, its children's trees being right. */
    ghost function Value(): Node
      reads `isDirty, `value, `value32, `content, `objects, `fieldsUnique, objects`tree
    {
      match kind
      case StringKind => Text(fieldNumber, content, isDirty)
      case BytesKind => Blob(fieldNumber, content, isDirty)
      case VarIntKind => VarIntField(fieldNumber, value, isDirty)
      case Fixed64Kind => Fixed64(fieldNumber, value, isDirty)
      case Fixed32Kind => Fixed32(fieldNumber, value32, isDirty)
      case _ => Message(fieldNumber, Trees(objects), fieldsUnique, isDirty)
    }

    lemma LinkedParts(o: Obj, S: set<Obj>)
      requires o in S && o.Linked(S)
      ensures o.KidsLinked(S) && o.ParentLinked(S)
    {
    }

    lemma NotMyChild(o: Obj, S: set<Obj>)
      requires this in S && o in S && o.KidsLinked(S) && o != parent
      ensures this !in o.objects
    {
    }

    lemma MyChildren(S: set<Obj>)
      requires this in S && Linked(S)
      ensures this !in objects
    {
    }

    /** Brings the ghost tree up to date with the fields. */
    ghost method Refresh()
      requires this !in objects
      modifies this`tree
      ensures Mirrored()
    {
      tree := Value();
    }

    /** Only the children of this object and of those above it may be dirty below a clean parent. */
    ghost predicate LooseUp(S: set<Obj>)
      reads S
      requires this in S
    {
      forall o | o in S && o.isDirty && o.parent != null && o.parent in S ::
        o.parent.isDirty || o.parent == this || Above(S, o.parent, this)
    }

    /** Marks this object alone and brings its tree up to date; only the parent's is now stale. */
    method MarkSelf(ghost S: set<Obj>)
      requires this in S && forall o | o in S :: o.Linked(S)
      requires forall o | o in S && o != this :: o.Mirrored()
      modifies this`isDirty, this`tree
      ensures isDirty
      ensures forall o | o in S && o != parent :: o.Mirrored()
    {
      hide Linked, KidsLinked, ParentLinked, Mirrored, Value;
      MyChildren(S);
      forall o | o in S && o != parent
        ensures this !in o.objects
      {
        assert o.KidsLinked(S) by { LinkedParts(o, S); }
        NotMyChild(o, S);
      }
      isDirty := true;
      Refresh();
    }

    /** With this object dirty, only the children further up may be out of order. */
    twostate lemma LooseAbove(S: set<Obj>)
      requires this in S && old(LooseUp(S)) && isDirty
      requires forall o | o in S :: o.parent == old(o.parent) && o.depth == old(o.depth) && (o != this ==> o.isDirty == old(o.isDirty))
      requires (forall o | o in S && o.parent != null :: o.parent in S) && (parent != null ==> parent.depth < depth)
      ensures if parent != null then parent.LooseUp(S) else forall o | o in S :: o.DirtyUp()
    {
    }

    /** Marks this object and everything above it, following the parent pointers. */
    method MarkDirty(ghost S: set<Obj>)
      requires this in S && forall o | o in S :: o.Linked(S)
      requires forall o | o in S && o != this :: o.Mirrored()
      requires LooseUp(S)
      modifies S`isDirty, S`tree
      decreases depth
      ensures Valid(S) && isDirty
      ensures OnlyAbove(S, this)
    {
      MarkSelf(S);
      LinksSplit(S);
      hide LooseUp, Linked, KidsLinked;
      LooseAbove(S);
      if parent != null {
        parent.MarkDirty(S);
      }
    }

    /** Brings the tree of this object up to date; only the parent's is now stale. */
    ghost method RefreshSelf(S: set<Obj>)
      requires this in S && forall o | o in S :: o.Linked(S)
      requires forall o | o in S && o != this :: o.Mirrored()
      modifies this`tree
      ensures forall o | o in S && o != parent :: o.Mirrored()
    {
      hide Linked, KidsLinked, ParentLinked, Mirrored, Value;
      MyChildren(S);
      forall o | o in S && o != parent
        ensures this !in o.objects
      {
        assert o.KidsLinked(S) by { LinkedParts(o, S); }
        NotMyChild(o, S);
      }
      Refresh();
    }

    /** Brings the trees of this object and of those above it up to date; the program keeps no trees. */
    ghost method RefreshUp(S: set<Obj>)
      requires this in S && forall o | o in S :: o.Linked(S)
      requires forall o | o in S && o != this :: o.Mirrored()
      modifies S`tree
      decreases depth
      ensures Steady(S) && forall o | o in S && o !in UpLine(S, this) :: o.tree == old(o.tree)
    {
      RefreshSelf(S);
      if parent != null {
        assert Linked(S);
        UpLineStep(S, this);
        parent.RefreshUp(S);
      }
    }

    /** The indices [lo, hi) of the vector stored under field number f. */
    method FieldRange(f: uint64) returns (lo: nat, hi: nat)
      requires forall i, j :: 0 <= i < j < |objects| ==> objects[i].fieldNumber <= objects[j].fieldNumber
      ensures lo <= hi <= |objects|
      ensures forall i :: 0 <= i < lo ==> objects[i].fieldNumber < f
      ensures forall i :: lo <= i < hi ==> objects[i].fieldNumber == f
      ensures forall i :: hi <= i < |objects| ==> f < objects[i].fieldNumber
    {
      lo := 0;
      while lo < |objects| && objects[lo].fieldNumber < f
        invariant lo <= |objects|
        invariant forall i :: 0 <= i < lo ==> objects[i].fieldNumber < f
      {
        lo := lo + 1;
      }
      hi := lo;
      while hi < |objects| && objects[hi].fieldNumber == f
        invariant lo <= hi <= |objects|
        invariant forall i :: lo <= i < hi ==> objects[i].fieldNumber == f
      {
        hi := hi + 1;
      }
    }

    /** Destroys the objects of a vector.  A destroyed object is one that is no longer part of
        the tree: it is left without a parent. */
    static method Destroy(gone: seq<Obj>)
      modifies gone`parent
      ensures forall o | o in gone :: o.parent == null
    {
      for k := 0 to |gone|
        invariant forall i :: 0 <= i < k ==> gone[i].parent == null
      {
        gone[k].parent := null;
      }
    }

    /** What the change does to the links. */
    twostate predicate Spliced(c: Cut)
      reads c.S
      requires this in c.S && c.lo <= c.hi <= |old(objects)|
    {
      && objects == old(objects)[..c.lo] + (if c.ob == null then [] else [c.ob]) + old(objects)[c.hi..]
      && (forall o | o in c.S :: o.depth == old(o.depth) && (o != this ==> o.objects == old(o.objects)))
      && (forall o | o in c.S :: o.parent ==
            if o == c.ob then this else if o in old(objects)[c.lo..c.hi] then null else old(o.parent))
    }

    /** ob may stand between the objects below lo and those from hi on. */
    ghost predicate FitsAt(c: Cut)
      reads c.S`parent, c.S`objects, c.S`depth
      requires this in c.S
    {
      && c.lo <= c.hi <= |objects|
      && (c.ob != null ==>
            && c.ob in c.S && c.ob.parent == null && !c.ob.kind.RootMessage? && depth < c.ob.depth
            && (forall i :: 0 <= i < c.lo ==> objects[i].fieldNumber <= c.ob.fieldNumber)
            && (forall i :: c.hi <= i < |objects| ==> c.ob.fieldNumber <= objects[i].fieldNumber))
    }

    /** The links were right, the newcomer fits, and the change was made. */
    twostate predicate SplicedWell(c: Cut)
      reads c.S
    {
      && this in c.S && IsMessage()
      && (forall o | o in c.S :: old(o.KidsLinked(c.S)))
      && (forall o | o in c.S :: old(o.ParentLinked(c.S)))
      && old(FitsAt(c))
      && Spliced(c)
    }

    twostate lemma SplicedKids(c: Cut)
      requires SplicedWell(c)
      ensures KidsLinked(c.S)
    {
      hide ParentLinked;
      assert old(KidsLinked(c.S));
      ghost var was, lo, hi, n := old(objects), c.lo, c.hi, if c.ob == null then 0 else 1;
      assert c.ob !in was;
      SpliceInOrder(was, lo, hi, c.ob);
      hide InOrder;
      forall i | 0 <= i < |objects|
        ensures objects[i] in c.S && objects[i].parent == this && !objects[i].kind.RootMessage? && depth < objects[i].depth
      {
        if i < lo || i >= lo + n {
          var j := if i < lo then i else i - n - lo + hi;
          assert objects[i] == was[j];
          assert was[j] !in was[lo..hi];
        }
      }
    }

    twostate lemma SplicedOthers(c: Cut)
      requires SplicedWell(c)
      ensures forall o | o in c.S && o != this :: o.KidsLinked(c.S)
    {
      hide ParentLinked;
      assert forall k | k in old(objects) :: k in c.S && old(k.parent) == this by {
        assert old(KidsLinked(c.S));
      }
    }

    twostate lemma SplicedParents(c: Cut)
      requires SplicedWell(c)
      ensures forall o | o in c.S :: o.ParentLinked(c.S)
    {
      hide KidsLinked;
      ghost var was, lo, hi, n := old(objects), c.lo, c.hi, if c.ob == null then 0 else 1;
      forall o | o in c.S
        ensures o.ParentLinked(c.S)
      {
        assert old(o.ParentLinked(c.S));
        if c.ob != null && o == c.ob {
          assert objects[lo] == o;
        } else if o.parent == this {
          var j :| 0 <= j < |was| && was[j] == o;
          assert o !in was[lo..hi];
          assert objects[if j < lo then j else j - hi + lo + n] == o;
        }
      }
    }

    /** Replaces the objects at [lo, hi) by ob, or by nothing, and destroys them. */
    method Splice(c: Cut)
      requires this in c.S && IsMessage() && KidsLinked(c.S) && FitsAt(c)
      modifies c.S`parent, this`objects
      ensures Spliced(c) && parent == old(parent)
    {
      assert this !in objects && this != c.ob;
      assert forall o | o in objects[c.lo..c.hi] :: o in c.S && o.parent == this;
      Destroy(objects[c.lo..c.hi]);
      objects := objects[..c.lo] + (if c.ob == null then [] else [c.ob]) + objects[c.hi..];
      if c.ob != null {
        c.ob.parent := this;
      }
    }

    /** In two linked heaps with the same parents the same objects are above this one. */
    twostate lemma AboveByParents(S: set<Obj>)
      requires this in S && (forall o | o in S :: o.parent == old(o.parent))
      requires (forall o | o in S :: old(o.ParentLinked(S))) && (forall o | o in S :: o.ParentLinked(S))
      ensures forall a | a in S :: Above(S, a, this) == old(Above(S, a, this))
    {
      for height := 0 to depth + 1
        invariant forall o, a | o in S && a in S && o.depth < height :: Above(S, a, o) == old(Above(S, a, o))
      {
        forall o, a | o in S && a in S && o.depth == height
          ensures Above(S, a, o) == old(Above(S, a, o))
        {
          assert old(o.ParentLinked(S)) && o.ParentLinked(S);
        }
      }
    }

    /** The line above this object stays when nothing on it gets another parent. */
    twostate lemma LineStays(S: set<Obj>)
      requires this in S && (forall o | o in S :: o.depth == old(o.depth))
      requires forall o | o in old(UpLine(S, this)) :: o.parent == old(o.parent)
      ensures UpLine(S, this) == old(UpLine(S, this))
    {
      AboveStays(S);
    }

    twostate lemma {:induction false} AboveStays(S: set<Obj>)
      requires this in S && (forall o | o in S :: o.depth == old(o.depth))
      requires forall o | o in S && old(Above(S, o, this)) :: o.parent == old(o.parent)
      ensures forall a | a in S :: Above(S, a, this) == old(Above(S, a, this))
      decreases depth
    {
      assert old(Above(S, this, this));
      if parent != null && parent in S && parent.depth < depth {
        parent.AboveStays(S);
      }
    }

    /** What stays the same up to this depth leaves the line above this object as it is. */
    twostate lemma {:induction false} LineKept(S: set<Obj>)
      requires this in S && (forall o | o in S :: o.depth == old(o.depth))
      requires forall o | o in S && o.depth <= depth :: o.parent == old(o.parent)
      ensures forall a | a in S :: Above(S, a, this) == old(Above(S, a, this))
      decreases depth
    {
      if parent != null && parent in S && parent.depth < depth {
        parent.LineKept(S);
      }
    }

    twostate lemma SplicedLine(c: Cut)
      requires SplicedWell(c)
      ensures UpLine(c.S, this) == old(UpLine(c.S, this))
    {
      assert old(KidsLinked(c.S));
      hide KidsLinked, ParentLinked;
      assert forall k | k in old(objects) :: depth < k.depth;
      LineKept(c.S);
    }

    /** Makes the change and keeps every link in order. */
    method SpliceLinked(c: Cut)
      requires this in c.S && IsMessage() && FitsAt(c) && forall o | o in c.S :: o.Linked(c.S)
      modifies c.S`parent, this`objects
      ensures c.lo <= c.hi <= |old(objects)| && Spliced(c) && parent == old(parent)
      ensures (forall o | o in c.S :: o.Linked(c.S)) && UpLine(c.S, this) == old(UpLine(c.S, this))
    {
      LinksSplit(c.S);
      Splice(c);
      assert SplicedWell(c);
      SplicedLine(c);
      hide Spliced, SplicedWell, FitsAt, KidsLinked, ParentLinked;
      SplicedParents(c);
      SplicedKids(c);
      SplicedOthers(c);
    }

    /** The walk up does not touch the children. */
    twostate lemma KidsKept(S: set<Obj>)
      requires this in S && OnlyAbove(S, this) && KidsLinked(S)
      ensures forall k | k in objects :: k in S && k.tree == old(k.tree)
    {
      forall k | k in objects
        ensures k.tree == old(k.tree)
      {
        NotAbove(S, k, this);
      }
    }

    /** This object's tree once it is marked and its children's trees are what they were. */
    twostate lemma MarkedTree()
      requires old(Mirrored()) && Mirrored() && isDirty
      requires unchanged(`value, `value32, `content, `objects, `fieldsUnique) && forall k | k in objects :: k.tree == old(k.tree)
      ensures old(tree.Message?) == IsMessage()
      ensures tree == if IsMessage() then Message(fieldNumber, old(tree).kids, fieldsUnique, true) else Touched(old(tree))
      ensures IsMessage() ==> |old(tree).kids| == |objects| && forall j :: 0 <= j < |objects| ==> objects[j].tree == old(tree).kids[j]
    {
      if IsMessage() {
        assert tree.kids == old(tree).kids;
      }
    }

    /** The field table's trees after the change and the walk up. */
    twostate lemma ReplacedTree(c: Cut)
      requires IsMessage() && c.lo <= c.hi <= |old(objects)|
      requires objects == old(objects)[..c.lo] + (if c.ob == null then [] else [c.ob]) + old(objects)[c.hi..]
      requires forall k | k in objects :: k.tree == old(k.tree)
      requires old(Mirrored()) && Mirrored()
      ensures |old(tree.kids)| == |old(objects)|
      ensures tree.kids == old(tree.kids)[..c.lo] + (if c.ob == null then [] else [old(c.ob.tree)]) + old(tree.kids)[c.hi..]
    {
    }

    /** Makes the change without marking anything. */
    method Change(c: Cut)
      requires this in c.S && IsMessage() && FitsAt(c) && Steady(c.S)
      modifies c.S`parent, this`objects, c.S`tree
      ensures Steady(c.S) && parent == old(parent) && UpLine(c.S, this) == old(UpLine(c.S, this))
      ensures c.lo <= c.hi <= |old(objects)| == |old(tree.kids)| && Spliced(c)
      ensures forall o | o in c.S && o !in UpLine(c.S, this) :: o.tree == old(o.tree)
      ensures tree.Message? && tree.kids == old(tree.kids)[..c.lo] + (if c.ob == null then [] else [old(c.ob.tree)]) + old(tree.kids)[c.hi..]
    {
      assert Mirrored();
      ChangeTable(c);
      assert Mirrored();
      hide Linked, FitsAt, Mirrored, KidsLinked, Steady, Above;
      ReplacedTree(c);
    }

    method ChangeTable(c: Cut)
      requires this in c.S && IsMessage() && FitsAt(c) && Steady(c.S)
      modifies c.S`parent, this`objects, c.S`tree
      ensures Steady(c.S) && parent == old(parent) && UpLine(c.S, this) == old(UpLine(c.S, this))
      ensures c.lo <= c.hi <= |old(objects)| && Spliced(c)
      ensures forall o | o in c.S && o !in UpLine(c.S, this) :: o.tree == old(o.tree)
      ensures forall k | k in objects :: k in c.S && k.tree == old(k.tree)
    {
      hide Linked, FitsAt, Mirrored;
      SpliceLinked(c);
      RefreshUp(c.S);
      assert KidsLinked(c.S) by { LinksSplit(c.S); }
      KidsOff(c.S);
    }

    /** No child is on the line up from here. */
    lemma KidsOff(S: set<Obj>)
      requires this in S && KidsLinked(S)
      ensures forall k | k in objects :: k in S && k !in UpLine(S, this)
    {
      KidsAreBelow(S);
    }

    /** Makes the change and marks the path to the root. */
    method ReplaceMarked(c: Cut)
      requires this in c.S && IsMessage() && FitsAt(c) && Valid(c.S)
      modifies c.S`parent, this`objects, c.S`isDirty, c.S`tree
      ensures Valid(c.S) && isDirty && parent == old(parent) && UpLine(c.S, this) == old(UpLine(c.S, this))
      ensures c.lo <= c.hi <= |old(objects)| && Spliced(c) && OnlyAbove(c.S, this)
      ensures forall k | k in objects :: k in c.S && k.tree == old(k.tree)
    {
      hide Linked, FitsAt, Mirrored;
      SpliceLinked(c);
      MarkDirty(c.S);
      assert KidsLinked(c.S) by { LinksSplit(c.S); }
      hide Spliced, OnlyAbove;
      KidsKept(c.S);
    }

    /** Makes the change and marks the path to the root. */
    method Replace(c: Cut)
      requires this in c.S && IsMessage() && FitsAt(c) && Valid(c.S)
      modifies c.S`parent, this`objects, c.S`isDirty, c.S`tree
      ensures Valid(c.S) && isDirty && parent == old(parent) && UpLine(c.S, this) == old(UpLine(c.S, this))
      ensures c.lo <= c.hi <= |old(objects)| && Spliced(c) && OnlyAbove(c.S, this)
      ensures |old(tree.kids)| == |old(objects)|
      ensures tree.kids == old(tree.kids)[..c.lo] + (if c.ob == null then [] else [old(c.ob.tree)]) + old(tree.kids)[c.hi..]
    {
      assert Mirrored();
      ReplaceMarked(c);
      assert Mirrored();
      hide Linked, FitsAt, Mirrored, KidsLinked, Valid, OnlyAbove;
      ReplacedTree(c);
    }

    /** The order ob's place needs. */
    ghost predicate Place(lo: nat, hi: nat, ob: Obj)
      reads this`objects
    {
      && lo <= hi <= |objects|
      && (forall i :: 0 <= i < lo ==> objects[i].fieldNumber <= ob.fieldNumber)
      && (forall i :: hi <= i < |objects| ==> ob.fieldNumber <= objects[i].fieldNumber)
    }

    /** Puts ob, with its own objects U, in place of the objects at [lo, hi). */
    method Attach(lo: nat, hi: nat, ob: Obj, ghost S: set<Obj>, ghost U: set<Obj>)
      requires this in S && IsMessage() && Valid(S) && Place(lo, hi, ob)
      requires ob in U && ob.parent == null && Valid(U) && S !! U && !ob.kind.RootMessage?
      modifies U`depth, (S + U)`parent, this`objects, (S + U)`isDirty, (S + U)`tree
      ensures Valid(S + U) && isDirty && parent == old(parent) && OnlyAbove(S + U, this)
      ensures lo <= hi <= |old(objects)| == |old(tree.kids)|
      ensures tree.kids == old(tree.kids)[..lo] + [old(ob.tree)] + old(tree.kids)[hi..]
      ensures objects == old(objects)[..lo] + [ob] + old(objects)[hi..]
      ensures UpLine(S + U, this) == old(UpLine(S, this))
    {
      hide Linked, Mirrored, DirtyUp;
      Lower(U, depth + 1);
      UpLineJoin(S, U, this);
      Join(S, U);
      ghost var c := Cut(lo, hi, ob, S + U);
      assert FitsAt(c);
      hide Valid, FitsAt, Place, Above;
      Replace(Cut(lo, hi, ob, S + U));
    }

    /** Where a vector stands among the objects is where it stands among their trees. */
    lemma TableRange(f: uint64, lo: nat, hi: nat, S: set<Obj>)
      requires this in S && IsMessage() && Steady(S) && lo <= hi <= |objects|
      requires forall i :: 0 <= i < lo ==> objects[i].fieldNumber < f
      requires forall i :: lo <= i < hi ==> objects[i].fieldNumber == f
      requires forall i :: hi <= i < |objects| ==> f < objects[i].fieldNumber
      ensures Range(tree.kids, f, lo, hi) && |tree.kids| == |objects| && tree.unique == fieldsUnique
    {
      assert Linked(S) && Mirrored();
      assert forall i :: 0 <= i < |objects| ==> objects[i].Mirrored() && tree.kids[i].fn == objects[i].fieldNumber;
    }

    /** Where a field's vector stands, in the heap and in the value. */
    method Locate(f: uint64, ghost S: set<Obj>) returns (lo: nat, hi: nat)
      requires this in S && Steady(S) && IsMessage()
      ensures Range(tree.kids, f, lo, hi) && tree.Message? && |tree.kids| == |objects|
      ensures forall i :: 0 <= i < lo ==> objects[i].fieldNumber < f
      ensures forall i :: lo <= i < hi ==> objects[i].fieldNumber == f
      ensures forall i :: hi <= i < |objects| ==> f < objects[i].fieldNumber
    {
      assert Mirrored() && InOrder(objects) by {
        LinksSplit(S);
      }
      lo, hi := FieldRange(f);
      TableRange(f, lo, hi, S);
    }

    /** AddObject: a root message cannot be embedded; a unique field keeps only ob, a repeated
        one grows at its end.  ob comes with its own objects U. */
    method AddObject(ob: Obj, ghost S: set<Obj>, ghost U: set<Obj>) returns (code: int)
      requires this in S && IsMessage() && Valid(S)
      requires ob in U && ob.parent == null && Valid(U) && S !! U
      modifies U`depth, (S + U)`parent, this`objects, (S + U)`isDirty, (S + U)`tree
      ensures code == if ob.kind.RootMessage? then 5 else 0
      ensures code != 0 ==> unchanged(S) && unchanged(U)
      ensures code == 0 ==> Valid(S + U) && isDirty && OnlyAbove(S + U, this)
      ensures parent == old(parent) && (code == 0 ==> UpLine(S + U, this) == old(UpLine(S, this)))
      ensures code == 0 ==> tree.kids == Add(old(tree.kids), fieldsUnique, old(ob.tree))
    {
      if ob.kind.RootMessage? {
        return CANT_ADD_ROOT_MSG;
      }
      hide *;
      var lo, hi := NewPlace(ob, S, U);
      Attach(lo, hi, ob, S, U);
      code := 0;
    }

    /** Which objects a new one replaces: a unique field's, or none at the end of the vector. */
    method NewPlace(ob: Obj, ghost S: set<Obj>, ghost U: set<Obj>) returns (lo: nat, hi: nat)
      requires this in S && IsMessage() && Valid(S) && ob in U && Valid(U)
      ensures Place(lo, hi, ob) && tree.Message? && |tree.kids| == |objects|
      ensures Add(tree.kids, fieldsUnique, ob.tree) == tree.kids[..lo] + [ob.tree] + tree.kids[hi..]
    {
      assert ob.Mirrored();
      ValidIsSteady(S);
      lo, hi := Locate(ob.fieldNumber, S);
      AddRange(tree.kids, fieldsUnique, ob.tree, lo, hi);
      if ob.fieldNumber !in fieldsUnique {
        lo := hi;
      }
    }

    // ----- setters -----

    lemma LeafTree()
      requires Mirrored() && !IsMessage()
      ensures tree == Value()
    {
    }

    /** SetValue of a varint or 64-bit object. */
    method SetValue(v: uint64, ghost S: set<Obj>)
      requires this in S && Valid(S) && (kind.VarIntKind? || kind.Fixed64Kind?)
      modifies this`value, S`isDirty, S`tree
      ensures Valid(S) && OnlyAbove(S, this)
      ensures tree == if kind.VarIntKind? then VarIntField(fieldNumber, v, true) else Fixed64(fieldNumber, v, true)
    {
      value := v;
      assert forall o | o in S :: o.DirtyUp();
      hide Linked, Above, DirtyUp, Mirrored;
      MarkDirty(S);
      LeafTree();
    }

    method SetValue32(v: uint32, ghost S: set<Obj>)
      requires this in S && Valid(S) && kind.Fixed32Kind?
      modifies this`value32, S`isDirty, S`tree
      ensures Valid(S) && OnlyAbove(S, this)
      ensures tree == Fixed32(fieldNumber, v, true)
    {
      value32 := v;
      assert forall o | o in S :: o.DirtyUp();
      hide Linked, Above, DirtyUp, Mirrored;
      MarkDirty(S);
      LeafTree();
    }

    /** SetContent of a string or byte array object. */
    method SetContent(c: seq<byte>, ghost S: set<Obj>)
      requires this in S && Valid(S) && (kind.StringKind? || kind.BytesKind?)
      modifies this`content, S`isDirty, S`tree
      ensures Valid(S) && OnlyAbove(S, this)
      ensures tree == if kind.StringKind? then Text(fieldNumber, c, true) else Blob(fieldNumber, c, true)
    {
      content := c;
      assert forall o | o in S :: o.DirtyUp();
      hide Linked, Above, DirtyUp, Mirrored;
      MarkDirty(S);
      LeafTree();
    }

    /** Declares a field unique; that alone makes the message dirty. */
    method SetFieldUnique(f: uint64, ghost S: set<Obj>)
      requires this in S && Valid(S) && IsMessage()
      modifies this`fieldsUnique, S`isDirty, S`tree
      ensures Valid(S) && OnlyAbove(S, this)
      ensures tree == Message(fieldNumber, old(tree.kids), old(tree.unique) + {f}, true)
    {
      assert Mirrored() && KidsLinked(S) by {
        LinksSplit(S);
      }
      fieldsUnique := fieldsUnique + {f};
      hide Linked, Above, DirtyUp;
      MarkDirty(S);
      assert Mirrored();
      KidsKept(S);
      assert tree.kids == old(tree.kids);
    }

    // ----- field access -----

    /** EraseField: destroys a field's objects; false when there are none. */
    method EraseField(f: uint64, ghost S: set<Obj>) returns (found: bool)
      requires this in S && Valid(S) && IsMessage()
      modifies S`parent, this`objects, S`isDirty, S`tree
      ensures Valid(S)
      ensures found <==> At(old(tree.kids), f) != []
      ensures found ==> isDirty && OnlyAbove(S, this) && tree.kids == Without(old(tree.kids), f)
      ensures !found ==> unchanged(S)
      ensures parent == old(parent) && UpLine(S, this) == old(UpLine(S, this))
    {
      hide Valid, Above, UpLine, At, Without, Range, Linked, Mirrored, DirtyUp, InOrder;
      ValidIsSteady(S);
      var lo, hi := Locate(f, S);
      ErasedIs(tree.kids, f, lo, hi);
      found := lo < hi;
      if found {
        EraseRange(lo, hi, S);
      }
    }

    static lemma ErasedIs(kids: seq<Node>, f: uint64, lo: nat, hi: nat)
      requires Range(kids, f, lo, hi)
      ensures lo <= hi <= |kids| && (lo < hi <==> At(kids, f) != []) && Without(kids, f) == kids[..lo] + kids[hi..]
    {
      AtRange(kids, f, lo, hi);
      WithoutRange(kids, f, lo, hi);
    }

    method EraseRange(lo: nat, hi: nat, ghost S: set<Obj>)
      requires this in S && Valid(S) && IsMessage() && lo <= hi <= |objects|
      modifies S`parent, this`objects, S`isDirty, S`tree
      ensures Valid(S) && isDirty && OnlyAbove(S, this) && |old(tree.kids)| == |old(objects)|
      ensures tree.kids == old(tree.kids)[..lo] + old(tree.kids)[hi..]
      ensures parent == old(parent) && UpLine(S, this) == old(UpLine(S, this))
    {
      ghost var c := Cut(lo, hi, null, S);
      assert FitsAt(c);
      hide *;
      Replace(Cut(lo, hi, null, S));
      assert old(tree.kids)[..lo] + [] == old(tree.kids)[..lo];
    }

    /** GetFieldObject: the last object of a field. */
    method GetFieldObject(f: uint64, ghost S: set<Obj>) returns (r: Obj?)
      requires this in S && Valid(S) && IsMessage()
      ensures r == null <==> At(tree.kids, f) == []
      ensures r != null ==> r in S && r in objects && r.fieldNumber == f
      ensures r != null ==> r.tree == At(tree.kids, f)[|At(tree.kids, f)| - 1]
    {
      hide *;
      ValidIsSteady(S);
      var lo, hi := Locate(f, S);
      LastStored(f, lo, hi, S);
      if lo == hi {
        return null;
      }
      return objects[hi - 1];
    }

    /** The last object of a vector. */
    lemma LastStored(f: uint64, lo: nat, hi: nat, S: set<Obj>)
      requires this in S && Valid(S) && IsMessage() && tree.Message? && |tree.kids| == |objects| && Range(tree.kids, f, lo, hi)
      ensures At(tree.kids, f) == [] <==> lo == hi
      ensures lo <= hi <= |objects|
      ensures lo < hi ==>
        && objects[hi - 1] in S && objects[hi - 1] in objects && objects[hi - 1].fieldNumber == f
        && objects[hi - 1].tree == At(tree.kids, f)[|At(tree.kids, f)| - 1]
    {
      AtRange(tree.kids, f, lo, hi);
      if lo < hi {
        Stored(hi - 1, S);
      }
    }

    lemma Stored(i: nat, S: set<Obj>)
      requires this in S && Valid(S) && i < |objects|
      ensures objects[i] in S && tree.Message? && |tree.kids| == |objects| && tree.kids[i] == objects[i].tree
      ensures objects[i].fieldNumber == tree.kids[i].fn
    {
      assert Linked(S) && Mirrored() && objects[i].Mirrored();
    }

    // ----- MarkClean -----

    /** In the middle of a MarkClean only the objects above this one may be out of date. */
    ghost predicate Settled(S: set<Obj>, strictly: bool)
      reads S
      requires this in S
    {
      forall o | o in S :: o.Linked(S) && ((Above(S, o, this) && (strictly ==> o != this)) || o.Mirrored())
    }

    /** Outside this object's subtree every tree is as it was. */
    ghost predicate AsBefore(S: set<Obj>, trees: map<Obj, Node>)
      reads S
    {
      forall o | o in S && !Above(S, this, o) :: o in trees && o.tree == trees[o]
    }

    /** MarkClean: the children first, then the object itself. */
    method MarkClean(ghost S: set<Obj>)
      requires this in S && (forall o | o in S :: o.DirtyUp()) && Settled(S, true)
      modifies S`isDirty, S`tree
      ensures (forall o | o in S :: o.DirtyUp()) && Settled(S, true)
      ensures AsBefore(S, old(map o | o in S :: o.tree))
      ensures tree == Clean(old(tree))
      decreases tree, 2
    {
      assert Mirrored() && KidsLinked(S) by {
        assert Linked(S);
      }
      hide Settled, Linked, Mirrored, KidsLinked, Cleaning, DirtyUp, Clean, Above, AsBefore;
      CleanKids(S);
      CleanSelf(S, old(map o | o in S :: o.tree));
    }

    /** Cleaning the root leaves the whole heap valid. */
    lemma CleanRoot(S: set<Obj>)
      requires this in S && parent == null && (forall o | o in S :: o.DirtyUp()) && Settled(S, true)
      ensures Valid(S)
    {
    }

    /** The children are clean and the tree is still the one from before. */
    ghost predicate Cleaning()
      reads `tree, `isDirty, `value, `value32, `content, `objects, `fieldsUnique, objects`tree
    {
      && tree.fn == fieldNumber
      && match kind
         case StringKind => tree.Text? && tree.content == content
         case BytesKind => tree.Blob? && tree.content == content
         case VarIntKind => tree.VarIntField? && tree.value == value
         case Fixed64Kind => tree.Fixed64? && tree.value == value
         case Fixed32Kind => tree.Fixed32? && tree.value32 == value32
         case _ =>
           && tree.Message? && tree.unique == fieldsUnique && |tree.kids| == |objects|
           && forall i :: 0 <= i < |objects| ==> objects[i].tree == Clean(tree.kids[i])
    }

    method CleanKids(ghost S: set<Obj>)
      requires this in S && (forall o | o in S :: o.DirtyUp()) && Settled(S, true) && Mirrored()
      modifies S`isDirty, S`tree
      ensures (forall o | o in S :: o.DirtyUp()) && Settled(S, false)
      ensures AsBefore(S, old(map o | o in S :: o.tree))
      ensures tree == old(tree) && Cleaning() && forall k | k in objects :: !k.isDirty
      decreases tree, 1
    {
      hide *;
      SettledWeakly(S);
      ghost var trees := map o | o in S :: o.tree;
      AsNow(S);
      for i := 0 to |objects|
        invariant (forall o | o in S :: o.DirtyUp()) && Settled(S, false)
        invariant tree == old(tree) && AsBefore(S, trees)
        invariant forall j :: 0 <= j < i ==> objects[j].tree == Clean(trees[objects[j]])
        invariant forall j :: i <= j < |objects| ==> objects[j].tree == trees[objects[j]]
      {
        CleanKid(i, S, trees);
      }
      CleanedKids();
      KidsNotDirty(S);
    }

    lemma AsNow(S: set<Obj>)
      ensures AsBefore(S, map o | o in S :: o.tree)
    {
    }

    lemma KidsNotDirty(S: set<Obj>)
      requires this in S && Settled(S, false) && Cleaning()
      ensures forall k | k in objects :: !k.isDirty
    {
      assert Linked(S);
      KidsAreBelow(S);
    }

    lemma SettledWeakly(S: set<Obj>)
      requires this in S && Settled(S, true) && Mirrored()
      ensures Settled(S, false)
      ensures forall k | k in objects :: k in S
      ensures IsMessage() ==> tree.Message? && |tree.kids| == |objects|
      ensures !IsMessage() ==> objects == []
      ensures forall i :: 0 <= i < |objects| ==> tree.kids[i] == objects[i].tree
    {
      assert Linked(S);
    }

    twostate lemma CleanedKids()
      requires old(Mirrored()) == true && tree == old(tree)
      requires unchanged(`value, `value32, `content, `objects, `fieldsUnique)
      requires forall k | k in objects :: k.tree == Clean(old(k.tree))
      ensures Cleaning()
    {
    }

    method CleanKid(i: nat, ghost S: set<Obj>, ghost trees: map<Obj, Node>)
      requires this in S && (forall o | o in S :: o.DirtyUp()) && Settled(S, false) && AsBefore(S, trees)
      requires tree.Message? && |tree.kids| == |objects| && i < |objects|  && tree.kids[i] == objects[i].tree
      modifies S`isDirty, S`tree
      ensures (forall o | o in S :: o.DirtyUp()) && Settled(S, false) && AsBefore(S, trees)
      ensures tree == old(tree) && objects[i].tree == Clean(old(objects[i].tree))
      ensures forall j :: 0 <= j < |objects| && j != i ==> objects[j].tree == old(objects[j].tree)
      decreases tree, 0
    {
      hide *;
      var k := objects[i];
      ghost var mid := map o | o in S :: o.tree;
      AgreeBefore(S, trees);
      KidReady(i, S);
      k.MarkClean(S);
      KidAsBefore(k, S, mid);
      KidSettled(k, S);
      TreesAsBefore(S, mid, trees);
    }

    /** The trees outside this object's subtree, in two snapshots. */
    ghost predicate AgreeOutside(S: set<Obj>, mid: map<Obj, Node>, trees: map<Obj, Node>)
      reads S`parent, S`depth
      requires this in S
    {
      forall o | o in S && !Above(S, this, o) :: o in mid && o in trees && mid[o] == trees[o]
    }

    lemma AgreeBefore(S: set<Obj>, trees: map<Obj, Node>)
      requires this in S && AsBefore(S, trees)
      ensures AgreeOutside(S, map o | o in S :: o.tree, trees)
    {
    }

    lemma KidReady(i: nat, S: set<Obj>)
      requires this in S && Settled(S, false) && i < |objects|
      ensures objects[i] in S && objects[i].parent == this && depth < objects[i].depth && KidsLinked(S)
      ensures objects[i].Settled(S, true)
      ensures forall j :: 0 <= j < |objects| && j != i ==> objects[j] != objects[i]
    {
      assert KidsLinked(S) && InOrder(objects) by {
        assert Linked(S);
      }
      KidsAreBelow(S);
      SettledKid(objects[i], S);
    }

    /** What is the same outside a child is the same outside this object, and in it and its other
        children. */
    lemma KidAsBefore(k: Obj, S: set<Obj>, mid: map<Obj, Node>)
      requires this in S && k in objects && KidsLinked(S) && k.AsBefore(S, mid)
      ensures AsBefore(S, mid)
      ensures this in mid && tree == mid[this]
      ensures forall j | j in objects && j != k :: j in mid && j.tree == mid[j]
    {
      KidsAreBelow(S);
      BelowKid(k, S);
    }

    lemma TreesAsBefore(S: set<Obj>, mid: map<Obj, Node>, trees: map<Obj, Node>)
      requires this in S && AsBefore(S, mid) && AgreeOutside(S, mid, trees)
      ensures AsBefore(S, trees)
    {
    }

    /** No child is above this object or above another child. */
    lemma KidsAreBelow(S: set<Obj>)
      requires this in S && KidsLinked(S)
      ensures forall k | k in objects :: !Above(S, k, this)
      ensures forall j, k | j in objects && k in objects && j != k :: !Above(S, j, k)
    {
      forall k | k in objects
        ensures !Above(S, k, this)
      {
        NotAbove(S, k, this);
      }
    }

    /** What is below a child is below this object. */
    lemma BelowKid(k: Obj, S: set<Obj>)
      requires this in S && k in S && k.parent == this && depth < k.depth
      ensures forall o | o in S && Above(S, k, o) :: Above(S, this, o)
    {
      forall o | o in S && Above(S, k, o)
        ensures Above(S, this, o)
      {
        AboveTransitive(S, this, k, o);
      }
    }

    lemma SettledKid(k: Obj, S: set<Obj>)
      requires this in S && k in S && k.parent == this && depth < k.depth && Settled(S, false)
      requires !Above(S, k, this)
      ensures k.Settled(S, true)
    {
    }

    lemma KidSettled(k: Obj, S: set<Obj>)
      requires this in S && k in S && k.parent == this && depth < k.depth && k.Settled(S, true)
      ensures Settled(S, false)
    {
    }

    method CleanSelf(ghost S: set<Obj>, ghost trees: map<Obj, Node>)
      requires this in S && (forall o | o in S :: o.DirtyUp()) && Settled(S, false) && AsBefore(S, trees)
      requires KidsLinked(S) && Cleaning() && forall k | k in objects :: !k.isDirty
      modifies this`isDirty, this`tree
      ensures (forall o | o in S :: o.DirtyUp()) && Settled(S, true) && AsBefore(S, trees)
      ensures tree == Clean(old(tree))
    {
      SelfCleanable(S);
      NotListed(S);
      hide KidsLinked, Cleaning, Linked, Clean, Above, Mirrored;
      CleanOwn();
    }

    lemma SelfCleanable(S: set<Obj>)
      requires this in S && KidsLinked(S)
      ensures Above(S, this, this) && this !in objects
    {
    }

    lemma NotListed(S: set<Obj>)
      requires this in S && Settled(S, false)
      ensures forall o | o in S && o != this && !Above(S, o, this) :: this !in o.objects && o.Mirrored()
    {
      forall o | o in S && o != this && !Above(S, o, this)
        ensures this !in o.objects && o.Mirrored()
      {
        assert Linked(S) && o.Linked(S);
        assert parent != null ==> Above(S, parent, parent);
        NotMyChild(o, S);
      }
    }

    method CleanOwn()
      requires Cleaning() && this !in objects
      modifies this`isDirty, this`tree
      ensures !isDirty && tree == Clean(old(tree)) && Mirrored()
    {
      isDirty := false;
      Refresh();
    }
  }

  /** Moves a whole heap of objects down, away from another root. */
  ghost method Lower(U: set<Obj>, levels: nat)
    requires Valid(U)
    modifies U`depth
    ensures Valid(U)
    ensures forall o | o in U :: o.depth == old(o.depth) + levels
  {
    forall o | o in U {
      o.depth := o.depth + levels;
    }
  }

  /** Two separate heaps together are one. */
  lemma Join(S: set<Obj>, U: set<Obj>)
    requires Valid(S) && Valid(U)
    ensures Valid(S + U)
  {
    forall o | o in S + U
      ensures o.Linked(S + U) && o.Mirrored() && o.DirtyUp()
    {
      if o in S {
        assert o.Linked(S);
      } else {
        assert o.Linked(U);
      }
    }
  }

  lemma {:induction false} AboveTransitive(S: set<Obj>, a: Obj, b: Obj, d: Obj)
    requires b in S && d in S && Above(S, a, b) && Above(S, b, d)
    ensures Above(S, a, d)
    decreases d.depth
  {
    if b != d {
      AboveTransitive(S, a, b, d.parent);
    }
  }

  /** Nothing at the same depth or below is above d, but d itself. */
  lemma {:induction false} NotAbove(S: set<Obj>, a: Obj, d: Obj)
    requires d in S && a != d && d.depth <= a.depth
    ensures !Above(S, a, d)
    decreases d.depth
  {
    if d.parent != null && d.parent in S && d.parent.depth < d.depth {
      NotAbove(S, a, d.parent);
    }
  }

  ghost predicate Valid(S: set<Obj>)
    reads S
  {
    forall o | o in S :: o.Linked(S) && o.Mirrored() && o.DirtyUp()
  }

  /** Links and trees are right, whatever the dirty flags say. */
  ghost predicate Steady(S: set<Obj>)
    reads S
  {
    forall o | o in S :: o.Linked(S) && o.Mirrored()
  }

  lemma ValidIsSteady(S: set<Obj>)
    requires Valid(S)
    ensures Steady(S)
  {
  }

  lemma LinksSplit(S: set<Obj>)
    requires forall o | o in S :: o.Linked(S)
    ensures forall o | o in S :: o.KidsLinked(S) && o.ParentLinked(S)
  {
  }

  /** a is d or one of its ancestors. */
  ghost predicate Above(S: set<Obj>, a: Obj, d: Obj)
    reads S`parent, S`depth
    requires d in S
    decreases d.depth
  {
    a == d || (d.parent != null && d.parent in S && d.parent.depth < d.depth && Above(S, a, d.parent))
  }

  /** d and its ancestors. */
  ghost function UpLine(S: set<Obj>, d: Obj): set<Obj>
    reads S`parent, S`depth
    requires d in S
  {
    set o | o in S && Above(S, o, d)
  }

  /** Joining another heap to S does not lengthen the line above an object of S. */
  lemma {:induction false} UpLineJoin(S: set<Obj>, U: set<Obj>, d: Obj)
    requires Valid(S) && d in S && S !! U
    ensures UpLine(S + U, d) == UpLine(S, d)
    decreases d.depth
  {
    assert d.Linked(S);
    if d.parent != null {
      UpLineJoin(S, U, d.parent);
      UpLineStep(S, d);
      UpLineStep(S + U, d);
    }
  }

  lemma UpLineStep(S: set<Obj>, d: Obj)
    requires d in S && d.parent != null && d.parent in S && d.parent.depth < d.depth
    ensures UpLine(S, d) == UpLine(S, d.parent) + {d}
  {
  }

  /** Only d and its ancestors changed: all of them are dirty now. */
  twostate predicate OnlyAbove(S: set<Obj>, d: Obj)
    reads S
    requires d in S
  {
    forall o | o in S ::
      if Above(S, o, d) then o.isDirty else o.isDirty == old(o.isDirty) && o.tree == old(o.tree)
  }
}
