/** The value of a Protobuf object tree and its wire form: what the encoders append and what
    the size queries answer.  A message's fields are kept in the order its std::map iterates:
    ascending field number, insertion order inside one field. */
module ProtoTree {
  import opened Bytes
  import opened VarInt

  const TAG_VARINT := 0
  const TAG_I64 := 1
  const TAG_LEN := 2
  const TAG_I32 := 5

  datatype Node =
    | VarIntField(fn: uint64, value: uint64, dirty: bool)
    | Fixed64(fn: uint64, value: uint64, dirty: bool)
    | Fixed32(fn: uint64, value32: uint32, dirty: bool)
    | Text(fn: uint64, content: seq<byte>, dirty: bool)
    | Blob(fn: uint64, content: seq<byte>, dirty: bool)
    | Message(fn: uint64, kids: seq<Node>, unique: set<uint64>, dirty: bool)
  {
    function Tag(): (t: int)
      ensures 0 <= t < 8
    {
      match this
      case VarIntField(_, _, _) => TAG_VARINT
      case Fixed64(_, _, _) => TAG_I64
      case Fixed32(_, _, _) => TAG_I32
      case _ => TAG_LEN
    }
  }

  /** fieldNumber << 3 | tag, in 64 bits. */
  function Key(fn: uint64, tag: int): (k: uint64)
    requires 0 <= tag < 8
  {
    (fn * 8 + tag) % TWO_64
  }

  /** Field numbers below 2^61 survive being packed with a tag. */
  predicate Packable(fn: uint64) {
    fn < 0x2000_0000_0000_0000
  }

  lemma KeyUnpacks(fn: uint64, tag: int)
    requires 0 <= tag < 8 && Packable(fn)
    ensures Key(fn, tag) / 8 == fn && Key(fn, tag) % 8 == tag
  {
    assert Key(fn, tag) == fn * 8 + tag;
  }

  lemma KeyRepacks(k: uint64)
    ensures Packable(k / 8) && Key(k / 8, k % 8) == k
  {
  }

  // ----- the size queries -----

  function PayloadSize(n: Node): nat {
    var header := |Digits(Key(n.fn, n.Tag()))|;
    match n
    case VarIntField(_, v, _) => header + |Digits(v)|
    case Fixed64(_, _, _) => header + 8
    case Fixed32(_, _, _) => header + 4
    case Text(_, c, _) => header + |Digits(|c|)| + |c|
    case Blob(_, c, _) => header + |Digits(|c|)| + |c|
    case Message(_, kids, _, _) =>
      var embedded := PayloadSizeAll(kids);
      header + |Digits(embedded)| + embedded
  }

  function PayloadSizeAll(kids: seq<Node>): nat {
    if kids == [] then 0 else PayloadSize(kids[0]) + PayloadSizeAll(kids[1..])
  }

  function DirtyPayloadSize(n: Node): nat {
    match n
    case Message(_, kids, _, _) =>
      var embedded := DirtyPayloadSizeAll(kids);
      |Digits(Key(n.fn, TAG_LEN))| + |Digits(embedded)| + embedded
    case _ => PayloadSize(n)
  }

  function DirtyPayloadSizeAll(kids: seq<Node>): nat {
    if kids == [] then 0
    else (if kids[0].dirty then DirtyPayloadSize(kids[0]) else 0) + DirtyPayloadSizeAll(kids[1..])
  }

  // ----- the encoders -----

  function Encode(n: Node): seq<byte> {
    var header := Digits(Key(n.fn, n.Tag()));
    match n
    case VarIntField(_, v, _) => header + Digits(v)
    case Fixed64(_, v, _) => header + LittleEndian(v, 8)
    case Fixed32(_, v, _) => header + LittleEndian(v, 4)
    case Text(_, c, _) => header + Digits(|c|) + c
    case Blob(_, c, _) => header + Digits(|c|) + c
    case Message(_, kids, _, _) => header + Digits(PayloadSizeAll(kids)) + EncodeAll(kids)
  }

  function EncodeAll(kids: seq<Node>): seq<byte> {
    if kids == [] then [] else Encode(kids[0]) + EncodeAll(kids[1..])
  }

  function EncodeDirty(n: Node): seq<byte> {
    match n
    case Message(_, kids, _, _) =>
      Digits(Key(n.fn, TAG_LEN)) + Digits(DirtyPayloadSizeAll(kids)) + EncodeDirtyAll(kids)
    case _ => Encode(n)
  }

  function EncodeDirtyAll(kids: seq<Node>): seq<byte> {
    if kids == [] then []
    else (if kids[0].dirty then EncodeDirty(kids[0]) else []) + EncodeDirtyAll(kids[1..])
  }

  // ----- every length prefix is exact -----

  lemma {:induction false} EncodedSize(n: Node)
    ensures |Encode(n)| == PayloadSize(n)
    decreases n
  {
    if n.Message? {
      EncodedSizeAll(n.kids);
    }
  }

  /** Encoding a message's fields appends exactly the number of bytes its size query answers. */
  lemma {:induction false} EncodedSizeAll(kids: seq<Node>)
    ensures |EncodeAll(kids)| == PayloadSizeAll(kids)
    decreases kids
  {
    if kids != [] {
      EncodedSize(kids[0]);
      EncodedSizeAll(kids[1..]);
    }
  }

  // ----- pruning: the tree a delta carries -----

  function Prune(n: Node): (r: Node)
    ensures r.fn == n.fn && r.dirty == n.dirty && r.Tag() == n.Tag()
  {
    match n
    case Message(fn, kids, unique, dirty) => Message(fn, PruneAll(kids), unique, dirty)
    case _ => n
  }

  /** Drops every clean object, at every level. */
  function PruneAll(kids: seq<Node>): seq<Node> {
    if kids == [] then []
    else (if kids[0].dirty then [Prune(kids[0])] else []) + PruneAll(kids[1..])
  }

  lemma {:induction false} DirtyIsPruned(n: Node)
    ensures EncodeDirty(n) == Encode(Prune(n))
    ensures DirtyPayloadSize(n) == PayloadSize(Prune(n))
    decreases n
  {
    if n.Message? {
      DirtyIsPrunedAll(n.kids);
    }
  }

  /** Encoding only what is dirty is encoding the tree pruned to its dirty objects, and the
      dirty size query answers the pruned size. */
  lemma {:induction false} DirtyIsPrunedAll(kids: seq<Node>)
    ensures EncodeDirtyAll(kids) == EncodeAll(PruneAll(kids))
    ensures DirtyPayloadSizeAll(kids) == PayloadSizeAll(PruneAll(kids))
    decreases kids
  {
    if kids != [] {
      DirtyIsPrunedAll(kids[1..]);
      if kids[0].dirty {
        DirtyIsPruned(kids[0]);
        var p := PruneAll(kids);
        assert p[0] == Prune(kids[0]) && p[1..] == PruneAll(kids[1..]);
      } else {
        assert PruneAll(kids) == PruneAll(kids[1..]);
      }
    }
  }

  /** Each encoder appends exactly as many bytes as its size query answers, dirty or whole. */
  lemma EncodedSizesExact(kids: seq<Node>)
    ensures |EncodeAll(kids)| == PayloadSizeAll(kids)
    ensures |EncodeDirtyAll(kids)| == DirtyPayloadSizeAll(kids)
  {
    EncodedSizeAll(kids);
    EncodedSizeAll(PruneAll(kids));
    DirtyIsPrunedAll(kids);
  }

  // ----- dirtiness is upward closed -----

  /** A dirty object has only dirty ancestors. */
  predicate UpClosed(n: Node) {
    n.Message? ==> forall k | k in n.kids :: (k.dirty ==> n.dirty) && UpClosed(k)
  }

  predicate UpClosedAll(kids: seq<Node>) {
    forall k | k in kids :: UpClosed(k)
  }

  /** A leaf with the child indices that lead to it. */
  datatype Located = Located(path: seq<uint64>, leaf: Node)

  function Under(fn: uint64, ls: seq<Located>): (r: seq<Located>)
    ensures |r| == |ls|
  {
    if ls == [] then [] else [Located([fn] + ls[0].path, ls[0].leaf)] + Under(fn, ls[1..])
  }

  /** Every dirty leaf below a list of fields, with its field path, in encoding order. */
  function DirtyLeaves(kids: seq<Node>): seq<Located> {
    if kids == [] then []
    else
      (match kids[0]
       case Message(fn, sub, _, _) => Under(fn, DirtyLeaves(sub))
       case n => if n.dirty then [Located([n.fn], n)] else [])
      + DirtyLeaves(kids[1..])
  }

  /** Every leaf, dirty or clean. */
  function Leaves(kids: seq<Node>): seq<Located> {
    if kids == [] then []
    else
      (match kids[0]
       case Message(fn, sub, _, _) => Under(fn, Leaves(sub))
       case n => [Located([n.fn], n)])
      + Leaves(kids[1..])
  }

  lemma {:induction false} CleanHasNoDirtyLeaves(kids: seq<Node>)
    requires UpClosedAll(kids) && forall k | k in kids :: !k.dirty
    ensures DirtyLeaves(kids) == []
    decreases kids
  {
    if kids != [] {
      assert UpClosed(kids[0]) && !kids[0].dirty;
      if kids[0].Message? {
        CleanHasNoDirtyLeaves(kids[0].kids);
      }
      CleanHasNoDirtyLeaves(kids[1..]);
    }
  }

  lemma DirtyLeavesStep(n: Node, rest: seq<Node>)
    requires UpClosed(n) && !n.dirty
    ensures DirtyLeaves([n] + rest) == DirtyLeaves(rest)
  {
    assert ([n] + rest)[1..] == rest;
    if n.Message? {
      CleanHasNoDirtyLeaves(n.kids);
    }
  }

  /** When dirtiness is upward closed, the pruned tree misses no dirty leaf, and carries no
      clean one. */
  lemma {:induction false} PruneKeepsDirtyLeaves(kids: seq<Node>)
    requires UpClosedAll(kids)
    ensures Leaves(PruneAll(kids)) == DirtyLeaves(kids)
    decreases kids
  {
    if kids != [] {
      var n, rest, p := kids[0], kids[1..], PruneAll(kids);
      assert UpClosed(n);
      PruneKeepsDirtyLeaves(rest);
      if n.dirty {
        assert p[0] == Prune(n) && p[1..] == PruneAll(rest);
        if n.Message? {
          PruneKeepsDirtyLeaves(n.kids);
        }
      } else {
        assert kids == [n] + rest;
        DirtyLeavesStep(n, rest);
        assert p == PruneAll(rest);
      }
    }
  }
}
