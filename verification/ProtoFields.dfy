/** A message's field table: std::map from field number to a vector of objects, kept as the
    sequence its iteration visits, and what AddObject does to it. */
module ProtoFields {
  import opened Bytes
  import opened ProtoTree

  predicate Sorted(kids: seq<Node>) {
    forall i, j :: 0 <= i < j < |kids| ==> kids[i].fn <= kids[j].fn
  }

  /** Sorted at every level. */
  predicate SortedDeep(kids: seq<Node>)
    decreases kids
  {
    Sorted(kids) && forall n | n in kids && n.Message? :: SortedDeep(n.kids)
  }

  /** Every field holds at most one object. */
  predicate Ascending(kids: seq<Node>) {
    forall i, j :: 0 <= i < j < |kids| ==> kids[i].fn < kids[j].fn
  }

  /** The vector of objects stored under one field number. */
  function At(kids: seq<Node>, f: uint64): seq<Node> {
    if kids == [] then [] else (if kids[0].fn == f then [kids[0]] else []) + At(kids[1..], f)
  }

  function Without(kids: seq<Node>, f: uint64): (r: seq<Node>)
    ensures forall n :: n in r <==> n in kids && n.fn != f
  {
    if kids == [] then [] else (if kids[0].fn == f then [] else [kids[0]]) + Without(kids[1..], f)
  }

  /** push_back on the vector of n's field. */
  function Push(kids: seq<Node>, n: Node): (r: seq<Node>)
    ensures |r| == |kids| + 1
    ensures forall k :: k in r <==> k == n || k in kids
  {
    if kids == [] || n.fn < kids[0].fn then [n] + kids else [kids[0]] + Push(kids[1..], n)
  }

  /** AddObject: a unique field keeps only the newcomer, a repeated one grows at its end. */
  function Add(kids: seq<Node>, unique: set<uint64>, n: Node): seq<Node> {
    Push(if n.fn in unique then Without(kids, n.fn) else kids, n)
  }

  function AddAll(kids: seq<Node>, unique: set<uint64>, ns: seq<Node>): seq<Node>
    decreases |ns|
  {
    if ns == [] then kids else AddAll(Add(kids, unique, ns[0]), unique, ns[1..])
  }

  lemma {:induction false} AddAllConcat(kids: seq<Node>, unique: set<uint64>, a: seq<Node>, b: seq<Node>)
    ensures AddAll(kids, unique, a + b) == AddAll(AddAll(kids, unique, a), unique, b)
    decreases |a|
  {
    if a == [] {
      assert a + b == b;
    } else {
      assert (a + b)[1..] == a[1..] + b;
      AddAllConcat(Add(kids, unique, a[0]), unique, a[1..], b);
    }
  }

  lemma {:induction false} SortedTail(kids: seq<Node>)
    requires Sorted(kids) && kids != []
    ensures Sorted(kids[1..])
    ensures forall k :: k in kids ==> kids[0].fn <= k.fn
  {
  }

  lemma {:induction false} SortedCons(n: Node, kids: seq<Node>)
    requires Sorted(kids) && forall k :: k in kids ==> n.fn <= k.fn
    ensures Sorted([n] + kids)
  {
    forall i, j | 0 <= i < j < |[n] + kids| ensures ([n] + kids)[i].fn <= ([n] + kids)[j].fn {
      if i == 0 {
        assert kids[j - 1] in kids;
      }
    }
  }

  lemma {:induction false} PushSorted(kids: seq<Node>, n: Node)
    requires Sorted(kids)
    ensures Sorted(Push(kids, n))
  {
    if kids == [] || n.fn < kids[0].fn {
      if kids != [] {
        SortedTail(kids);
      }
      SortedCons(n, kids);
    } else {
      SortedTail(kids);
      PushSorted(kids[1..], n);
      SortedCons(kids[0], Push(kids[1..], n));
    }
  }

  lemma {:induction false} PushAt(kids: seq<Node>, n: Node, f: uint64)
    requires Sorted(kids)
    ensures At(Push(kids, n), f) == At(kids, f) + if n.fn == f then [n] else []
  {
    var p := Push(kids, n);
    hide At;
    AtStep(p, f);
    if kids == [] || n.fn < kids[0].fn {
      assert p[1..] == kids;
      if n.fn == f {
        AtBelow(kids, f);
      }
    } else {
      SortedTail(kids);
      PushAt(kids[1..], n, f);
      AtStep(kids, f);
      assert p[0] == kids[0] && p[1..] == Push(kids[1..], n);
    }
  }

  lemma {:induction false} AtBelow(kids: seq<Node>, f: uint64)
    requires Sorted(kids) && (kids == [] || f < kids[0].fn)
    ensures At(kids, f) == []
  {
    if kids != [] {
      SortedTail(kids);
      AtBelow(kids[1..], f);
    }
  }

  /** Pushing an object whose field is not below any other puts it at the very end. */
  lemma {:induction false} PushLast(kids: seq<Node>, n: Node)
    requires forall k :: k in kids ==> k.fn <= n.fn
    ensures Push(kids, n) == kids + [n]
  {
    if kids != [] {
      assert kids[0] in kids;
      PushLast(kids[1..], n);
      assert kids == [kids[0]] + kids[1..];
    }
  }

  /** Adding objects one by one to a table whose fields are repeated sorts them stably: the
      table is sorted, and each field holds its objects in the order they were added. */
  lemma {:induction false} AddAllStablySorts(kids: seq<Node>, ns: seq<Node>, f: uint64)
    requires Sorted(kids)
    ensures Sorted(AddAll(kids, {}, ns))
    ensures At(AddAll(kids, {}, ns), f) == At(kids, f) + At(ns, f)
    decreases |ns|
  {
    if ns != [] {
      PushSorted(kids, ns[0]);
      PushAt(kids, ns[0], f);
      AddAllStablySorts(Push(kids, ns[0]), ns[1..], f);
    }
  }

  /** Objects that arrive already sorted are kept as they come. */
  lemma {:induction false} AddAllSorted(kids: seq<Node>, ns: seq<Node>)
    requires Sorted(kids + ns)
    ensures AddAll(kids, {}, ns) == kids + ns
    decreases |ns|
  {
    if ns == [] {
      assert kids + ns == kids;
    } else {
      forall k | k in kids ensures k.fn <= ns[0].fn {
        var i :| 0 <= i < |kids| && kids[i] == k;
        assert (kids + ns)[i] == k && (kids + ns)[|kids|] == ns[0];
      }
      PushLast(kids, ns[0]);
      assert (kids + [ns[0]]) + ns[1..] == kids + ns;
      AddAllSorted(kids + [ns[0]], ns[1..]);
    }
  }

  /** [lo, hi) is where field f's vector stands. */
  predicate Range(kids: seq<Node>, f: uint64, lo: nat, hi: nat) {
    && lo <= hi <= |kids|
    && (forall i :: 0 <= i < lo ==> kids[i].fn < f)
    && (forall i :: lo <= i < hi ==> kids[i].fn == f)
    && (forall i :: hi <= i < |kids| ==> f < kids[i].fn)
  }

  lemma {:induction false} WithoutConcat(a: seq<Node>, b: seq<Node>, f: uint64)
    ensures Without(a + b, f) == Without(a, f) + Without(b, f)
  {
    if a == [] {
      assert a + b == b;
    } else {
      assert (a + b)[1..] == a[1..] + b;
      WithoutConcat(a[1..], b, f);
    }
  }

  lemma {:induction false} WithoutNone(a: seq<Node>, f: uint64)
    requires forall n :: n in a ==> n.fn != f
    ensures Without(a, f) == a
  {
    if a != [] {
      assert a[0] in a;
      WithoutNone(a[1..], f);
      assert a == [a[0]] + a[1..];
    }
  }

  lemma {:induction false} WithoutAll(b: seq<Node>, f: uint64)
    requires forall n :: n in b ==> n.fn == f
    ensures Without(b, f) == []
  {
    if b != [] {
      WithoutAll(b[1..], f);
    }
  }

  lemma WithoutRange(kids: seq<Node>, f: uint64, lo: nat, hi: nat)
    requires Range(kids, f, lo, hi)
    ensures Without(kids, f) == kids[..lo] + kids[hi..]
  {
    hide Without;
    var a, b, c := kids[..lo], kids[lo..hi], kids[hi..];
    assert kids == a + (b + c);
    WithoutConcat(a, b + c, f);
    WithoutConcat(b, c, f);
    WithoutNone(a, f);
    WithoutNone(c, f);
    WithoutAll(b, f);
  }

  lemma {:induction false} AtConcat(a: seq<Node>, b: seq<Node>, f: uint64)
    ensures At(a + b, f) == At(a, f) + At(b, f)
  {
    hide At;
    if a == [] {
      assert a + b == b;
      AtNothing(f);
      assert [] + At(b, f) == At(b, f);
    } else {
      assert (a + b)[1..] == a[1..] + b;
      AtConcat(a[1..], b, f);
      AtStep(a, f);
      AtStep(a + b, f);
      assert (if a[0].fn == f then [a[0]] else []) + (At(a[1..], f) + At(b, f)) == At(a, f) + At(b, f);
    }
  }

  lemma AtStep(kids: seq<Node>, f: uint64)
    requires kids != []
    ensures At(kids, f) == (if kids[0].fn == f then [kids[0]] else []) + At(kids[1..], f)
  {
  }

  lemma AtNothing(f: uint64)
    ensures At([], f) == []
  {
  }

  lemma {:induction false} AtNone(a: seq<Node>, f: uint64)
    requires forall n :: n in a ==> n.fn != f
    ensures At(a, f) == []
  {
    if a != [] {
      assert a[0] in a;
      AtNone(a[1..], f);
    }
  }

  lemma {:induction false} AtAll(b: seq<Node>, f: uint64)
    requires forall n :: n in b ==> n.fn == f
    ensures At(b, f) == b
  {
    if b != [] {
      AtAll(b[1..], f);
      assert b == [b[0]] + b[1..];
    }
  }

  lemma AtRange(kids: seq<Node>, f: uint64, lo: nat, hi: nat)
    requires Range(kids, f, lo, hi)
    ensures At(kids, f) == kids[lo..hi]
  {
    hide At;
    var a, b, c := kids[..lo], kids[lo..hi], kids[hi..];
    assert kids == a + (b + c);
    AtConcat(a, b + c, f);
    AtConcat(b, c, f);
    AtNone(a, f);
    AtNone(c, f);
    AtAll(b, f);
  }

  lemma {:induction false} PushRange(kids: seq<Node>, n: Node, at: nat)
    requires at <= |kids|
    requires forall i :: 0 <= i < at ==> kids[i].fn <= n.fn
    requires forall i :: at <= i < |kids| ==> n.fn < kids[i].fn
    ensures Push(kids, n) == kids[..at] + [n] + kids[at..]
  {
    if at > 0 {
      PushRange(kids[1..], n, at - 1);
      assert kids[..at] == [kids[0]] + kids[1..][..at - 1];
    }
  }

  /** Where AddObject stores the newcomer: in place of its field's vector when the field is
      unique, at the end of it otherwise. */
  lemma AddRange(kids: seq<Node>, unique: set<uint64>, n: Node, lo: nat, hi: nat)
    requires Range(kids, n.fn, lo, hi)
    ensures Add(kids, unique, n) == kids[..if n.fn in unique then lo else hi] + [n] + kids[hi..]
  {
    if n.fn in unique {
      WithoutRange(kids, n.fn, lo, hi);
      var w := kids[..lo] + kids[hi..];
      PushRange(w, n, lo);
      assert w[..lo] == kids[..lo] && w[lo..] == kids[hi..];
    } else {
      PushRange(kids, n, hi);
    }
  }
}
