/** The channel list's entries and their order. */
module ChannelOrder {

  type Snowflake = nat

  datatype Kind = Text | Voice | StageVoice | Category | DM | GroupDM

  /** A ChannelMember. */
  datatype Member = Member(category: Snowflake, id: Snowflake, kind: Kind, name: string, categIndex: int, pos: int, lastMessage: Snowflake)

  predicate IsDM(m: Member) { m.kind == DM || m.kind == GroupDM }
  predicate IsCategory(m: Member) { m.kind == Category }
  predicate IsVoice(m: Member) { m.kind == Voice || m.kind == StageVoice }

  /** operator<. */
  predicate Less(a: Member, b: Member) {
    if IsDM(a) && a.lastMessage != b.lastMessage then a.lastMessage > b.lastMessage
    else if a.categIndex != b.categIndex then a.categIndex < b.categIndex
    else if a.category != b.category then a.category < b.category
    else if IsCategory(a) && !IsCategory(b) then true
    else if !IsCategory(a) && IsCategory(b) then false
    else if IsVoice(a) && !IsVoice(b) then false
    else if !IsVoice(a) && IsVoice(b) then true
    else if !IsCategory(a) && !IsCategory(b) && a.pos != b.pos then a.pos < b.pos
    else a.id < b.id
  }

  /** The same order as a list of numbers compared from the front. */
  function Key(m: Member): seq<int> {
    [if IsDM(m) then -(m.lastMessage as int) else 0, m.categIndex, m.category, if IsCategory(m) then 0 else 1,
     if IsVoice(m) then 1 else 0, if IsCategory(m) then 0 else m.pos, m.id]
  }

  predicate Before(x: seq<int>, y: seq<int>)
    requires |x| == |y|
  {
    x != [] && (x[0] < y[0] || (x[0] == y[0] && Before(x[1..], y[1..])))
  }

  lemma {:induction false} BeforeIsOrder(x: seq<int>, y: seq<int>, z: seq<int>)
    requires |x| == |y| == |z|
    ensures !Before(x, x)
    ensures Before(x, y) && Before(y, z) ==> Before(x, z)
    ensures x != y ==> Before(x, y) || Before(y, x)
  {
    if x != [] {
      BeforeIsOrder(x[1..], y[1..], z[1..]);
      assert x == [x[0]] + x[1..] && y == [y[0]] + y[1..];
    }
  }

  /** On two entries that are both direct messages, or both not, the operator compares keys. */
  lemma LessIsBefore(a: Member, b: Member)
    requires IsDM(a) == IsDM(b)
    ensures Less(a, b) == Before(Key(a), Key(b))
  {
    SevenDigits(Key(a), Key(b));
  }

  lemma SevenDigits(x: seq<int>, y: seq<int>)
    requires |x| == |y| == 7
    ensures Before(x, y) <==>
      x[0] < y[0] || (x[0] == y[0] && (x[1] < y[1] || (x[1] == y[1] && (x[2] < y[2] || (x[2] == y[2] && (x[3] < y[3] ||
        (x[3] == y[3] && (x[4] < y[4] || (x[4] == y[4] && (x[5] < y[5] || (x[5] == y[5] && x[6] < y[6])))))))))))
  {
    hide Before;
    assert x[0..] == x && y[0..] == y;
    Digit(x, y, 0);
    Digit(x, y, 1);
    Digit(x, y, 2);
    Digit(x, y, 3);
    Digit(x, y, 4);
    Digit(x, y, 5);
    Digit(x, y, 6);
  }

  lemma Digit(x: seq<int>, y: seq<int>, k: nat)
    requires |x| == |y| && k < |x|
    ensures Before(x[k..], y[k..]) <==> x[k] < y[k] || (x[k] == y[k] && k + 1 < |x| && Before(x[k + 1..], y[k + 1..]))
  {
    assert x[k..][1..] == x[k + 1..] && y[k..][1..] == y[k + 1..];
  }

  /** A list std::sort may be given: with direct messages only, or without any. */
  predicate OneSort(s: seq<Member>) {
    (forall m | m in s :: IsDM(m)) || (forall m | m in s :: !IsDM(m))
  }

  predicate DistinctIds(s: seq<Member>) {
    forall i, j :: 0 <= i < j < |s| ==> s[i].id != s[j].id
  }

  /** On such entries with different ids the operator is a strict total order. */
  lemma StrictTotalOrder(a: Member, b: Member, c: Member)
    requires IsDM(a) == IsDM(b) == IsDM(c)
    ensures !Less(a, a)
    ensures Less(a, b) && Less(b, c) ==> Less(a, c)
    ensures a.id != b.id ==> Less(a, b) || Less(b, a)
    ensures !(Less(a, b) && Less(b, a))
  {
    LessIsBefore(a, a);
    LessIsBefore(a, b);
    LessIsBefore(b, a);
    LessIsBefore(b, c);
    LessIsBefore(a, c);
    BeforeIsOrder(Key(a), Key(b), Key(c));
    BeforeIsOrder(Key(a), Key(b), Key(a));
    assert a.id != b.id ==> Key(a)[6] != Key(b)[6];
    hide Less, Before, Key;
  }

  /** A direct message and another channel can each come before the other. */
  lemma MixedIsNoOrder()
    ensures exists a, b :: Less(a, b) && Less(b, a)
  {
    var a := Member(0, 1, DM, "", 1, 0, 5);
    var b := Member(0, 2, Text, "", 0, 0, 0);
    assert Less(a, b) && Less(b, a);
  }

  /** Exactly then: the message is newer, but the rest of the comparison puts the other channel first. */
  lemma MixedExactly(a: Member, b: Member)
    requires IsDM(a) && !IsDM(b)
    ensures Less(a, b) && Less(b, a) <==>
      a.lastMessage > b.lastMessage && Less(b.(lastMessage := 0), a.(lastMessage := 0))
  {
  }

  // ----- sorting -----

  predicate Ascending(s: seq<Member>) {
    forall i, j :: 0 <= i < j < |s| ==> Less(s[i], s[j])
  }

  /** std::sort. */
  function Sort(s: seq<Member>): seq<Member> {
    if s == [] then [] else Insert(s[0], Sort(s[1..]))
  }

  function Insert(m: Member, s: seq<Member>): seq<Member> {
    if s == [] || Less(m, s[0]) then [m] + s else [s[0]] + Insert(m, s[1..])
  }

  lemma {:induction false} InsertKeeps(m: Member, s: seq<Member>)
    ensures multiset(Insert(m, s)) == multiset{m} + multiset(s)
  {
    hide Less;
    if s != [] && !Less(m, s[0]) {
      InsertKeeps(m, s[1..]);
      assert s == [s[0]] + s[1..];
    }
  }

  lemma {:induction false} SortKeeps(s: seq<Member>)
    ensures multiset(Sort(s)) == multiset(s)
  {
    if s != [] {
      SortKeeps(s[1..]);
      InsertKeeps(s[0], Sort(s[1..]));
      assert s == [s[0]] + s[1..];
    }
  }

  lemma InMultiset(m: Member, s: seq<Member>, t: seq<Member>)
    requires multiset(s) == multiset(t)
    ensures m in s <==> m in t
  {
    assert m in s <==> m in multiset(s);
    assert m in t <==> m in multiset(t);
  }

  /** m and the entries of s are of one sort and have different ids. */
  predicate Fits(m: Member, s: seq<Member>) {
    forall n | n in s :: n.id != m.id && IsDM(n) == IsDM(m)
  }

  lemma {:induction false} InsertAscends(m: Member, s: seq<Member>)
    requires Ascending(s) && Fits(m, s) && OneSort(s)
    ensures Ascending(Insert(m, s))
  {
    if s != [] {
      assert s[0] in s && forall n | n in s[1..] :: n in s;
      StrictTotalOrder(m, s[0], s[0]);
      if Less(m, s[0]) {
        forall j | 0 <= j < |s|
          ensures Less(m, s[j])
        {
          assert s[j] in s;
          StrictTotalOrder(m, s[0], s[j]);
        }
      } else {
        InsertAscends(m, s[1..]);
        InsertKeeps(m, s[1..]);
        var r := Insert(m, s[1..]);
        forall j | 0 <= j < |r|
          ensures Less(s[0], r[j])
        {
          assert r[j] in multiset(r);
          hide Less;
        }
      }
    }
  }

  lemma {:induction false} SortAscends(s: seq<Member>)
    requires DistinctIds(s) && OneSort(s)
    ensures Ascending(Sort(s))
  {
    if s != [] {
      hide Less, Ascending, Insert;
      SortAscends(s[1..]);
      SortKeeps(s[1..]);
      var t := Sort(s[1..]);
      forall n
        ensures n in t <==> n in s[1..]
      {
        InMultiset(n, t, s[1..]);
      }
      assert forall n | n in s[1..] :: n in s;
      assert s[0] in s;
      InsertAscends(s[0], t);
    }
  }

  /** Whatever algorithm sorts them, the outcome is this one. */
  lemma {:induction false} SortedIsUnique(s: seq<Member>, t: seq<Member>)
    requires Ascending(s) && Ascending(t) && multiset(s) == multiset(t) && OneSort(s)
    ensures s == t
  {
    hide Less, Ascending;
    if s == [] {
      assert |multiset(t)| == |t| && |multiset(s)| == |s|;
    } else {
      SameFirst(s, t);
      assert s == [s[0]] + s[1..] && t == [t[0]] + t[1..];
      assert multiset(s[1..]) == multiset(s) - multiset{s[0]} == multiset(t[1..]);
      RestOf(s);
      RestOf(t);
      SortedIsUnique(s[1..], t[1..]);
    }
  }

  lemma RestOf(s: seq<Member>)
    requires s != [] && Ascending(s)
    ensures Ascending(s[1..]) && (OneSort(s) ==> OneSort(s[1..]))
  {
    hide Less;
    assert forall n | n in s[1..] :: n in s;
  }

  lemma SameFirst(s: seq<Member>, t: seq<Member>)
    requires s != [] && Ascending(s) && Ascending(t) && multiset(s) == multiset(t) && OneSort(s)
    ensures t != [] && s[0] == t[0]
  {
    hide Less;
    assert s[0] in multiset(s) && s[0] in s;
    assert t != [] by {
      assert t == [] ==> multiset(t) == multiset{};
    }
    InMultiset(s[0], s, t);
    InMultiset(t[0], s, t);
    var i :| 0 <= i < |s| && s[i] == t[0];
    var j :| 0 <= j < |t| && t[j] == s[0];
    StrictTotalOrder(s[0], t[0], s[0]);
  }
}
