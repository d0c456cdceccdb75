/** What a committed channel list looks like: each category that has channels stands right in front
    of all of them, and the others are gone. */
module ChannelGroups {
  import opened ChannelOrder
  import opened ChannelList

  predicate Under(m: Member, c: Snowflake) { !IsCategory(m) && m.category == c }

  predicate HasChannel(s: seq<Member>, c: Snowflake) { exists m :: m in s && Under(m, c) }

  predicate IsCategoryNamed(m: Member, c: Snowflake) { IsCategory(m) && m.id == c }

  predicate Listed(s: seq<Member>, c: Snowflake) { exists m :: m in s && IsCategoryNamed(m, c) }

  /** What reading a server's channels guarantees: different identifiers, no direct messages, and
      categories that are their own parents. */
  predicate Roster(items: seq<Member>) {
    DistinctIds(items) && forall m | m in items :: !IsDM(m) && (IsCategory(m) ==> m.category == m.id)
  }

  /** A server's channels in good order: no direct messages, positive identifiers, categories that are their own
      parents at positions from 0 up, and every parent listed. */
  predicate Server(items: seq<Member>) {
    && DistinctIds(items)
    && forall m | m in items ::
         && !IsDM(m) && m.id > 0
         && (IsCategory(m) ==> m.category == m.id && m.categIndex >= 0)
         && (!IsCategory(m) ==> m.category == 0 || Listed(items, m.category))
  }

  // ----- indexing -----

  lemma {:induction false} IdxsAre(items: seq<Member>, c: Snowflake)
    requires DistinctIds(items)
    ensures c in CategIdxs(items) <==> Listed(items, c)
    ensures forall m | m in items && IsCategoryNamed(m, c) :: c in CategIdxs(items) && CategIdxs(items)[c] == m.categIndex
  {
    if items != [] {
      var n := |items| - 1;
      IdxsAre(items[..n], c);
      ListedSnoc(items, c);
      assert items == items[..n] + [items[n]];
      assert forall m | m in items[..n] :: m in items && m.id != items[n].id;
    }
  }

  lemma ListedSnoc(s: seq<Member>, c: Snowflake)
    requires s != []
    ensures Listed(s, c) <==> Listed(s[..|s| - 1], c) || IsCategoryNamed(s[|s| - 1], c)
  {
    var front, last := s[..|s| - 1], s[|s| - 1];
    assert forall m | m in s :: m in front || m == last;
    assert forall m | m in front :: m in s;
    if Listed(front, c) {
      var m :| m in front && IsCategoryNamed(m, c);
      assert m in s;
    }
    if IsCategoryNamed(last, c) {
      assert last in s;
    }
    if Listed(s, c) && !IsCategoryNamed(last, c) {
      var m :| m in s && IsCategoryNamed(m, c);
      assert m in front;
    }
  }

  predicate TidyMember(m: Member, s: seq<Member>) {
    && !IsDM(m)
    && (IsCategory(m) ==> m.category == m.id)
    && (!IsCategory(m) ==> if Listed(s, m.category) then Leader(s, m.category, m.categIndex) else m.categIndex == 0)
  }

  /** The category is there, with that index. */
  predicate Leader(s: seq<Member>, c: Snowflake, index: int) {
    exists k :: k in s && IsCategoryNamed(k, c) && k.categIndex == index
  }

  /** A server's list once every channel has its category's index. */
  predicate Tidy(s: seq<Member>) {
    DistinctIds(s) && forall m | m in s :: TidyMember(m, s)
  }

  lemma IndexedIsTidy(items: seq<Member>)
    requires Roster(items)
    ensures Tidy(IndexedAll(items, CategIdxs(items)))
  {
    var idxs := CategIdxs(items);
    var s := IndexedAll(items, idxs);
    hide CategIdxs;
    forall m | m in s
      ensures TidyMember(m, s)
    {
      var i :| 0 <= i < |s| && s[i] == m;
      assert items[i] in items;
      if !IsCategory(m) {
        IdxsAre(items, m.category);
        SameListed(items, m.category);
        if Listed(items, m.category) {
          LeaderIndexed(items, items[i]);
        }
      }
    }
  }

  lemma LeaderIndexed(items: seq<Member>, n: Member)
    requires Roster(items) && n in items && !IsCategory(n) && Listed(items, n.category)
    ensures var idxs := CategIdxs(items); Leader(IndexedAll(items, idxs), n.category, Indexed(n, idxs).categIndex)
  {
    hide CategIdxs;
    var s := IndexedAll(items, CategIdxs(items));
    IdxsAre(items, n.category);
    var k :| k in items && IsCategoryNamed(k, n.category);
    var j :| 0 <= j < |items| && items[j] == k;
    assert s[j] == k && k in s;
  }

  /** Indexing changes no category. */
  lemma SameListed(items: seq<Member>, c: Snowflake)
    ensures Listed(IndexedAll(items, CategIdxs(items)), c) <==> Listed(items, c)
  {
    hide CategIdxs;
    var s := IndexedAll(items, CategIdxs(items));
    if Listed(items, c) {
      var k :| k in items && IsCategoryNamed(k, c);
      var j :| 0 <= j < |items| && items[j] == k;
      assert s[j] == k && k in s;
    }
    if Listed(s, c) {
      var k :| k in s && IsCategoryNamed(k, c);
      var j :| 0 <= j < |s| && s[j] == k;
      assert items[j] == k && k in items;
    }
  }

  lemma SortIsTidy(s: seq<Member>)
    requires Tidy(s)
    ensures Tidy(Sort(s)) && Ascending(Sort(s))
  {
    SortAscends(s);
    SortKeeps(s);
    var t := Sort(s);
    forall m
      ensures m in t <==> m in s
    {
      InMultiset(m, t, s);
    }
    AscendingDistinct(t, s);
    hide Sort, Ascending, DistinctIds;
    forall m | m in t
      ensures TidyMember(m, t)
    {
      SameMembers(m, s, t);
    }
  }

  /** Tidiness is about which entries there are. */
  lemma SameMembers(m: Member, s: seq<Member>, t: seq<Member>)
    requires TidyMember(m, s) && forall x :: x in t <==> x in s
    ensures TidyMember(m, t)
  {
    var c := m.category;
    if Listed(s, c) {
      var k :| k in s && IsCategoryNamed(k, c);
      assert k in t;
    }
    if Listed(t, c) {
      var k :| k in t && IsCategoryNamed(k, c);
      assert k in s;
    }
    if Leader(s, c, m.categIndex) {
      var k :| k in s && IsCategoryNamed(k, c) && k.categIndex == m.categIndex;
      assert k in t;
    }
  }

  /** Entries that ascend are different, so the identifiers of a rearrangement still are. */
  lemma AscendingDistinct(t: seq<Member>, s: seq<Member>)
    requires Ascending(t) && (forall m | m in t :: m in s && !IsDM(m)) && DistinctIds(s)
    ensures DistinctIds(t)
  {
    forall i, j | 0 <= i < j < |t|
      ensures t[i].id != t[j].id
    {
      assert t[i] in s && t[j] in s && Less(t[i], t[j]);
      StrictTotalOrder(t[i], t[i], t[i]);
      assert t[i] != t[j];
      hide Less;
    }
  }

  // ----- groups in a sorted list -----

  /** The group of one entry comes before that of another. */
  predicate GroupBefore(a: Member, b: Member) {
    a.categIndex < b.categIndex || (a.categIndex == b.categIndex && a.category < b.category)
  }

  predicate SameGroup(a: Member, b: Member) { a.categIndex == b.categIndex && a.category == b.category }

  lemma LessByGroup(a: Member, b: Member)
    requires !IsDM(a)
    ensures Less(a, b) ==> GroupBefore(a, b) || SameGroup(a, b)
    ensures GroupBefore(a, b) ==> Less(a, b)
    ensures SameGroup(a, b) && IsCategory(a) && !IsCategory(b) ==> Less(a, b)
  {
  }

  /** In a sorted list an entry stands before another exactly if it is less. */
  lemma PlaceIs(s: seq<Member>, i: nat, j: nat)
    requires Tidy(s) && Ascending(s) && i < |s| && j < |s|
    ensures Less(s[i], s[j]) <==> i < j
  {
    assert s[i] in s && s[j] in s;
    StrictTotalOrder(s[i], s[j], s[i]);
    hide Less, TidyMember;
  }

  /** Entries of a channel's group: the category itself, in front, and its channels. */
  lemma ChannelBehindCategory(s: seq<Member>, i: nat, q: nat)
    requires Tidy(s) && Ascending(s) && i < |s| && q < |s| && IsCategory(s[i]) && Under(s[q], s[i].id)
    ensures i < q && SameGroup(s[i], s[q])
  {
    assert s[i] in s && s[q] in s;
    assert TidyMember(s[q], s) && TidyMember(s[i], s);
    var k :| k in s && IsCategoryNamed(k, s[q].category) && k.categIndex == s[q].categIndex;
    var j :| 0 <= j < |s| && s[j] == k;
    assert j == i;
    LessByGroup(s[i], s[q]);
    PlaceIs(s, i, q);
  }

  /** Everything from a category to one of its channels is its channels. */
  lemma RunOfChannels(s: seq<Member>, i: nat, q: nat, k: nat)
    requires Tidy(s) && Ascending(s) && q < |s| && i < k <= q && IsCategory(s[i]) && Under(s[q], s[i].id)
    ensures Under(s[k], s[i].id)
  {
    ChannelBehindCategory(s, i, q);
    if k < q {
      assert s[i] in s && s[k] in s;
      assert Less(s[i], s[k]) && Less(s[k], s[q]);
      LessByGroup(s[i], s[k]);
      LessByGroup(s[k], s[q]);
      assert SameGroup(s[i], s[k]);
      assert TidyMember(s[k], s) && TidyMember(s[i], s);
      assert s[k].id != s[i].id;
    }
  }

  /** A channel right behind a category is one of its channels, or its parent is not listed. */
  lemma NextIsOwnOrOrphan(s: seq<Member>, i: nat)
    requires Tidy(s) && Ascending(s) && i + 1 < |s| && IsCategory(s[i]) && !IsCategory(s[i + 1])
    ensures Under(s[i + 1], s[i].id) || !Listed(s, s[i + 1].category)
  {
    var m, n := s[i], s[i + 1];
    assert m in s && n in s && Less(m, n);
    assert TidyMember(m, s) && TidyMember(n, s);
    LessByGroup(m, n);
    if Listed(s, n.category) && n.category != m.id {
      var k :| k in s && IsCategoryNamed(k, n.category) && k.categIndex == n.categIndex;
      var j :| 0 <= j < |s| && s[j] == k;
      assert TidyMember(k, s);
      LessByGroup(k, n);
      LessByGroup(m, k);
      PlaceIs(s, j, i + 1);
      PlaceIs(s, i, j);
    }
  }

  /** Whether the removing loop keeps the entry at i. */
  predicate Kept(s: seq<Member>, i: nat)
    requires i < |s|
  {
    !(IsCategory(s[i]) && (i + 1 >= |s| || IsCategory(s[i + 1])))
  }

  /** The category m comes before the group of channels with that index and parent. */
  predicate Ahead(m: Member, index: int, parent: Snowflake) {
    m.categIndex < index || (m.categIndex == index && m.id < parent)
  }

  /** n's parent is not listed, and no category comes between m and n: m is taken for n's. */
  predicate Misleads(s: seq<Member>, m: Member, n: Member) {
    && n in s && !IsCategory(n) && !Listed(s, n.category) && Ahead(m, 0, n.category)
    && forall d | d in s && IsCategory(d) :: !(Ahead(m, d.categIndex, d.id) && Ahead(d, 0, n.category))
  }

  lemma NextMisleads(s: seq<Member>, i: nat)
    requires Tidy(s) && Ascending(s) && i + 1 < |s| && IsCategory(s[i]) && !IsCategory(s[i + 1])
    requires !Listed(s, s[i + 1].category)
    ensures Misleads(s, s[i], s[i + 1])
  {
    var m, n := s[i], s[i + 1];
    assert m in s && n in s && Less(m, n);
    assert TidyMember(m, s) && TidyMember(n, s);
    LessByGroup(m, n);
    assert IsCategoryNamed(m, m.id);
    hide Less;
    forall d | d in s && IsCategory(d)
      ensures !(Ahead(m, d.categIndex, d.id) && Ahead(d, 0, n.category))
    {
      var j :| 0 <= j < |s| && s[j] == d;
      assert TidyMember(d, s);
      LessByGroup(m, d);
      LessByGroup(d, n);
      PlaceIs(s, i, j);
      PlaceIs(s, j, i + 1);
    }
  }

  lemma NoneBetween(s: seq<Member>, m: Member, d: Member, n: Member)
    requires Misleads(s, m, n) && d in s && IsCategory(d) && IsCategory(m) && m.id != d.id
    requires TidyMember(m, s) && TidyMember(d, s) && TidyMember(n, s)
    ensures !(Less(m, d) && Less(d, n))
  {
    LessByGroup(m, d);
    LessByGroup(d, n);
    assert n.category != d.id || IsCategoryNamed(d, n.category);
    hide Less, TidyMember;
  }

  lemma MisledIsKept(s: seq<Member>, i: nat, n: Member)
    requires Tidy(s) && Ascending(s) && i < |s| && IsCategory(s[i]) && Misleads(s, s[i], n)
    ensures Kept(s, i)
  {
    var m := s[i];
    var q :| 0 <= q < |s| && s[q] == n;
    assert TidyMember(m, s) && TidyMember(n, s);
    LessByGroup(m, n);
    PlaceIs(s, i, q);
    var d := s[i + 1];
    assert d in s && TidyMember(d, s) && Less(m, d) && (i + 1 < q ==> Less(d, n));
    hide Less, Misleads, Tidy;
    if IsCategory(d) && i + 1 < q {
      NoneBetween(s, m, d, n);
    }
  }

  /** It keeps a category exactly if it has a channel or is taken for the parent of one that has none. */
  lemma KeptExactly(s: seq<Member>, i: nat)
    requires Tidy(s) && Ascending(s) && i < |s| && IsCategory(s[i])
    ensures Kept(s, i) <==> HasChannel(s, s[i].id) || exists n :: Misleads(s, s[i], n)
  {
    if Kept(s, i) {
      NextIsOwnOrOrphan(s, i);
      assert s[i + 1] in s;
      if !Listed(s, s[i + 1].category) {
        NextMisleads(s, i);
      }
    }
    if HasChannel(s, s[i].id) {
      var n :| n in s && Under(n, s[i].id);
      var q :| 0 <= q < |s| && s[q] == n;
      ChannelBehindCategory(s, i, q);
      RunOfChannels(s, i, q, i + 1);
    }
    if n :| Misleads(s, s[i], n) {
      MisledIsKept(s, i, n);
    }
  }

  // ----- the removing loop -----

  lemma {:induction false} PruneMembers(s: seq<Member>, m: Member)
    ensures m in Prune(s) <==> exists i :: 0 <= i < |s| && s[i] == m && Kept(s, i)
    ensures !IsCategory(m) ==> multiset(Prune(s))[m] == multiset(s)[m]
  {
    if s != [] {
      PruneMembers(s[1..], m);
      assert s == [s[0]] + s[1..];
      assert forall i :: 1 <= i < |s| ==> s[i] == s[1..][i - 1] && Kept(s, i) == Kept(s[1..], i - 1);
      if m in Prune(s) {
        if Kept(s, 0) && m == s[0] {
          assert s[0] == m;
        } else {
          var i :| 0 <= i < |s[1..]| && s[1..][i] == m && Kept(s[1..], i);
          assert s[i + 1] == m && Kept(s, i + 1);
        }
      }
      if i :| 0 <= i < |s| && s[i] == m && Kept(s, i) {
        if i > 0 {
          assert s[1..][i - 1] == m && Kept(s[1..], i - 1);
        }
      }
    }
  }

  lemma {:induction false} PruneAscends(s: seq<Member>)
    requires Ascending(s)
    ensures Ascending(Prune(s))
  {
    hide Less;
    if s != [] {
      PruneAscends(s[1..]);
      var r := Prune(s[1..]);
      forall j | 0 <= j < |r|
        ensures Less(s[0], r[j])
      {
        PruneMembers(s[1..], r[j]);
        assert r[j] in r;
      }
    }
  }

  // ----- the committed list -----

  /** Every category stands in front of all its channels, with nothing else among them. */
  ghost predicate Grouped(r: seq<Member>) {
    forall i, q, k :: 0 <= i < |r| && 0 <= q < |r| && IsCategory(r[i]) && Under(r[q], r[i].id) ==>
      i < q && (i < k <= q ==> Under(r[k], r[i].id))
  }

  lemma PrunedGrouped(s: seq<Member>)
    requires Tidy(s) && Ascending(s)
    ensures Grouped(Prune(s))
  {
    PruneAscends(s);
    var r := Prune(s);
    hide Prune, Tidy, Ascending;
    forall i, q, k | 0 <= i < |r| && 0 <= q < |r| && IsCategory(r[i]) && Under(r[q], r[i].id)
      ensures i < q && (i < k <= q ==> Under(r[k], r[i].id))
    {
      GroupedAt(s, i, q);
      if i < k <= q {
        RunAt(s, i, q, k);
      }
    }
  }

  lemma GroupedAt(s: seq<Member>, i: nat, q: nat)
    requires Tidy(s) && Ascending(s) && Ascending(Prune(s)) && i < |Prune(s)| && q < |Prune(s)|
    requires IsCategory(Prune(s)[i]) && Under(Prune(s)[q], Prune(s)[i].id)
    ensures i < q
  {
    var r := Prune(s);
    var a := Original(s, i);
    var b := Original(s, q);
    ChannelBehindCategory(s, a, b);
    assert s[a] in s && s[b] in s && Less(s[a], s[b]);
    assert TidyMember(s[a], s) && TidyMember(s[b], s);
    hide Prune, Less;
    OriginalOrder(r, i, q);
  }

  lemma RunAt(s: seq<Member>, i: nat, q: nat, k: nat)
    requires Tidy(s) && Ascending(s) && Ascending(Prune(s)) && i < |Prune(s)| && q < |Prune(s)| && i < k <= q
    requires IsCategory(Prune(s)[i]) && Under(Prune(s)[q], Prune(s)[i].id)
    ensures Under(Prune(s)[k], Prune(s)[i].id)
  {
    var r := Prune(s);
    var a := Original(s, i);
    var b := Original(s, q);
    var c := Original(s, k);
    if k < q {
      assert Less(r[i], r[k]) && Less(r[k], r[q]);
      hide Prune, Less;
      PlaceIs(s, a, c);
      PlaceIs(s, c, b);
      RunOfChannels(s, a, b, c);
    }
  }

  /** Where an entry of the pruned list was. */
  lemma Original(s: seq<Member>, i: nat) returns (j: nat)
    requires i < |Prune(s)|
    ensures j < |s| && s[j] == Prune(s)[i]
  {
    PruneMembers(s, Prune(s)[i]);
    assert Prune(s)[i] in Prune(s);
    j :| 0 <= j < |s| && s[j] == Prune(s)[i];
  }

  lemma OriginalOrder(r: seq<Member>, i: nat, q: nat)
    requires Ascending(r) && i < |r| && q < |r| && !IsDM(r[i]) && !IsDM(r[q]) && Less(r[i], r[q])
    ensures i < q
  {
    StrictTotalOrder(r[i], r[q], r[i]);
    hide Less;
  }

  /** CommitChannels on the channels of any server: a strictly ordered list with every channel once,
      each category that is left right in front of its channels, and a category left exactly if it
      has a channel or is taken for the parent of one whose parent is not listed. */
  lemma CommittedList(items: seq<Member>)
    requires Roster(items)
    ensures var r, s := Committed(items), IndexedAll(items, CategIdxs(items));
      && Ascending(r) && Grouped(r)
      && (forall m | !IsCategory(m) :: multiset(r)[m] == multiset(s)[m])
      && (forall m | IsCategory(m) ::
            m in r <==> m in items && (HasChannel(items, m.id) || exists n :: Misleads(items, m, n)))
  {
    var s := IndexedAll(items, CategIdxs(items));
    IndexedIsTidy(items);
    SortIsTidy(s);
    SortKeeps(s);
    var t := Sort(s);
    PruneAscends(t);
    PrunedGrouped(t);
    hide Prune, Sort, Ascending, Grouped, Tidy, Roster, CategIdxs, Misleads;
    forall m | !IsCategory(m)
      ensures multiset(Prune(t))[m] == multiset(s)[m]
    {
      PruneMembers(t, m);
    }
    forall m | IsCategory(m)
      ensures m in Prune(t) <==> m in items && (HasChannel(items, m.id) || exists n :: Misleads(items, m, n))
    {
      CategoryKept(items, s, t, m);
    }
  }

  /** Every category is left exactly if it has a channel, precisely when no channel whose parent is not
      listed stands behind a category without channels and no other category between them. */
  lemma OnlyUsedAreLeft(items: seq<Member>)
    requires Roster(items)
    ensures (forall m | m in items && IsCategory(m) :: m in Committed(items) <==> HasChannel(items, m.id))
      <==> !exists m, n :: m in items && IsCategory(m) && !HasChannel(items, m.id) && Misleads(items, m, n)
  {
    CommittedList(items);
    hide Committed, Misleads, Ascending, Grouped, HasChannel, Roster;
    if m, n :| m in items && IsCategory(m) && !HasChannel(items, m.id) && Misleads(items, m, n) {
      assert m in Committed(items);
    }
  }

  /** In particular on a server's channels in good order. */
  lemma ServerList(items: seq<Member>)
    requires Server(items)
    ensures forall m | IsCategory(m) :: m in Committed(items) <==> m in items && HasChannel(items, m.id)
  {
    CommittedList(items);
    hide Committed, Ascending, Grouped;
    forall m | m in items && IsCategory(m)
      ensures !exists n :: Misleads(items, m, n)
    {
      assert forall n | n in items && !IsCategory(n) && !Listed(items, n.category) :: n.category == 0;
    }
  }

  lemma CategoryKept(items: seq<Member>, s: seq<Member>, t: seq<Member>, m: Member)
    requires s == IndexedAll(items, CategIdxs(items)) && multiset(t) == multiset(s) && Tidy(t) && Ascending(t) && IsCategory(m)
    ensures m in Prune(t) <==> m in items && (HasChannel(items, m.id) || exists n :: Misleads(items, m, n))
  {
    PruneMembers(t, m);
    SameCategories(items, m);
    InMultiset(m, t, s);
    SameChannels(s, t, m.id);
    MisledAlike(items, s, t, m);
    hide Prune, Kept, CategIdxs, Tidy, Ascending, Misleads, HasChannel;
    if m in t {
      var i :| 0 <= i < |t| && t[i] == m;
      KeptExactly(t, i);
      if m in Prune(t) {
        var j :| 0 <= j < |t| && t[j] == m && Kept(t, j);
        KeptExactly(t, j);
      }
    }
  }

  /** Indexing and sorting change nothing about who misleads whom. */
  lemma MisledAlike(items: seq<Member>, s: seq<Member>, t: seq<Member>, m: Member)
    requires s == IndexedAll(items, CategIdxs(items)) && multiset(t) == multiset(s)
    ensures (exists n :: Misleads(items, m, n)) <==> exists n :: Misleads(t, m, n)
  {
    hide CategIdxs, Ahead, Listed, Misleads;
    forall x
      ensures x in t <==> x in s
    {
      InMultiset(x, t, s);
    }
    CategoriesOf(items, s);
    if n :| Misleads(items, m, n) {
      var i := PlaceIn(items, m, n);
      assert s[i] in s && s[i].category == n.category;
      SameListed(items, n.category);
      ListedAlike(s, t, n.category);
      MisleadsAs(items, t, m, n, s[i]);
    }
    if n :| Misleads(t, m, n) {
      var j := PlaceIn(t, m, n);
      assert t[j] in t;
      var i :| 0 <= i < |s| && s[i] == n;
      assert s[i] == Indexed(items[i], CategIdxs(items));
      assert items[i] in items && items[i].category == n.category && !IsCategory(items[i]);
      SameListed(items, n.category);
      ListedAlike(s, t, n.category);
      MisleadsAs(t, items, m, n, items[i]);
    }
  }

  lemma PlaceIn(s: seq<Member>, m: Member, n: Member) returns (i: nat)
    requires Misleads(s, m, n)
    ensures i < |s| && s[i] == n && !IsCategory(n)
  {
    i :| 0 <= i < |s| && s[i] == n;
  }

  /** What misleads is the channel's parent, not its index. */
  lemma MisleadsAs(s: seq<Member>, t: seq<Member>, m: Member, n: Member, n': Member)
    requires Misleads(s, m, n) && n' in t && n'.category == n.category && !IsCategory(n')
    requires Listed(s, n.category) <==> Listed(t, n.category)
    requires forall d | IsCategory(d) :: d in s <==> d in t
    ensures Misleads(t, m, n')
  {
    hide Ahead, Listed;
  }

  lemma ListedAlike(s: seq<Member>, t: seq<Member>, c: Snowflake)
    requires forall x :: x in t <==> x in s
    ensures Listed(s, c) <==> Listed(t, c)
  {
    if Listed(s, c) {
      var k :| k in s && IsCategoryNamed(k, c);
      assert k in t;
    }
    if Listed(t, c) {
      var k :| k in t && IsCategoryNamed(k, c);
      assert k in s;
    }
  }

  lemma CategoriesOf(items: seq<Member>, s: seq<Member>)
    requires s == IndexedAll(items, CategIdxs(items))
    ensures forall d | IsCategory(d) :: d in s <==> d in items
  {
    hide CategIdxs;
    forall d | IsCategory(d)
      ensures d in s <==> d in items
    {
      SameCategories(items, d);
    }
  }

  // ----- without any rule about parents -----

  /** n comes after the category m, and no category in between. */
  predicate Follows(s: seq<Member>, m: Member, n: Member) {
    n in s && !IsCategory(n) && Less(m, n) && forall d | d in s && IsCategory(d) :: !(Less(m, d) && Less(d, n))
  }

  /** Whatever the parents are, a category is left exactly if some channel follows it. */
  lemma LeftExactly(items: seq<Member>, m: Member)
    requires DistinctIds(items) && (forall x | x in items :: !IsDM(x)) && m in items && IsCategory(m)
    ensures m in Committed(items) <==> exists n :: Follows(IndexedAll(items, CategIdxs(items)), m, n)
  {
    var s := IndexedAll(items, CategIdxs(items));
    forall x | x in s
      ensures !IsDM(x)
    {
      var i :| 0 <= i < |s| && s[i] == x;
      assert items[i] in items;
    }
    SortAscends(s);
    SortKeeps(s);
    var t := Sort(s);
    forall x
      ensures x in t <==> x in s
    {
      InMultiset(x, t, s);
    }
    SameCategories(items, m);
    PruneMembers(t, m);
    hide Sort, CategIdxs, Prune;
    if m in Prune(t) {
      var i :| 0 <= i < |t| && t[i] == m && Kept(t, i);
      NextFollows(t, i);
      assert Follows(s, m, t[i + 1]);
    }
    if n :| Follows(s, m, n) {
      assert Follows(t, m, n);
      var i :| 0 <= i < |t| && t[i] == m;
      FollowedIsKept(t, i, n);
    }
  }

  lemma PlaceOf(t: seq<Member>, i: nat, j: nat)
    requires Ascending(t) && (forall x | x in t :: !IsDM(x)) && i < |t| && j < |t|
    ensures Less(t[i], t[j]) <==> i < j
  {
    assert t[i] in t && t[j] in t;
    StrictTotalOrder(t[i], t[j], t[i]);
    hide Less;
  }

  lemma NextFollows(t: seq<Member>, i: nat)
    requires Ascending(t) && (forall x | x in t :: !IsDM(x)) && i < |t| && IsCategory(t[i]) && Kept(t, i)
    ensures i + 1 < |t| && Follows(t, t[i], t[i + 1])
  {
    hide Less;
    forall d | d in t && IsCategory(d)
      ensures !(Less(t[i], d) && Less(d, t[i + 1]))
    {
      var j :| 0 <= j < |t| && t[j] == d;
      PlaceOf(t, i, j);
      PlaceOf(t, j, i + 1);
    }
  }

  lemma FollowedIsKept(t: seq<Member>, i: nat, n: Member)
    requires Ascending(t) && (forall x | x in t :: !IsDM(x)) && i < |t| && IsCategory(t[i]) && Follows(t, t[i], n)
    ensures Kept(t, i)
  {
    hide Less;
    var q :| 0 <= q < |t| && t[q] == n;
    PlaceOf(t, i, q);
    if i + 1 < q {
      assert t[i + 1] in t;
      PlaceOf(t, i + 1, q);
      PlaceOf(t, i, i + 1);
    }
  }

  /** Indexing changes neither the categories nor whose the channels are. */
  lemma SameCategories(items: seq<Member>, m: Member)
    requires IsCategory(m)
    ensures var s := IndexedAll(items, CategIdxs(items));
      (m in s <==> m in items) && (HasChannel(s, m.id) <==> HasChannel(items, m.id))
  {
    hide CategIdxs;
    var s := IndexedAll(items, CategIdxs(items));
    if m in s {
      var i :| 0 <= i < |s| && s[i] == m;
      assert items[i] in items;
    }
    if m in items {
      var i :| 0 <= i < |s| && items[i] == m;
      assert s[i] in s;
    }
    if HasChannel(s, m.id) {
      var n :| n in s && Under(n, m.id);
      var i :| 0 <= i < |s| && s[i] == n;
      assert items[i] in items && Under(items[i], m.id);
    }
    if HasChannel(items, m.id) {
      var n :| n in items && Under(n, m.id);
      var i :| 0 <= i < |s| && items[i] == n;
      assert s[i] in s && Under(s[i], m.id);
    }
  }

  lemma SameChannels(s: seq<Member>, t: seq<Member>, c: Snowflake)
    requires multiset(s) == multiset(t)
    ensures HasChannel(s, c) <==> HasChannel(t, c)
  {
    if HasChannel(s, c) {
      var n :| n in s && Under(n, c);
      InMultiset(n, s, t);
    }
    if HasChannel(t, c) {
      var n :| n in t && Under(n, c);
      InMultiset(n, s, t);
    }
  }

  // ----- in figures -----

  /** What a channel's entry shows of its category: the category's position, or 0 if it is not listed. */
  lemma IndexForm(items: seq<Member>, i: nat)
    requires DistinctIds(items) && i < |items|
    ensures var s := IndexedAll(items, CategIdxs(items));
      && |s| == |items|
      && (items[i].kind == Category ==> s[i] == items[i])
      && (items[i].kind != Category ==>
            && s[i] == items[i].(categIndex := s[i].categIndex)
            && (forall k | k in items && k.kind == Category && k.id == items[i].category :: s[i].categIndex == k.categIndex)
            && ((forall k | k in items && k.kind == Category :: k.id != items[i].category) ==> s[i].categIndex == 0))
  {
    IdxsAre(items, items[i].category);
    hide CategIdxs;
    var c := items[i].category;
    forall k | k in items && k.kind == Category && k.id == c
      ensures IsCategoryNamed(k, c)
    {
    }
  }

  /** Two entries of an ascending list without direct messages, field by field: by the position of the
      category, then by the category, the category itself in front, then text before voice, then by
      position, then by identifier. */
  lemma FieldOrder(r: seq<Member>, i: nat, j: nat)
    requires Ascending(r) && i < j < |r| && r[i].kind != DM && r[i].kind != GroupDM
    ensures var a, b := r[i], r[j];
      && a.categIndex <= b.categIndex
      && (a.categIndex == b.categIndex ==> a.category <= b.category)
      && (a.categIndex == b.categIndex && a.category == b.category ==>
            && (b.kind == Category ==> a.kind == Category)
            && (a.kind == Voice || a.kind == StageVoice ==> b.kind == Voice || b.kind == StageVoice)
            && (a.kind != Category && ((a.kind == Voice || a.kind == StageVoice) <==> (b.kind == Voice || b.kind == StageVoice)) ==>
                  a.pos <= b.pos && (a.pos == b.pos ==> a.id < b.id)))
  {
    assert Less(r[i], r[j]);
  }

  /** That is the order of any server's committed list. */
  lemma CommittedOrder(items: seq<Member>, i: nat, j: nat)
    requires Roster(items) && i < j < |Committed(items)|
    ensures var a, b := Committed(items)[i], Committed(items)[j];
      && a.categIndex <= b.categIndex
      && (a.categIndex == b.categIndex ==> a.category <= b.category)
      && (a.categIndex == b.categIndex && a.category == b.category ==>
            && (b.kind == Category ==> a.kind == Category)
            && (a.kind == Voice || a.kind == StageVoice ==> b.kind == Voice || b.kind == StageVoice)
            && (a.kind != Category && ((a.kind == Voice || a.kind == StageVoice) <==> (b.kind == Voice || b.kind == StageVoice)) ==>
                  a.pos <= b.pos && (a.pos == b.pos ==> a.id < b.id)))
  {
    CommittedList(items);
    NoMessages(items, i);
    hide *;
    FieldOrder(Committed(items), i, j);
  }

  /** A server's list has no direct messages. */
  lemma NoMessages(items: seq<Member>, i: nat)
    requires Roster(items) && i < |Committed(items)|
    ensures !IsDM(Committed(items)[i])
    ensures Committed(items)[i].kind != DM && Committed(items)[i].kind != GroupDM
  {
    var s := IndexedAll(items, CategIdxs(items));
    var t := Sort(s);
    PruneMembers(t, Prune(t)[i]);
    assert Prune(t)[i] in Prune(t);
    SortKeeps(s);
    InMultiset(Prune(t)[i], t, s);
    hide Prune, Sort, CategIdxs;
    var k :| 0 <= k < |s| && s[k] == Committed(items)[i];
    assert items[k] in items;
  }

  /** Direct messages on their own: the newest first, and all of them stay. */
  lemma MessageOrder(items: seq<Member>)
    requires DistinctIds(items) && forall m | m in items :: m.kind == DM || m.kind == GroupDM
    ensures var r := Committed(items);
      && (forall i, j :: 0 <= i < j < |r| ==> r[i].lastMessage >= r[j].lastMessage)
      && multiset(r) == multiset(IndexedAll(items, CategIdxs(items)))
  {
    var s := IndexedAll(items, CategIdxs(items));
    MessagesIndexed(items);
    SortAscends(s);
    SortKeeps(s);
    var t := Sort(s);
    forall m | m in t
      ensures IsDM(m)
    {
      InMultiset(m, t, s);
    }
    NothingPruned(t);
    hide Sort, CategIdxs, Prune;
    forall i, j | 0 <= i < j < |t|
      ensures t[i].lastMessage >= t[j].lastMessage
    {
      assert t[i] in t && Less(t[i], t[j]);
    }
  }

  lemma MessagesIndexed(items: seq<Member>)
    requires DistinctIds(items) && forall m | m in items :: m.kind == DM || m.kind == GroupDM
    ensures var s := IndexedAll(items, CategIdxs(items)); DistinctIds(s) && forall m | m in s :: IsDM(m)
  {
    hide CategIdxs;
    var s := IndexedAll(items, CategIdxs(items));
    forall m | m in s
      ensures IsDM(m)
    {
      var i :| 0 <= i < |s| && s[i] == m;
      assert items[i] in items;
    }
  }

  lemma {:induction false} NothingPruned(t: seq<Member>)
    requires forall m | m in t :: !IsCategory(m)
    ensures Prune(t) == t
  {
    if t != [] {
      assert t[0] in t;
      NothingPruned(t[1..]);
      assert t == [t[0]] + t[1..];
    }
  }

  // ----- where it goes wrong -----

  /** A channel whose parent is not listed hides that the category in front of it is empty. */
  lemma UnlistedParent()
    ensures var c, n := Member(5, 5, Category, "", 0, 0, 0), Member(7, 9, Text, "", 0, 0, 0);
      Committed([c, n]) == [c, n] && !HasChannel([c, n], c.id)
  {
    var c, n := Member(5, 5, Category, "", 0, 0, 0), Member(7, 9, Text, "", 0, 0, 0);
    TwoCommitted(c, n, map[5 := 0]);
  }

  /** So does a channel without a category behind an empty category at a negative position. */
  lemma NegativePosition()
    ensures var c, n := Member(5, 5, Category, "", -1, -1, 0), Member(0, 9, Text, "", 0, 0, 0);
      Committed([c, n]) == [c, n] && !HasChannel([c, n], c.id)
  {
    var c, n := Member(5, 5, Category, "", -1, -1, 0), Member(0, 9, Text, "", 0, 0, 0);
    TwoCommitted(c, n, map[5 := -1]);
  }

  lemma TwoCommitted(c: Member, n: Member, idxs: map<Snowflake, int>)
    requires IsCategory(c) && !IsCategory(n) && idxs == map[c.id := c.categIndex]
    requires Indexed(n, idxs) == n && Less(c, n)
    ensures Committed([c, n]) == [c, n]
  {
    assert [c, n][..1] == [c] && [c][..0] == [] && [c, n][1..] == [n] && [n][1..] == [];
    assert CategIdxs([c]) == idxs;
    assert |[c, n]| == 2 && [c, n][|[c, n]| - 1] == n && [c, n][..|[c, n]| - 1] == [c];
    assert CategIdxs([c, n]) == idxs;
    hide Less;
    assert IndexedAll([c, n], idxs) == [c, n];
    assert Sort([n]) == [n];
    assert Sort([c, n]) == [c, n];
    assert Prune([n]) == [n];
  }
}
