/** Filling and committing the channel list: category indices, the sort, and the loop that removes
    empty categories in place. */
module ChannelList {
  import opened ChannelOrder

  /** A channel as the list is told of it; ParseChannel makes a category its own parent. */
  datatype Channel = Channel(parent: Snowflake, id: Snowflake, kind: Kind, name: string, pos: int, lastMessage: Snowflake, visible: bool)

  // ----- what committing computes -----

  /** The positions of the categories, by identifier. */
  function CategIdxs(items: seq<Member>): map<Snowflake, int> {
    if items == [] then map[]
    else
      var m, front := items[|items| - 1], CategIdxs(items[..|items| - 1]);
      if IsCategory(m) then front[m.id := m.categIndex] else front
  }

  /** An entry with its category's position; 0 if there is no such category. */
  function Indexed(m: Member, idxs: map<Snowflake, int>): Member {
    if IsCategory(m) then m else m.(categIndex := if m.category in idxs then idxs[m.category] else 0)
  }

  function IndexedAll(items: seq<Member>, idxs: map<Snowflake, int>): (r: seq<Member>)
    ensures |r| == |items| && forall i :: 0 <= i < |items| ==> r[i] == Indexed(items[i], idxs)
  {
    if items == [] then [] else [Indexed(items[0], idxs)] + IndexedAll(items[1..], idxs)
  }

  /** Without the categories that are followed by another, or by nothing. */
  function Prune(s: seq<Member>): seq<Member> {
    if s == [] then []
    else if IsCategory(s[0]) && (|s| == 1 || IsCategory(s[1])) then Prune(s[1..])
    else [s[0]] + Prune(s[1..])
  }

  function Committed(items: seq<Member>): seq<Member> {
    Prune(Sort(IndexedAll(items, CategIdxs(items))))
  }

  // ----- the list -----

  class ChannelView {
    var items: seq<Member>

    constructor ()
      ensures items == []
    {
      items := [];
    }

    /** AddChannel: an invisible channel is left out, an invisible category is not. */
    method AddChannel(ch: Channel)
      modifies this
      ensures items == old(items) +
        if !ch.visible && ch.kind != Category then []
        else [Member(ch.parent, ch.id, ch.kind, ch.name, if ch.kind == Category then ch.pos else 0, ch.pos, ch.lastMessage)]
    {
      if !ch.visible {
        if ch.kind != Category {
          return;
        }
      }
      var categIndex := if ch.kind == Category then ch.pos else 0;
      items := items + [Member(ch.parent, ch.id, ch.kind, ch.name, categIndex, ch.pos, ch.lastMessage)];
    }

    /** CommitChannels. */
    method CommitChannels()
      modifies this
      ensures items == Committed(old(items))
    {
      hide Sort, Prune, Indexed;
      var categIdxs: map<Snowflake, int> := map[];
      for i := 0 to |items|
        invariant items == old(items) && categIdxs == CategIdxs(items[..i])
      {
        assert items[..i + 1][..i] == items[..i];
        if IsCategory(items[i]) {
          categIdxs := categIdxs[items[i].id := items[i].categIndex];
        }
      }
      assert items[..|items|] == items;
      SetIndices(categIdxs);
      items := Sort(items);
      RemoveEmpty();
    }

    /** Gives every channel its category's position. */
    method SetIndices(categIdxs: map<Snowflake, int>)
      modifies this
      ensures items == IndexedAll(old(items), categIdxs)
    {
      ghost var was := items;
      for i := 0 to |items|
        invariant |items| == |was|
        invariant forall j :: 0 <= j < i ==> items[j] == Indexed(was[j], categIdxs)
        invariant forall j :: i <= j < |was| ==> items[j] == was[j]
      {
        if !IsCategory(items[i]) {
          var index := if items[i].category in categIdxs then categIdxs[items[i].category] else 0;
          items := items[i := items[i].(categIndex := index)];
        }
      }
    }

    /** Removes empty categories; the index stays where an entry was removed. */
    method RemoveEmpty()
      modifies this
      ensures items == Prune(old(items))
    {
      var i := 0;
      assert items[0..] == items;
      while i < |items|
        invariant i <= |items| && items[..i] + Prune(items[i..]) == Prune(old(items))
        decreases |items| - i
      {
        PruneStep(items, i);
        if IsCategory(items[i]) && (i + 1 >= |items| || IsCategory(items[i + 1])) {
          ghost var was := items;
          items := items[..i] + items[i + 1..];
          assert items[..i] == was[..i] && items[i..] == was[i + 1..];
        } else {
          i := i + 1;
        }
      }
      assert items[..i] == items;
    }

    lemma PruneStep(s: seq<Member>, i: nat)
      requires i < |s|
      ensures s[..i] + Prune(s[i..]) ==
        if IsCategory(s[i]) && (i + 1 >= |s| || IsCategory(s[i + 1])) then s[..i] + Prune(s[i + 1..])
        else s[..i + 1] + Prune(s[i + 1..])
    {
      assert s[i..][1..] == s[i + 1..] && s[..i + 1] == s[..i] + [s[i]];
    }
  }
}
