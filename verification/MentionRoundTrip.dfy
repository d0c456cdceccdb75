/** Resolving a message and turning it back gives the message. */
module MentionRoundTrip {
  import opened Bytes
  import opened Mentions
  import opened Strings

  /** Text that holds no brackets of its own. */
  predicate Bare(s: string) { forall c | c in s :: !IsBracket(c) }

  // ----- turning back, piece by piece -----

  lemma {:induction false} ReverseText(a: string, b: string, names: Names)
    requires Bare(a)
    ensures Reverse(a + b, names, false) == a + Reverse(b, names, false)
    decreases |a|
  {
    hide Reverse;
    if a == "" {
      assert a + b == b;
      assert "" + Reverse(b, names, false) == Reverse(b, names, false);
    } else {
      assert a[0] in a && forall c | c in a[1..] :: c in a;
      ReverseText(a[1..], b, names);
      assert (a + b)[0] == a[0] && (a + b)[1..] == a[1..] + b;
      ReverseChar(a + b, names, false);
      Assoc([a[0]], a[1..], Reverse(b, names, false));
      assert a == [a[0]] + a[1..];
    }
  }

  lemma {:induction false} BracketAfter(inner: string, b: string)
    requires Bare(inner)
    ensures ToBracket(inner + ">" + b) == |inner|
  {
    if inner != "" {
      assert inner[0] in inner && forall c | c in inner[1..] :: c in inner;
      BracketAfter(inner[1..], b);
      assert (inner + ">" + b)[1..] == inner[1..] + ">" + b;
    }
  }

  lemma ReverseMention(inner: string, b: string, names: Names)
    requires Bare(inner) && |inner| >= 2 && Decode(inner, names, false).Some?
    ensures Reverse("<" + inner + ">" + b, names, false) == Decode(inner, names, false).value + Reverse(b, names, false)
  {
    var s := "<" + inner + ">" + b;
    hide Reverse, Decode, ToBracket, Bare;
    assert s[1..] == inner + ">" + b;
    BracketAfter(inner, b);
    assert s[1..|inner| + 1] == inner && s[|inner| + 2..] == b;
    ReverseOpen(s, names, false);
  }

  // ----- a candidate is shown as it was typed -----

  /** What is shown for a candidate is what was matched. */
  predicate ShowsAs(names: Names, mark: char, c: Candidate) {
    if mark == '@' then "@" + (if c.isRole then names.role(c.id) else names.user(c.id)) == c.text
    else if mark == '#' then
      var chan := names.channel(c.id);
      chan.Some? && chan.value.symbol + chan.value.name == c.text
    else names.emoji.Some? && c.id in names.emoji.value ==> ":" + names.emoji.value[c.id] + ":" == c.text
  }

  /** Everything that may be mentioned is shown under the name it is matched by. */
  predicate ShowsAll(ctx: Context, names: Names) {
    && (forall c | c in Candidates(ctx, '@') && c.id != 0 :: c.id < LIMIT && ShowsAs(names, '@', c))
    && (forall c | c in Candidates(ctx, '#') && c.id != 0 :: c.id < LIMIT && ShowsAs(names, '#', c))
    && (forall c | c in Candidates(ctx, ':') && c.id != 0 :: c.id < LIMIT && ShowsAs(names, ':', c))
  }

  /** The form of candidates. */
  predicate Shape(mark: char, c: Candidate) {
    if mark == ':' then c.text == c.meta + ":" && c.meta != "" && c.meta[0] == ':' && !c.isRole
    else c.meta == "" && (mark == '#' ==> !c.isRole)
  }

  lemma {:induction false} UsersShape(ms: seq<Member>)
    ensures forall c | c in Users(ms) :: Shape('@', c)
  {
    if ms != [] {
      UsersShape(ms[..|ms| - 1]);
    }
  }

  lemma {:induction false} RolesShape(rs: seq<Role>, everyone: bool)
    ensures forall c | c in Roles(rs, everyone) :: Shape('@', c)
  {
    if rs != [] {
      RolesShape(rs[..|rs| - 1], everyone);
    }
  }

  lemma {:induction false} ChannelsShape(ns: seq<Named>)
    ensures forall c | c in Channels(ns) :: Shape('#', c)
  {
    if ns != [] {
      ChannelsShape(ns[..|ns| - 1]);
    }
  }

  lemma {:induction false} EmojiShape(ns: seq<Named>)
    ensures forall c | c in Emoji(ns) :: Shape(':', c)
  {
    if ns != [] {
      EmojiShape(ns[..|ns| - 1]);
    }
  }

  lemma CandidateShape(ctx: Context, mark: char, c: Candidate)
    requires IsMark(mark) && c in Candidates(ctx, mark)
    ensures Shape(mark, c)
  {
    if ctx.InGuild? {
      UsersShape(ctx.members);
      RolesShape(ctx.roles, ctx.mayMentionEveryone);
      ChannelsShape(ctx.channels);
      EmojiShape(ctx.emoji);
    } else if ctx.InDM? {
      UsersShape(ctx.recipients);
    }
    hide Users, Roles, Channels, Emoji, Shape;
  }

  function Inner(mark: char, c: Candidate): string {
    c.meta + [mark] + (if c.isRole then "&" else "") + ToString(c.id)
  }

  lemma WrittenIs(mark: char, c: Candidate)
    ensures Written(mark, c) == "<" + Inner(mark, c) + ">" && |Inner(mark, c)| >= 2
  {
    ToStringDigits(c.id);
    hide ToString;
  }

  lemma DecodeAt(c: Candidate, names: Names)
    requires c.id < LIMIT && Shape('@', c)
    ensures |Inner('@', c)| >= 2
    ensures Decode(Inner('@', c), names, false) == Some("@" + if c.isRole then names.role(c.id) else names.user(c.id))
  {
    var n := ToString(c.id);
    ToStringDigits(c.id);
    NumberReadsBack(c.id);
    assert n[0] in n;
    hide ToString, GetIntFromString;
    var inner := Inner('@', c);
    if c.isRole {
      assert inner[2..] == n;
    } else {
      assert inner[1..] == n;
    }
  }

  lemma DecodeHash(c: Candidate, names: Names)
    requires c.id < LIMIT && Shape('#', c) && names.channel(c.id).Some?
    ensures |Inner('#', c)| >= 2
    ensures Decode(Inner('#', c), names, false) == Some(names.channel(c.id).value.symbol + names.channel(c.id).value.name)
  {
    ToStringDigits(c.id);
    NumberReadsBack(c.id);
    hide ToString, GetIntFromString;
    assert Inner('#', c)[1..] == ToString(c.id);
  }

  lemma {:induction false} ColonAfter(a: string, b: string)
    requires ':' !in a
    ensures ToColon(a + ":" + b) == |a|
  {
    if a != "" {
      ColonAfter(a[1..], b);
      assert (a + ":" + b)[1..] == a[1..] + ":" + b;
    }
  }

  lemma DecodeColon(c: Candidate, names: Names)
    requires c.id < LIMIT && Shape(':', c) && ':' !in c.meta[1..]
    ensures |Inner(':', c)| >= 2
    ensures Decode(Inner(':', c), names, false) ==
      Some(if names.emoji.Some? && c.id in names.emoji.value then ":" + names.emoji.value[c.id] + ":" else c.text)
  {
    var n, inner := ToString(c.id), Inner(':', c);
    ToStringDigits(c.id);
    NumberReadsBack(c.id);
    hide ToString, GetIntFromString;
    assert inner[1..] == c.meta[1..] + ":" + n;
    ColonAfter(c.meta[1..], n);
    assert inner[|c.meta| + 1..] == n && inner[..|c.meta| + 1] == c.text;
    hide ToColon;
  }

  // ----- a mention there and back -----

  /** A piece that may be a mention: a mark in front, and no other but an emoji's closing colon. */
  predicate MentionPiece(p: string) {
    && p != "" && IsMark(p[0])
    && forall i :: 1 <= i < |p| ==> !IsMark(p[i]) || (p[0] == ':' && i == |p| - 1)
  }

  lemma BareInner(p: string, c: Candidate)
    requires Bare(p) && MentionPiece(p) && c.text <= p && Shape(p[0], c)
    ensures Bare(Inner(p[0], c)) && (p[0] == ':' ==> ':' !in c.meta[1..])
  {
    ToStringDigits(c.id);
    hide ToString;
    assert forall i :: 0 <= i < |c.text| ==> c.text[i] == p[i] && p[i] in p;
    if p[0] == ':' {
      assert forall i :: 0 <= i < |c.meta| ==> c.meta[i] == c.text[i];
    }
  }

  lemma MatchedShown(p: string, c: Candidate, names: Names)
    requires Bare(p) && MentionPiece(p) && c.text <= p && Shape(p[0], c) && c.id < LIMIT && ShowsAs(names, p[0], c)
    ensures Bare(Inner(p[0], c)) && |Inner(p[0], c)| >= 2
    ensures Decode(Inner(p[0], c), names, false) == Some(c.text)
  {
    BareInner(p, c);
    hide Inner, Decode, Shape;
    if p[0] == '@' {
      DecodeAt(c, names);
    } else if p[0] == '#' {
      DecodeHash(c, names);
    } else {
      DecodeColon(c, names);
    }
  }

  lemma MatchedBack(p: string, c: Candidate, b: string, names: Names)
    requires p != "" && Bare(p) && MentionPiece(p) && c.text <= p && Shape(p[0], c) && c.id < LIMIT && ShowsAs(names, p[0], c)
    ensures Reverse(Written(p[0], c) + p[|c.text|..] + b, names, false) == p + Reverse(b, names, false)
  {
    hide *;
    var rest := p[|c.text|..];
    BareRest(p, c);
    MatchedShown(p, c, names);
    WrittenIs(p[0], c);
    var inner := Inner(p[0], c);
    Assoc("<" + inner + ">", rest, b);
    ReverseMention(inner, rest + b, names);
    ReverseText(rest, b, names);
    Assoc(c.text, rest, Reverse(b, names, false));
  }

  lemma BareRest(p: string, c: Candidate)
    requires Bare(p) && MentionPiece(p) && c.text <= p
    ensures p != "" && IsMark(p[0]) && Bare(p[|c.text|..]) && p == c.text + p[|c.text|..]
  {
  }

  lemma BestShown(p: string, ctx: Context, names: Names, best: Candidate)
    requires p != "" && IsMark(p[0]) && ShowsAll(ctx, names) && best in Candidates(ctx, p[0]) && best.id != 0
    ensures Shape(p[0], best) && best.id < LIMIT && ShowsAs(names, p[0], best)
  {
    CandidateShape(ctx, p[0], best);
    hide ShowsAs, Shape, Candidates;
  }

  lemma TransformedBack(p: string, b: string, ctx: Context, names: Names)
    requires Bare(p) && MentionPiece(p) && ShowsAll(ctx, names)
    ensures Reverse(Transform(p, ctx) + b, names, false) == p + Reverse(b, names, false)
  {
    var best := Longest(Candidates(ctx, p[0]), p);
    hide ShowsAs, ShowsAll, Shape, Candidates, Longest, Reverse, Written;
    if best.id == 0 {
      ReverseText(p, b, names);
    } else {
      BestShown(p, ctx, names, best);
      MatchedBack(p, best, b, names);
    }
  }

  lemma SegmentIsPiece(s: string)
    requires s != "" && Segment(s).1
    ensures MentionPiece(s[..Segment(s).0])
  {
    var n := Segment(s).0;
    assert forall i :: 1 <= i < n ==> s[i] == s[1..][i - 1];
  }

  /** A message without brackets comes back unchanged when everything that may be mentioned in it is
      shown under the name it is matched by. */
  lemma {:induction false} ReverseResolve(s: string, ctx: Context, names: Names)
    requires Bare(s) && ShowsAll(ctx, names)
    ensures Reverse(Resolve(s, ctx), names, false) == s
    decreases |s|
  {
    if s != "" {
      var (n, mention) := Segment(s);
      var p, rest := s[..n], s[n..];
      assert Bare(p) && Bare(rest);
      assert s == p + rest;
      ReverseResolve(rest, ctx, names);
      if mention {
        SegmentIsPiece(s);
        hide Reverse, Transform, ShowsAll;
        TransformedBack(p, Resolve(rest, ctx), ctx, names);
      } else {
        hide Reverse, Transform, ShowsAll;
        ReverseText(p, Resolve(rest, ctx), names);
      }
    }
  }

  // ----- exactly when one mention comes back -----

  lemma DecodedAs(p: string, c: Candidate, names: Names)
    requires p != "" && Bare(p) && MentionPiece(p) && c.text <= p && Shape(p[0], c) && c.id < LIMIT
    ensures Bare(Inner(p[0], c)) && |Inner(p[0], c)| >= 2
    ensures ShowsAs(names, p[0], c) <==> Decode(Inner(p[0], c), names, false) == Some(c.text)
    ensures Decode(Inner(p[0], c), names, false) == None ==> p[0] == '#'
  {
    BareInner(p, c);
    hide Inner;
    if p[0] == '@' {
      DecodeAt(c, names);
    } else if p[0] == '#' {
      if names.channel(c.id).Some? {
        DecodeHash(c, names);
      } else {
        DecodeUnknown(c, names);
      }
    } else {
      DecodeColon(c, names);
    }
    hide Decode;
  }

  lemma DecodeUnknown(c: Candidate, names: Names)
    requires c.id < LIMIT && Shape('#', c) && names.channel(c.id) == None
    ensures |Inner('#', c)| >= 2 && Decode(Inner('#', c), names, false) == None
  {
    ToStringDigits(c.id);
    NumberReadsBack(c.id);
    hide ToString, GetIntFromString;
    assert Inner('#', c)[1..] == ToString(c.id);
  }

  lemma RefusedMention(inner: string, b: string, names: Names)
    requires Bare(inner) && |inner| >= 2 && Decode(inner, names, false) == None
    ensures Reverse("<" + inner + ">" + b, names, false) != "" && Reverse("<" + inner + ">" + b, names, false)[0] == '<'
  {
    var s := "<" + inner + ">" + b;
    assert s[1..] == inner + ">" + b;
    BracketAfter(inner, b);
    assert s[1..|inner| + 1] == inner;
    hide Reverse, Decode, ToBracket;
    ReverseOpen(s, names, false);
  }

  /** A single mention that was matched comes back as it was typed exactly if the match is shown under
      the name it was matched by. */
  lemma MatchComesBack(p: string, c: Candidate, names: Names)
    requires p != "" && Bare(p) && MentionPiece(p) && c.text <= p && Shape(p[0], c) && c.id < LIMIT
    ensures Reverse(Written(p[0], c) + p[|c.text|..], names, false) == p <==> ShowsAs(names, p[0], c)
  {
    hide *;
    var rest, inner := p[|c.text|..], Inner(p[0], c);
    BareRest(p, c);
    DecodedAs(p, c, names);
    WrittenIs(p[0], c);
    var shown := Decode(inner, names, false);
    if shown == None {
      RefusedMention(inner, rest, names);
    } else {
      ReverseMention(inner, rest, names);
      ReverseText(rest, "", names);
      NothingLeft(rest, names);
      Cancel(shown.value, c.text, rest);
    }
  }

  lemma NothingLeft(rest: string, names: Names)
    ensures rest + "" == rest && rest + Reverse("", names, false) == rest
  {
  }

  lemma Cancel(a: string, b: string, rest: string)
    ensures a + rest == b + rest <==> a == b
  {
    if a + rest == b + rest {
      assert a == (a + rest)[..|a|] && b == (b + rest)[..|b|];
    }
  }
}
