/** What a typed mention becomes, said of the lists of members, roles, channels and emoji themselves. */
module MentionMatches {
  import opened Mentions

  // ----- the first of the longest -----

  /** The candidate at i is taken: it fits, is longer than those that fit before it, and no shorter than
      those behind it. */
  predicate TakenAt(cs: seq<Candidate>, source: string, i: nat)
    requires i < |cs|
  {
    && cs[i].text <= source
    && (forall j :: 0 <= j < i && cs[j].text <= source ==> |cs[j].text| < |cs[i].text|)
    && (forall j :: i < j < |cs| && cs[j].text <= source ==> |cs[j].text| <= |cs[i].text|)
  }

  lemma {:induction false} FirstLongest(cs: seq<Candidate>, source: string) returns (i: nat)
    requires forall c | c in cs :: c.text != ""
    ensures i < |cs| ==> Longest(cs, source) == cs[i] && TakenAt(cs, source, i)
    ensures i >= |cs| ==> Longest(cs, source) == NoMatch() && forall c | c in cs :: !(c.text <= source)
  {
    if cs == [] {
      i := 0;
    } else {
      var front, c := cs[..|cs| - 1], cs[|cs| - 1];
      assert c in cs && forall d | d in front :: d in cs;
      i := FirstLongest(front, source);
      var best := Longest(front, source);
      LongestStep(cs, source);
      FrontShorter(front, source);
      assert cs == front + [c];
      hide Longest, TakenAt;
      if c.text <= source && |c.text| > |best.text| {
        i := |cs| - 1;
        LastTaken(front, c, source, best);
      } else if i < |front| {
        StillTaken(front, c, source, i);
      } else {
        i := |cs|;
      }
    }
  }

  lemma LongestStep(cs: seq<Candidate>, source: string)
    requires cs != []
    ensures var best, c := Longest(cs[..|cs| - 1], source), cs[|cs| - 1];
      Longest(cs, source) == if c.text <= source && |c.text| > |best.text| then c else best
  {
  }

  lemma LastTaken(front: seq<Candidate>, c: Candidate, source: string, best: Candidate)
    requires c.text <= source && |c.text| > |best.text|
    requires forall j :: 0 <= j < |front| && front[j].text <= source ==> |front[j].text| <= |best.text|
    ensures TakenAt(front + [c], source, |front|)
  {
  }

  lemma StillTaken(front: seq<Candidate>, c: Candidate, source: string, i: nat)
    requires i < |front| && TakenAt(front, source, i) && (c.text <= source ==> |c.text| <= |front[i].text|)
    ensures TakenAt(front + [c], source, i)
  {
  }

  lemma FrontShorter(cs: seq<Candidate>, source: string)
    ensures forall j :: 0 <= j < |cs| && cs[j].text <= source ==> |cs[j].text| <= |Longest(cs, source).text|
  {
    assert forall j :: 0 <= j < |cs| ==> cs[j] in cs;
    hide Longest;
  }

  // ----- the lists -----

  lemma {:induction false} UsersAre(ms: seq<Member>)
    ensures |Users(ms)| == |ms|
    ensures forall i :: 0 <= i < |ms| ==> Users(ms)[i] == Candidate("@" + ms[i].username, ms[i].id, "", false)
  {
    if ms != [] {
      UsersAre(ms[..|ms| - 1]);
    }
  }

  lemma {:induction false} ChannelsAre(ns: seq<Named>)
    ensures |Channels(ns)| == |ns|
    ensures forall i :: 0 <= i < |ns| ==> Channels(ns)[i] == Candidate("#" + ns[i].name, ns[i].id, "", false)
  {
    if ns != [] {
      ChannelsAre(ns[..|ns| - 1]);
    }
  }

  lemma {:induction false} EmojiAre(ns: seq<Named>)
    ensures |Emoji(ns)| == |ns|
    ensures forall i :: 0 <= i < |ns| ==> Emoji(ns)[i] == Candidate(":" + ns[i].name + ":", ns[i].id, ":" + ns[i].name, false)
  {
    if ns != [] {
      EmojiAre(ns[..|ns| - 1]);
    }
  }

  /** A role may be mentioned if it says so, or by who may mention everyone. */
  predicate Allowed(r: Role, everyone: bool) { r.mentionable || everyone }

  /** How many of the first roles may be mentioned. */
  function Rank(rs: seq<Role>, everyone: bool, j: nat): (k: nat)
    requires j <= |rs|
  {
    if j == 0 then 0 else Rank(rs, everyone, j - 1) + if Allowed(rs[j - 1], everyone) then 1 else 0
  }

  lemma {:induction false} RankGrows(rs: seq<Role>, everyone: bool, i: nat, j: nat)
    requires i <= j <= |rs|
    ensures Rank(rs, everyone, i) <= Rank(rs, everyone, j)
    ensures i < j && Allowed(rs[i], everyone) ==> Rank(rs, everyone, i) < Rank(rs, everyone, j)
    decreases j
  {
    if i < j {
      RankGrows(rs, everyone, i, j - 1);
    }
  }

  lemma {:induction false} RolesAre(rs: seq<Role>, everyone: bool, n: nat)
    requires n <= |rs|
    ensures |Roles(rs[..n], everyone)| == Rank(rs, everyone, n)
    ensures forall j :: 0 <= j < n && Allowed(rs[j], everyone) ==>
      Rank(rs, everyone, j) < Rank(rs, everyone, n)
      && Roles(rs[..n], everyone)[Rank(rs, everyone, j)] == Candidate("@" + rs[j].name, rs[j].id, "", true)
    decreases n
  {
    if n > 0 {
      RolesAre(rs, everyone, n - 1);
      assert rs[..n][..n - 1] == rs[..n - 1];
      forall j | 0 <= j < n - 1 && Allowed(rs[j], everyone)
        ensures Rank(rs, everyone, j) < Rank(rs, everyone, n)
      {
        RankGrows(rs, everyone, j, n);
      }
    }
  }

  lemma {:induction false} RoleAt(rs: seq<Role>, everyone: bool, n: nat, k: nat) returns (j: nat)
    requires n <= |rs| && k < Rank(rs, everyone, n)
    ensures j < n && Allowed(rs[j], everyone) && Rank(rs, everyone, j) == k
    decreases n
  {
    if k < Rank(rs, everyone, n - 1) {
      j := RoleAt(rs, everyone, n - 1, k);
    } else {
      j := n - 1;
    }
  }

  // ----- who wins -----

  /** The i-th member is meant: of all members and roles that fit, none is typed longer, and no member
      before it as long. */
  predicate UserWins(ms: seq<Member>, rs: seq<Role>, everyone: bool, source: string, i: nat) {
    && i < |ms| && "@" + ms[i].username <= source
    && (forall j :: 0 <= j < i && "@" + ms[j].username <= source ==> |ms[j].username| < |ms[i].username|)
    && (forall j :: i < j < |ms| && "@" + ms[j].username <= source ==> |ms[j].username| <= |ms[i].username|)
    && (forall j :: 0 <= j < |rs| && (rs[j].mentionable || everyone) && "@" + rs[j].name <= source ==> |rs[j].name| <= |ms[i].username|)
  }

  /** The i-th role is meant: it may be mentioned and is typed longer than every member that fits and
      every such role before it, and no shorter than those behind it. */
  predicate RoleWins(ms: seq<Member>, rs: seq<Role>, everyone: bool, source: string, i: nat) {
    && i < |rs| && (rs[i].mentionable || everyone) && "@" + rs[i].name <= source
    && (forall j :: 0 <= j < |ms| && "@" + ms[j].username <= source ==> |ms[j].username| < |rs[i].name|)
    && (forall j :: 0 <= j < i && (rs[j].mentionable || everyone) && "@" + rs[j].name <= source ==> |rs[j].name| < |rs[i].name|)
    && (forall j :: i < j < |rs| && (rs[j].mentionable || everyone) && "@" + rs[j].name <= source ==> |rs[j].name| <= |rs[i].name|)
  }

  /** The i-th of the names, typed between these, is meant. */
  predicate NameWins(ns: seq<Named>, open: string, close: string, source: string, i: nat) {
    && i < |ns| && open + ns[i].name + close <= source
    && (forall j :: 0 <= j < i && open + ns[j].name + close <= source ==> |ns[j].name| < |ns[i].name|)
    && (forall j :: i < j < |ns| && open + ns[j].name + close <= source ==> |ns[j].name| <= |ns[i].name|)
  }

  /** What is sent: the identifier in brackets and the rest as typed, or all as typed for the identifier 0. */
  function Sent(open: string, id: Snowflake, source: string, typed: nat): string
    requires typed <= |source|
  {
    if id == 0 then source else open + ToString(id) + ">" + source[typed..]
  }

  lemma UserTaken(ms: seq<Member>, rs: seq<Role>, everyone: bool, source: string, i: nat)
    requires i < |ms|
    requires var cs := Users(ms) + Roles(rs, everyone); |cs| >= |ms| && TakenAt(cs, source, i)
    ensures UserWins(ms, rs, everyone, source, i)
  {
    var cs := Users(ms) + Roles(rs, everyone);
    UsersAre(ms);
    RolesAre(rs, everyone, |rs|);
    assert rs[..|rs|] == rs;
    hide Users, Roles, Rank;
    forall j | 0 <= j < |ms|
      ensures cs[j] == Candidate("@" + ms[j].username, ms[j].id, "", false)
    {
    }
    forall j | 0 <= j < |rs| && (rs[j].mentionable || everyone) && "@" + rs[j].name <= source
      ensures |rs[j].name| <= |ms[i].username|
    {
      assert cs[|ms| + Rank(rs, everyone, j)] == Candidate("@" + rs[j].name, rs[j].id, "", true);
    }
  }

  /** Where the members and the roles that may be mentioned stand among the candidates. */
  ghost predicate Lined(ms: seq<Member>, rs: seq<Role>, everyone: bool, cs: seq<Candidate>) {
    && |cs| == |ms| + Rank(rs, everyone, |rs|)
    && (forall j :: 0 <= j < |ms| ==> cs[j] == Candidate("@" + ms[j].username, ms[j].id, "", false))
    && forall j :: 0 <= j < |rs| && Allowed(rs[j], everyone) ==>
         Rank(rs, everyone, j) < Rank(rs, everyone, |rs|)
         && cs[|ms| + Rank(rs, everyone, j)] == Candidate("@" + rs[j].name, rs[j].id, "", true)
  }

  lemma LinedUp(ms: seq<Member>, rs: seq<Role>, everyone: bool)
    ensures Lined(ms, rs, everyone, Users(ms) + Roles(rs, everyone))
  {
    UsersAre(ms);
    RolesAre(rs, everyone, |rs|);
    assert rs[..|rs|] == rs;
    hide Users, Roles, Rank;
  }

  lemma RoleTaken(ms: seq<Member>, rs: seq<Role>, everyone: bool, source: string, k: nat) returns (i: nat)
    requires var cs := Users(ms) + Roles(rs, everyone); |ms| + k < |cs| && TakenAt(cs, source, |ms| + k)
    ensures RoleWins(ms, rs, everyone, source, i)
    ensures (Users(ms) + Roles(rs, everyone))[|ms| + k] == Candidate("@" + rs[i].name, rs[i].id, "", true)
  {
    LinedUp(ms, rs, everyone);
    hide Users, Roles, Rank;
    i := RoleAt(rs, everyone, |rs|, k);
    RoleBeats(ms, rs, everyone, Users(ms) + Roles(rs, everyone), source, i);
  }

  lemma RoleBeats(ms: seq<Member>, rs: seq<Role>, everyone: bool, cs: seq<Candidate>, source: string, i: nat)
    requires Lined(ms, rs, everyone, cs) && i < |rs| && Allowed(rs[i], everyone)
    requires TakenAt(cs, source, |ms| + Rank(rs, everyone, i))
    ensures RoleWins(ms, rs, everyone, source, i)
  {
    hide Rank;
    forall j | 0 <= j < |rs| && (rs[j].mentionable || everyone) && "@" + rs[j].name <= source
      ensures if j < i then |rs[j].name| < |rs[i].name| else |rs[j].name| <= |rs[i].name|
    {
      assert Allowed(rs[j], everyone);
      if j < i {
        RankGrows(rs, everyone, j, i);
      } else {
        RankGrows(rs, everyone, i, j);
      }
    }
  }

  /** What becomes of "@": a member wins, or a role, or nothing fits. */
  ghost predicate AtSent(ms: seq<Member>, rs: seq<Role>, everyone: bool, source: string, r: string) {
    || (exists i: nat :: UserWins(ms, rs, everyone, source, i) && r == Sent("<@", ms[i].id, source, 1 + |ms[i].username|))
    || (exists i: nat :: RoleWins(ms, rs, everyone, source, i) && r == Sent("<@&", rs[i].id, source, 1 + |rs[i].name|))
    || ((forall m | m in ms :: !("@" + m.username <= source))
        && (forall p | p in rs :: p.mentionable || everyone ==> !("@" + p.name <= source)) && r == source)
  }

  lemma NothingFits(ms: seq<Member>, rs: seq<Role>, everyone: bool, source: string)
    requires forall c | c in Users(ms) + Roles(rs, everyone) :: !(c.text <= source)
    ensures forall m | m in ms :: !("@" + m.username <= source)
    ensures forall p | p in rs :: p.mentionable || everyone ==> !("@" + p.name <= source)
  {
    var cs := Users(ms) + Roles(rs, everyone);
    LinedUp(ms, rs, everyone);
    hide Users, Roles, Rank;
    forall m | m in ms
      ensures !("@" + m.username <= source)
    {
      var i :| 0 <= i < |ms| && ms[i] == m;
      assert cs[i] in cs && cs[i].text == "@" + m.username;
    }
    forall p | p in rs
      ensures p.mentionable || everyone ==> !("@" + p.name <= source)
    {
      var j :| 0 <= j < |rs| && rs[j] == p;
      if p.mentionable || everyone {
        assert Allowed(rs[j], everyone);
        var c := cs[|ms| + Rank(rs, everyone, j)];
        assert c in cs && c.text == "@" + p.name;
      }
    }
  }

  lemma NamesNotEmpty(ms: seq<Member>, rs: seq<Role>, everyone: bool)
    ensures forall c | c in Users(ms) + Roles(rs, everyone) :: c.text != ""
  {
    UsersAre(ms);
    RolesNotEmpty(rs, everyone);
    hide Users, Roles;
  }

  lemma {:induction false} RolesNotEmpty(rs: seq<Role>, everyone: bool)
    ensures forall c | c in Roles(rs, everyone) :: c.text != "" && c.meta == "" && c.isRole
  {
    if rs != [] {
      RolesNotEmpty(rs[..|rs| - 1], everyone);
    }
  }

  /** Transform for a candidate that was found, and for none. */
  lemma TransformOf(source: string, ctx: Context, cs: seq<Candidate>)
    requires source != "" && Candidates(ctx, source[0]) == cs
    ensures var best := Longest(cs, source);
      && best.text <= source
      && Transform(source, ctx) ==
        if best.id == 0 then source
        else "<" + best.meta + [source[0]] + (if best.isRole then "&" else "") + ToString(best.id) + ">" + source[|best.text|..]
  {
    hide Longest, Candidates, ToString;
  }

  lemma AtSentBy(ms: seq<Member>, rs: seq<Role>, everyone: bool, source: string, best: Candidate, r: string)
    requires source != "" && source[0] == '@' && best == Longest(Users(ms) + Roles(rs, everyone), source) && best.text <= source
    requires r == if best.id == 0 then source
      else "<" + best.meta + ['@'] + (if best.isRole then "&" else "") + ToString(best.id) + ">" + source[|best.text|..]
    ensures AtSent(ms, rs, everyone, source, r)
  {
    var cs := Users(ms) + Roles(rs, everyone);
    NamesNotEmpty(ms, rs, everyone);
    LinedUp(ms, rs, everyone);
    hide Users, Roles, Longest, ToString, UserWins, RoleWins, TakenAt, AtSent, Sent, Rank;
    var i := FirstLongest(cs, source);
    if i < |ms| {
      UserTaken(ms, rs, everyone, source, i);
      UserSent(ms, rs, everyone, source, i, r);
    } else if i < |cs| {
      var j := RoleTaken(ms, rs, everyone, source, i - |ms|);
      RoleSent(ms, rs, everyone, source, j, r);
    } else {
      NothingFits(ms, rs, everyone, source);
      NobodySent(ms, rs, everyone, source);
    }
  }

  lemma UserSent(ms: seq<Member>, rs: seq<Role>, everyone: bool, source: string, i: nat, r: string)
    requires UserWins(ms, rs, everyone, source, i)
    requires r == if ms[i].id == 0 then source
      else "<" + "" + ['@'] + "" + ToString(ms[i].id) + ">" + source[|"@" + ms[i].username|..]
    ensures AtSent(ms, rs, everyone, source, r)
  {
    assert "<" + "" + ['@'] + "" == "<@";
    hide UserWins, RoleWins, ToString;
    assert r == Sent("<@", ms[i].id, source, 1 + |ms[i].username|);
  }

  lemma RoleSent(ms: seq<Member>, rs: seq<Role>, everyone: bool, source: string, i: nat, r: string)
    requires RoleWins(ms, rs, everyone, source, i)
    requires r == if rs[i].id == 0 then source
      else "<" + "" + ['@'] + "&" + ToString(rs[i].id) + ">" + source[|"@" + rs[i].name|..]
    ensures AtSent(ms, rs, everyone, source, r)
  {
    assert "<" + "" + ['@'] + "&" == "<@&";
    hide UserWins, RoleWins, ToString;
    assert r == Sent("<@&", rs[i].id, source, 1 + |rs[i].name|);
  }

  lemma NobodySent(ms: seq<Member>, rs: seq<Role>, everyone: bool, source: string)
    requires forall m | m in ms :: !("@" + m.username <= source)
    requires forall p | p in rs :: p.mentionable || everyone ==> !("@" + p.name <= source)
    ensures AtSent(ms, rs, everyone, source, source)
  {
    hide UserWins, RoleWins, Sent;
  }

  /** A mention of a user or role in a server, and of a recipient in a private channel. */
  lemma AtMention(source: string, ctx: Context)
    requires source != "" && source[0] == '@'
    ensures ctx.InGuild? ==> AtSent(ctx.members, ctx.roles, ctx.mayMentionEveryone, source, Transform(source, ctx))
    ensures ctx.InDM? ==> AtSent(ctx.recipients, [], false, source, Transform(source, ctx))
    ensures ctx.Nowhere? ==> Transform(source, ctx) == source
  {
    hide AtSent, Longest, Users, ToString, Transform;
    if ctx.InGuild? {
      var cs := Users(ctx.members) + Roles(ctx.roles, ctx.mayMentionEveryone);
      TransformOf(source, ctx, cs);
      AtSentBy(ctx.members, ctx.roles, ctx.mayMentionEveryone, source, Longest(cs, source), Transform(source, ctx));
    } else if ctx.InDM? {
      var cs := Users(ctx.recipients) + Roles([], false);
      assert cs == Users(ctx.recipients);
      TransformOf(source, ctx, cs);
      AtSentBy(ctx.recipients, [], false, source, Longest(cs, source), Transform(source, ctx));
    } else {
      NobodyElse(source, ctx);
    }
  }

  lemma NobodyElse(source: string, ctx: Context)
    requires source != "" && Candidates(ctx, source[0]) == []
    ensures Transform(source, ctx) == source
  {
  }

  // ----- channels and emoji -----

  /** One of the names wins, or none fits. */
  ghost predicate NameSent(ns: seq<Named>, open: string, close: string, emoji: bool, source: string, r: string) {
    || (exists i: nat :: NameWins(ns, open, close, source, i)
          && r == Sent(if emoji then "<:" + ns[i].name + ":" else "<#", ns[i].id, source, |open + ns[i].name + close|))
    || ((forall n | n in ns :: !(open + n.name + close <= source)) && r == source)
  }

  lemma NameTaken(ns: seq<Named>, open: string, close: string, cs: seq<Candidate>, source: string, i: nat)
    requires |cs| == |ns| && (forall j :: 0 <= j < |ns| ==> cs[j].text == open + ns[j].name + close) && i < |cs| && TakenAt(cs, source, i)
    ensures NameWins(ns, open, close, source, i)
  {
  }

  lemma NoNameFits(ns: seq<Named>, open: string, close: string, cs: seq<Candidate>, source: string)
    requires |cs| == |ns| && (forall j :: 0 <= j < |ns| ==> cs[j].text == open + ns[j].name + close)
    requires forall c | c in cs :: !(c.text <= source)
    ensures forall n | n in ns :: !(open + n.name + close <= source)
  {
    forall n | n in ns
      ensures !(open + n.name + close <= source)
    {
      var i :| 0 <= i < |ns| && ns[i] == n;
      assert cs[i] in cs;
    }
  }

  /** The candidates are the names as typed, with what is sent for each. */
  predicate NamesAre(ns: seq<Named>, emoji: bool, cs: seq<Candidate>) {
    && |cs| == |ns|
    && forall j :: 0 <= j < |ns| ==>
         cs[j] == if emoji then Candidate(":" + ns[j].name + ":", ns[j].id, ":" + ns[j].name, false)
                  else Candidate("#" + ns[j].name, ns[j].id, "", false)
  }

  lemma NamesListed(ns: seq<Named>, emoji: bool)
    ensures NamesAre(ns, emoji, if emoji then Emoji(ns) else Channels(ns))
  {
    EmojiAre(ns);
    ChannelsAre(ns);
    hide Emoji, Channels;
  }

  lemma NamesTyped(ns: seq<Named>, emoji: bool, cs: seq<Candidate>)
    requires NamesAre(ns, emoji, cs)
    ensures forall j :: 0 <= j < |ns| ==> cs[j].text == (if emoji then ":" else "#") + ns[j].name + (if emoji then ":" else "")
    ensures forall c | c in cs :: c.text != ""
  {
  }

  lemma ChannelSentBy(ns: seq<Named>, source: string, i: nat, r: string)
    requires NameWins(ns, "#", "", source, i)
    requires r == if ns[i].id == 0 then source else "<" + "" + ['#'] + "" + ToString(ns[i].id) + ">" + source[|"#" + ns[i].name + ""|..]
    ensures NameSent(ns, "#", "", false, source, r)
  {
    assert "<" + "" + ['#'] + "" == "<#";
    hide NameWins, ToString;
    assert r == Sent("<#", ns[i].id, source, |"#" + ns[i].name + ""|);
  }

  lemma EmojiSentBy(ns: seq<Named>, source: string, i: nat, r: string)
    requires NameWins(ns, ":", ":", source, i)
    requires r == if ns[i].id == 0 then source
      else "<" + (":" + ns[i].name) + [':'] + "" + ToString(ns[i].id) + ">" + source[|":" + ns[i].name + ":"|..]
    ensures NameSent(ns, ":", ":", true, source, r)
  {
    EmojiOpens(ns[i].name);
    hide NameWins, ToString;
    assert r == Sent("<:" + ns[i].name + ":", ns[i].id, source, |":" + ns[i].name + ":"|);
  }

  lemma EmojiOpens(name: string)
    ensures "<" + (":" + name) + [':'] + "" == "<:" + name + ":"
  {
    assert "<" + (":" + name) == "<:" + name;
  }

  lemma NamesSent(ns: seq<Named>, emoji: bool, source: string, cs: seq<Candidate>, best: Candidate, r: string)
    requires source != "" && source[0] == (if emoji then ':' else '#') && best == Longest(cs, source) && best.text <= source
    requires NamesAre(ns, emoji, cs)
    requires r == if best.id == 0 then source
      else "<" + best.meta + [source[0]] + (if best.isRole then "&" else "") + ToString(best.id) + ">" + source[|best.text|..]
    ensures NameSent(ns, if emoji then ":" else "#", if emoji then ":" else "", emoji, source, r)
  {
    var open, close := if emoji then ":" else "#", if emoji then ":" else "";
    NamesTyped(ns, emoji, cs);
    hide Longest, ToString, NameWins, TakenAt, NameSent;
    var i := FirstLongest(cs, source);
    if i < |ns| {
      NameTaken(ns, open, close, cs, source, i);
      if emoji {
        EmojiSentBy(ns, source, i, r);
      } else {
        ChannelSentBy(ns, source, i, r);
      }
    } else {
      NoNameFits(ns, open, close, cs, source);
      NoNameSent(ns, open, close, emoji, source);
    }
  }

  lemma NoNameSent(ns: seq<Named>, open: string, close: string, emoji: bool, source: string)
    requires forall n | n in ns :: !(open + n.name + close <= source)
    ensures NameSent(ns, open, close, emoji, source, source)
  {
    hide NameWins;
  }

  /** A mention of a channel or an emoji: only in a server. */
  lemma NameMention(source: string, ctx: Context)
    requires source != "" && source[0] != '@'
    ensures ctx.InGuild? && source[0] == '#' ==> NameSent(ctx.channels, "#", "", false, source, Transform(source, ctx))
    ensures ctx.InGuild? && source[0] == ':' ==> NameSent(ctx.emoji, ":", ":", true, source, Transform(source, ctx))
    ensures !ctx.InGuild? || (source[0] != '#' && source[0] != ':') ==> Transform(source, ctx) == source
  {
    hide NameSent, NamesAre, Longest, Users, Roles, Channels, Emoji, ToString, Transform;
    var cs := Candidates(ctx, source[0]);
    TransformOf(source, ctx, cs);
    if ctx.InGuild? && source[0] == '#' {
      NamesListed(ctx.channels, false);
      NamesSent(ctx.channels, false, source, cs, Longest(cs, source), Transform(source, ctx));
    } else if ctx.InGuild? && source[0] == ':' {
      NamesListed(ctx.emoji, true);
      NamesSent(ctx.emoji, true, source, cs, Longest(cs, source), Transform(source, ctx));
    } else {
      NobodyElse(source, ctx);
    }
  }
}
