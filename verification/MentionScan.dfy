/** The loops that resolve and turn back mentions. */
module MentionScan {
  import opened Bytes
  import opened Mentions
  import opened Strings

  /** The longest match so far, in the variables the search keeps. */
  method Consider(best: Candidate, c: Candidate, source: string) returns (next: Candidate)
    ensures next == if c.text <= source && |c.text| > |best.text| then c else best
  {
    if !(c.text <= source) {
      return best;
    }
    if |best.text| >= |c.text| {
      return best;
    }
    return c;
  }

  /** One more candidate at the end of a list. */
  lemma LongestSnoc(cs: seq<Candidate>, c: Candidate, source: string)
    ensures Longest(cs + [c], source) ==
      var best := Longest(cs, source); if c.text <= source && |c.text| > |best.text| then c else best
  {
    assert (cs + [c])[..|cs|] == cs;
  }

  method LongestUser(ms: seq<Member>, source: string) returns (best: Candidate)
    ensures best == Longest(Users(ms), source)
  {
    best := NoMatch();
    for i := 0 to |ms|
      invariant best == Longest(Users(ms[..i]), source)
    {
      assert ms[..i + 1][..i] == ms[..i];
      var c := Candidate("@" + ms[i].username, ms[i].id, "", false);
      LongestSnoc(Users(ms[..i]), c, source);
      best := Consider(best, c, source);
    }
    assert ms[..|ms|] == ms;
  }

  /** The roles come after the users, and one that may not be mentioned is passed over. */
  method LongestRole(users: seq<Candidate>, first: Candidate, rs: seq<Role>, everyone: bool, source: string) returns (best: Candidate)
    requires first == Longest(users, source)
    ensures best == Longest(users + Roles(rs, everyone), source)
  {
    best := first;
    hide Roles, Longest;
    assert users + Roles(rs[..0], everyone) == users by { NoRoles(users, everyone); }
    for i := 0 to |rs|
      invariant best == Longest(users + Roles(rs[..i], everyone), source)
    {
      RolesSnoc(users, rs, i, everyone);
      if rs[i].mentionable || everyone {
        var c := Candidate("@" + rs[i].name, rs[i].id, "", true);
        LongestSnoc(users + Roles(rs[..i], everyone), c, source);
        best := Consider(best, c, source);
      }
    }
    assert rs[..|rs|] == rs;
  }

  lemma NoRoles(users: seq<Candidate>, everyone: bool)
    ensures users + Roles([], everyone) == users
  {
  }

  lemma RolesSnoc(users: seq<Candidate>, rs: seq<Role>, i: nat, everyone: bool)
    requires i < |rs|
    ensures var before := users + Roles(rs[..i], everyone);
      users + Roles(rs[..i + 1], everyone) ==
        if rs[i].mentionable || everyone then before + [Candidate("@" + rs[i].name, rs[i].id, "", true)] else before
  {
    assert rs[..i + 1][..i] == rs[..i];
    assert Roles(rs[..i], everyone) + [] == Roles(rs[..i], everyone);
  }

  method LongestChannel(ns: seq<Named>, source: string) returns (best: Candidate)
    ensures best == Longest(Channels(ns), source)
  {
    best := NoMatch();
    for i := 0 to |ns|
      invariant best == Longest(Channels(ns[..i]), source)
    {
      assert ns[..i + 1][..i] == ns[..i];
      var c := Candidate("#" + ns[i].name, ns[i].id, "", false);
      LongestSnoc(Channels(ns[..i]), c, source);
      best := Consider(best, c, source);
    }
    assert ns[..|ns|] == ns;
  }

  method LongestEmoji(ns: seq<Named>, source: string) returns (best: Candidate)
    ensures best == Longest(Emoji(ns), source)
  {
    best := NoMatch();
    for i := 0 to |ns|
      invariant best == Longest(Emoji(ns[..i]), source)
    {
      assert ns[..i + 1][..i] == ns[..i];
      var c := Candidate(":" + ns[i].name + ":", ns[i].id, ":" + ns[i].name, false);
      LongestSnoc(Emoji(ns[..i]), c, source);
      best := Consider(best, c, source);
    }
    assert ns[..|ns|] == ns;
  }

  /** TransformMention. */
  method TransformMention(source: string, ctx: Context) returns (r: string)
    ensures r == Transform(source, ctx)
  {
    if source == "" {
      return source;
    }
    hide Longest, Users, Roles, Channels, Emoji;
    var best := NoMatch();
    assert best == Longest([], source) by { NoneIsLongest(source); }
    var c := source[0];
    if ctx.InGuild? {
      if c == '@' {
        best := LongestUser(ctx.members, source);
        best := LongestRole(Users(ctx.members), best, ctx.roles, ctx.mayMentionEveryone, source);
      } else if c == '#' {
        best := LongestChannel(ctx.channels, source);
      } else if c == ':' {
        best := LongestEmoji(ctx.emoji, source);
      }
    } else if ctx.InDM? && c == '@' {
      best := LongestUser(ctx.recipients, source);
    }
    if best.id == 0 {
      return source;
    }
    var str := "<";
    str := str + best.meta;
    str := str + [c];
    str := str + if best.isRole then "&" else "";
    str := str + ToString(best.id);
    str := str + ">";
    r := str + source[|best.text|..];
  }

  lemma NoneIsLongest(source: string)
    ensures Longest([], source) == NoMatch()
  {
  }

  /** The next mark from i on. */
  method FindMark(s: string, from: nat) returns (j: nat)
    requires from <= |s|
    ensures from <= j <= |s| && j == from + ToMark(s[from..])
  {
    j := from;
    while j < |s| && !IsMark(s[j])
      invariant from <= j <= |s| && from + ToMark(s[from..]) == j + ToMark(s[j..])
    {
      assert s[j..][1..] == s[j + 1..];
      j := j + 1;
    }
  }

  /** Whether a message has a character worth looking for. */
  method HasMark(s: string) returns (yes: bool)
    ensures yes <==> exists i :: 0 <= i < |s| && IsMark(s[i])
  {
    var j := FindMark(s, 0);
    assert s[0..] == s;
    return j < |s|;
  }

  lemma {:induction false} NoMarks(s: string, ctx: Context)
    requires forall i :: 0 <= i < |s| ==> !IsMark(s[i])
    ensures Resolve(s, ctx) == s
    decreases |s|
  {
    if s != "" {
      assert Segment(s) == (1, false);
      assert forall i :: 0 <= i < |s[1..]| ==> s[1..][i] == s[i + 1];
      NoMarks(s[1..], ctx);
      assert s == s[..1] + s[1..];
    }
  }

  lemma ResolveStep(s: string, i: nat, ctx: Context)
    requires i < |s|
    ensures var (n, mention) := Segment(s[i..]);
      && i + n <= |s|
      && Resolve(s[i..], ctx) == (if mention then Transform(s[i..i + n], ctx) else s[i..i + n]) + Resolve(s[i + n..], ctx)
  {
    hide *;
    var (n, mention) := Segment(s[i..]);
    Slices(s, i, n);
    ResolveOnce(s[i..], ctx);
  }

  lemma Slices(s: string, i: nat, n: nat)
    requires i + n <= |s|
    ensures s[i..][n..] == s[i + n..] && s[i..][..n] == s[i..i + n]
  {
  }

  lemma FromStart(s: string, r: string)
    ensures s[0..] == s && "" + r == r
  {
  }

  /** ResolveMentions. */
  method ResolveMentions(str: string, ctx: Context) returns (finalStr: string)
    ensures finalStr == Resolve(str, ctx)
  {
    var hasMent := HasMark(str);
    if !hasMent {
      NoMarks(str, ctx);
      return str;
    }
    hide *;
    finalStr := "";
    var i := 0;
    FromStart(str, Resolve(str, ctx));
    while i < |str|
      invariant i <= |str| && finalStr + Resolve(str[i..], ctx) == Resolve(str, ctx)
      decreases |str| - i
    {
      ResolveStep(str, i, ctx);
      var addition, j := NextPiece(str, i, ctx);
      Assoc(finalStr, addition, Resolve(str[j..], ctx));
      finalStr := finalStr + addition;
      i := j;
    }
    ResolveNothing(finalStr, str[i..], ctx);
  }

  /** One turn of the loop: a character, a piece that is no emoji, or what became of a mention. */
  method NextPiece(str: string, i: nat, ctx: Context) returns (addition: string, j: nat)
    requires i < |str|
    ensures var (n, mention) := Segment(str[i..]);
      j == i + n && addition == if mention then Transform(str[i..j], ctx) else str[i..j]
  {
    hide Transform;
    assert str[i..][1..] == str[i + 1..];
    if !IsMark(str[i]) {
      return [str[i]], i + 1;
    }
    var firstChr := str[i];
    j := FindMark(str, i + 1);
    if firstChr == ':' {
      if j == |str| || str[j] != ':' {
        return str[i..j], j;
      } else {
        j := j + 1;
      }
    }
    addition := TransformMention(str[i..j], ctx);
  }

  lemma ResolveNothing(done: string, s: string, ctx: Context)
    requires s == ""
    ensures done + Resolve(s, ctx) == done
  {
  }

  // ----- turning back -----

  lemma ReverseStep(s: string, i: nat, names: Names, tts: bool)
    requires i < |s|
    ensures Reverse(s[i..], names, tts) ==
      if s[i] != '<' then [s[i]] + Reverse(s[i + 1..], names, tts)
      else
        var k := i + 1 + ToBracket(s[i + 1..]);
        if k == |s| || s[k] != '>' || k - i < 3 then [s[i]] + Reverse(s[i + 1..], names, tts)
        else
          var shown := Decode(s[i + 1..k], names, tts);
          if shown == None then [s[i]] + Reverse(s[i + 1..], names, tts)
          else shown.value + Reverse(s[k + 1..], names, tts)
  {
    hide *;
    var t := s[i..];
    assert t[1..] == s[i + 1..] && t[0] == s[i];
    if s[i] != '<' {
      ReverseChar(t, names, tts);
    } else {
      var k := 1 + ToBracket(t[1..]);
      ReverseOpen(t, names, tts);
      assert t[1..k] == s[i + 1..i + k];
      assert k < |t| ==> t[k] == s[i + k] && t[k + 1..] == s[i + k + 1..];
    }
  }

  /** The next bracket from i on. */
  method FindBracket(s: string, from: nat) returns (j: nat)
    requires from <= |s|
    ensures from <= j <= |s| && j == from + ToBracket(s[from..])
  {
    j := from;
    while j < |s| && s[j] != '<' && s[j] != '>'
      invariant from <= j <= |s| && from + ToBracket(s[from..]) == j + ToBracket(s[j..])
    {
      assert s[j..][1..] == s[j + 1..];
      j := j + 1;
    }
  }

  /** One turn of the loop: what goes to the output, and how far the message is done. */
  method NextShown(s: string, i: nat, names: Names, tts: bool) returns (shown: string, next: nat)
    requires i < |s|
    ensures i < next <= |s|
    ensures Reverse(s[i..], names, tts) == shown + Reverse(s[next..], names, tts)
  {
    hide Reverse, Decode, ToBracket;
    ReverseStep(s, i, names, tts);
    if s[i] != '<' {
      return [s[i]], i + 1;
    }
    var k := FindBracket(s, i + 1);
    if k == |s| || s[k] != '>' {
      return [s[i]], i + 1;
    }
    if k + 1 - i < 4 {
      return [s[i]], i + 1;
    }
    var text := Decode(s[i + 1..k], names, tts);
    if text == None {
      return [s[i]], i + 1;
    }
    return text.value, k + 1;
  }

  /** ReverseMentions, with its look whether there is anything to turn back. */
  method ReverseMentions(message: string, names: Names, ttsMode: bool) returns (newStr: string)
    ensures newStr == Reverse(message, names, ttsMode)
  {
    var worth := WorthIt(message);
    if !worth {
      NotWorthIt(message, names, ttsMode);
      return message;
    }
    hide *;
    newStr := "";
    var i := 0;
    FromStart(message, Reverse(message, names, ttsMode));
    while i < |message|
      invariant i <= |message| && newStr + Reverse(message[i..], names, ttsMode) == Reverse(message, names, ttsMode)
      decreases |message| - i
    {
      var shown, next := NextShown(message, i, names, ttsMode);
      Assoc(newStr, shown, Reverse(message[next..], names, ttsMode));
      newStr := newStr + shown;
      i := next;
    }
    ReverseNothing(newStr, message[i..], names, ttsMode);
  }

  lemma ReverseNothing(done: string, s: string, names: Names, tts: bool)
    requires s == ""
    ensures done + Reverse(s, names, tts) == done
  {
  }

  /** A mark, an opening and a closing bracket are all there. */
  predicate Worth(s: string) {
    (exists c | c in s :: IsMark(c)) && '<' in s && '>' in s
  }

  method WorthIt(s: string) returns (yes: bool)
    ensures yes <==> Worth(s)
  {
    var hasMent, hasOpen, hasClose := false, false, false;
    for i := 0 to |s|
      invariant hasMent <==> exists c | c in s[..i] :: IsMark(c)
      invariant hasOpen <==> '<' in s[..i]
      invariant hasClose <==> '>' in s[..i]
    {
      assert s[..i + 1] == s[..i] + [s[i]];
      if IsMark(s[i]) {
        hasMent := true;
      }
      if s[i] == '<' {
        hasOpen := true;
      }
      if s[i] == '>' {
        hasClose := true;
      }
    }
    assert s[..|s|] == s;
    return hasMent && hasOpen && hasClose;
  }

  /** Without one of them nothing is turned back. */
  lemma {:induction false} NotWorthIt(s: string, names: Names, tts: bool)
    requires !Worth(s)
    ensures Reverse(s, names, tts) == s
    decreases |s|
  {
    if s != "" {
      var rest := s[1..];
      assert forall c | c in rest :: c in s;
      NotWorthIt(rest, names, tts);
      assert s == [s[0]] + rest;
      hide Reverse;
      if s[0] != '<' {
        ReverseChar(s, names, tts);
      } else {
        ReverseOpen(s, names, tts);
        var k := 1 + ToBracket(rest);
        if k < |s| && s[k] == '>' && k + 1 >= 4 {
          assert s[1] in s && s[1..k][0] == s[1];
        }
      }
    }
  }
}
