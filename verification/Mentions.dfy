/** Mentions in messages: what is typed is resolved to identifiers by the longest name that fits,
    and identifiers are turned back to names for display. */
module Mentions {
  import opened Bytes
  import opened Strings

  /** Identifiers are 64-bit; those in use fit in 63 bits. */
  type Snowflake = uint64

  const LIMIT := 0x8000_0000_0000_0000

  // ----- decimal numbers -----

  function DigitChar(d: nat): char
    requires d < 10
  {
    '0' + d as char
  }

  /** std::to_string. */
  function ToString(n: nat): string {
    if n < 10 then [DigitChar(n)] else ToString(n / 10) + [DigitChar(n % 10)]
  }

  predicate IsDigit(c: char) { '0' <= c <= '9' }

  /** The value of the leading digits of s, after acc. */
  function ReadDigits(s: string, acc: nat): nat {
    if s == "" || !IsDigit(s[0]) then acc else ReadDigits(s[1..], 10 * acc + (s[0] - '0') as nat)
  }

  /** GetIntFromString and the cast to an identifier: 0 for what is not a 63-bit number, and a
      negative number wraps. */
  function GetIntFromString(s: string): Snowflake {
    var a := SkipSpace(s);
    var negative := a != "" && a[0] == '-';
    var b := if a != "" && (a[0] == '-' || a[0] == '+') then a[1..] else a;
    var v := ReadDigits(b, 0);
    if b == "" || !IsDigit(b[0]) then 0
    else if negative then (if v > LIMIT then 0 else (TWO_64 - v) % TWO_64)
    else if v >= LIMIT then 0 else v
  }

  lemma {:induction false} ToStringDigits(n: nat)
    ensures ToString(n) != "" && forall c | c in ToString(n) :: IsDigit(c)
  {
    if n >= 10 {
      ToStringDigits(n / 10);
    }
  }

  lemma {:induction false} ReadAppend(a: string, c: char, acc: nat)
    requires IsDigit(c) && forall d | d in a :: IsDigit(d)
    ensures ReadDigits(a + [c], acc) == 10 * ReadDigits(a, acc) + (c - '0') as nat
  {
    if a == "" {
      assert (a + [c])[1..] == "";
    } else {
      assert a[0] in a && forall d | d in a[1..] :: d in a;
      ReadAppend(a[1..], c, 10 * acc + (a[0] - '0') as nat);
      assert (a + [c])[1..] == a[1..] + [c] && (a + [c])[0] == a[0];
    }
  }

  lemma {:induction false} ReadBack(n: nat)
    ensures ReadDigits(ToString(n), 0) == n
  {
    if n >= 10 {
      ReadBack(n / 10);
      ToStringDigits(n / 10);
      ReadAppend(ToString(n / 10), DigitChar(n % 10), 0);
    } else {
      assert ToString(n)[1..] == "";
    }
  }

  /** An identifier written in decimal is read back. */
  lemma NumberReadsBack(n: nat)
    requires n < LIMIT
    ensures GetIntFromString(ToString(n)) == n
  {
    ReadBack(n);
    ToStringDigits(n);
    assert ToString(n)[0] in ToString(n);
    hide ReadDigits, ToString;
  }

  // ----- the names around -----

  /** A name that may be mentioned: its text as typed, what it stands for, and how that is written. */
  datatype Candidate = Candidate(text: string, id: Snowflake, meta: string, isRole: bool)

  datatype Member = Member(id: Snowflake, username: string)
  datatype Role = Role(id: Snowflake, name: string, mentionable: bool)
  datatype Named = Named(id: Snowflake, name: string)

  /** Where a message is written: nowhere known, in a server's channel, or in a private one. */
  datatype Context =
    | Nowhere
    | InGuild(members: seq<Member>, roles: seq<Role>, channels: seq<Named>, emoji: seq<Named>, mayMentionEveryone: bool)
    | InDM(recipients: seq<Member>)

  function Users(ms: seq<Member>): seq<Candidate> {
    if ms == [] then [] else Users(ms[..|ms| - 1]) + [Candidate("@" + ms[|ms| - 1].username, ms[|ms| - 1].id, "", false)]
  }

  function Roles(rs: seq<Role>, everyone: bool): seq<Candidate> {
    if rs == [] then []
    else
      var r := rs[|rs| - 1];
      Roles(rs[..|rs| - 1], everyone) + if r.mentionable || everyone then [Candidate("@" + r.name, r.id, "", true)] else []
  }

  function Channels(ns: seq<Named>): seq<Candidate> {
    if ns == [] then [] else Channels(ns[..|ns| - 1]) + [Candidate("#" + ns[|ns| - 1].name, ns[|ns| - 1].id, "", false)]
  }

  function Emoji(ns: seq<Named>): seq<Candidate> {
    if ns == [] then []
    else
      var n := ns[|ns| - 1];
      Emoji(ns[..|ns| - 1]) + [Candidate(":" + n.name + ":", n.id, ":" + n.name, false)]
  }

  /** What a mention that starts with c may be, in the order it is tried. */
  function Candidates(ctx: Context, c: char): seq<Candidate> {
    match ctx
    case Nowhere => []
    case InGuild(members, roles, channels, emoji, everyone) =>
      if c == '@' then Users(members) + Roles(roles, everyone)
      else if c == '#' then Channels(channels)
      else if c == ':' then Emoji(emoji)
      else []
    case InDM(recipients) => if c == '@' then Users(recipients) else []
  }

  function NoMatch(): Candidate { Candidate("", 0, "", false) }

  /** The longest candidate the message text starts with; of several, the first. */
  function Longest(cs: seq<Candidate>, source: string): (best: Candidate)
    ensures best.text <= source
    ensures best == NoMatch() || best in cs
    ensures forall c | c in cs && c.text <= source :: |c.text| <= |best.text|
  {
    if cs == [] then NoMatch()
    else
      var best, c := Longest(cs[..|cs| - 1], source), cs[|cs| - 1];
      if c.text <= source && |c.text| > |best.text| then c else best
  }

  /** How an identifier is written in a message. */
  function Written(c: char, m: Candidate): string {
    "<" + m.meta + [c] + (if m.isRole then "&" else "") + ToString(m.id) + ">"
  }

  /** TransformMention. */
  function Transform(source: string, ctx: Context): string {
    if source == "" then source else
    var best := Longest(Candidates(ctx, source[0]), source);
    if best.id == 0 then source else Written(source[0], best) + source[|best.text|..]
  }

  // ----- resolving a message -----

  predicate IsMark(c: char) { c == '@' || c == '#' || c == ':' }

  /** How many characters come before the first mark. */
  function ToMark(s: string): (n: nat)
    ensures n <= |s| && (n < |s| ==> IsMark(s[n]))
    ensures forall i :: 0 <= i < n ==> !IsMark(s[i])
  {
    if s == "" || IsMark(s[0]) then 0 else 1 + ToMark(s[1..])
  }

  /** The piece of the message that starts at its front, and whether it may be a mention: a single
      character, a mark and what follows it up to the next, and for an emoji the closing colon. */
  function Segment(s: string): (r: (nat, bool))
    requires s != ""
    ensures 1 <= r.0 <= |s|
  {
    if !IsMark(s[0]) then (1, false)
    else
      var j := 1 + ToMark(s[1..]);
      if s[0] == ':' then (if j == |s| || s[j] != ':' then (j, false) else (j + 1, true))
      else (j, true)
  }

  /** ResolveMentions. */
  function Resolve(s: string, ctx: Context): string
    decreases |s|
  {
    if s == "" then ""
    else
      var (n, mention) := Segment(s);
      (if mention then Transform(s[..n], ctx) else s[..n]) + Resolve(s[n..], ctx)
  }

  /** The pieces a message is scanned in. */
  function Segments(s: string): seq<string>
    decreases |s|
  {
    if s == "" then [] else [s[..Segment(s).0]] + Segments(s[Segment(s).0..])
  }

  /** The pieces make up the message, none twice and nothing left out. */
  lemma {:induction false} SegmentsPartition(s: string)
    ensures Flat(Segments(s)) == s
    decreases |s|
  {
    SegmentsCons(s);
    if s != "" {
      hide *;
      var n := Segment(s).0;
      SegmentsPartition(s[n..]);
      FlatCons(s[..n], Segments(s[n..]));
      Cut(s, n);
    }
  }

  lemma SegmentsCons(s: string)
    ensures if s == "" then Segments(s) == [] && Flat([]) == "" else Segments(s) == [s[..Segment(s).0]] + Segments(s[Segment(s).0..])
  {
    hide Segment;
  }

  lemma Cut(s: string, n: nat)
    requires n <= |s|
    ensures s == s[..n] + s[n..]
  {
  }

  /** The piece is no mention, or of no name that is known. */
  predicate Unmatched(piece: string, ctx: Context) {
    piece == "" || Longest(Candidates(ctx, piece[0]), piece).id == 0
  }

  /** Without a match nothing changes. */
  lemma {:induction false} NothingMatches(s: string, ctx: Context)
    requires forall p | p in Segments(s) :: Unmatched(p, ctx)
    ensures Resolve(s, ctx) == s
    decreases |s|
  {
    if s != "" {
      SegmentsSplit(s);
      hide *;
      var (n, mention) := Segment(s);
      NothingMatches(s[n..], ctx);
      UnmatchedStays(s[..n], ctx);
      ResolveOnce(s, ctx);
      Cut(s, n);
    }
  }

  lemma SegmentsSplit(s: string)
    requires s != ""
    ensures var n := Segment(s).0; s[..n] in Segments(s) && forall p | p in Segments(s[n..]) :: p in Segments(s)
  {
    hide Segment;
  }

  lemma ResolveOnce(s: string, ctx: Context)
    requires s != ""
    ensures var (n, mention) := Segment(s);
      Resolve(s, ctx) == (if mention then Transform(s[..n], ctx) else s[..n]) + Resolve(s[n..], ctx)
  {
    hide Transform, Segment;
  }

  lemma UnmatchedStays(p: string, ctx: Context)
    requires Unmatched(p, ctx)
    ensures Transform(p, ctx) == p
  {
    hide Candidates, Longest;
  }

  // ----- turning identifiers back into names -----

  datatype Shown = Shown(symbol: string, name: string)

  /** How identifiers are shown: users and roles always somehow, channels if known, and the emoji of
      the server the message is read in, if that is known. */
  datatype Names = Names(user: Snowflake -> string, role: Snowflake -> string, channel: Snowflake -> Option<Shown>,
                         emoji: Option<map<Snowflake, string>>)

  predicate IsBracket(c: char) { c == '<' || c == '>' }

  function ToBracket(s: string): (n: nat)
    ensures n <= |s| && (n < |s| ==> IsBracket(s[n]))
    ensures forall i :: 0 <= i < n ==> !IsBracket(s[i])
  {
    if s == "" || IsBracket(s[0]) then 0 else 1 + ToBracket(s[1..])
  }

  function ToColon(s: string): (n: nat)
    ensures n <= |s| && (n < |s| ==> s[n] == ':')
    ensures forall i :: 0 <= i < n ==> s[i] != ':'
  {
    if s == "" || s[0] == ':' then 0 else 1 + ToColon(s[1..])
  }

  /** What is shown for the text between the brackets; nothing if it is no mention. */
  function Decode(inner: string, names: Names, tts: bool): Option<string>
    requires |inner| >= 2
  {
    if inner[0] == '@' then
      var isRole, hasExclam := inner[1] == '&', inner[1] == '!';
      var sf := GetIntFromString(inner[if isRole || hasExclam then 2 else 1..]);
      Some((if tts then "" else "@") + if isRole then names.role(sf) else names.user(sf))
    else if inner[0] == '#' then
      var chan := names.channel(GetIntFromString(inner[1..]));
      if chan == None then None else Some((if tts then "" else chan.value.symbol) + chan.value.name)
    else if inner[0] == ':' then
      var i := 1 + ToColon(inner[1..]);
      if i == |inner| then None else
      var sf := GetIntFromString(inner[i + 1..]);
      var shown :=
        if names.emoji == None || sf !in names.emoji.value then inner[..i + 1] else ":" + names.emoji.value[sf] + ":";
      Some(if tts && |shown| >= 2 then " emoji " + shown[1..|shown| - 1] else shown)
    else None
  }

  /** ReverseMentions. */
  function Reverse(s: string, names: Names, tts: bool): string
    decreases |s|
  {
    if s == "" then ""
    else if s[0] != '<' then [s[0]] + Reverse(s[1..], names, tts)
    else
      var k := 1 + ToBracket(s[1..]);
      if k == |s| || s[k] != '>' || k + 1 < 4 then [s[0]] + Reverse(s[1..], names, tts)
      else
        var shown := Decode(s[1..k], names, tts);
        if shown == None then [s[0]] + Reverse(s[1..], names, tts) else shown.value + Reverse(s[k + 1..], names, tts)
  }

  /** One turn on a character that opens nothing. */
  lemma ReverseChar(s: string, names: Names, tts: bool)
    requires s != "" && s[0] != '<'
    ensures Reverse(s, names, tts) == [s[0]] + Reverse(s[1..], names, tts)
  {
    hide Decode, ToBracket;
  }

  /** One turn on an opening bracket. */
  lemma ReverseOpen(s: string, names: Names, tts: bool)
    requires s != "" && s[0] == '<'
    ensures var k := 1 + ToBracket(s[1..]);
      Reverse(s, names, tts) ==
        if k == |s| || s[k] != '>' || k + 1 < 4 then [s[0]] + Reverse(s[1..], names, tts)
        else
          var shown := Decode(s[1..k], names, tts);
          if shown == None then [s[0]] + Reverse(s[1..], names, tts) else shown.value + Reverse(s[k + 1..], names, tts)
  {
    hide Decode, ToBracket;
  }
}
