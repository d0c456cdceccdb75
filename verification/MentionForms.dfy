/** Mentions in plain figures: decimal identifiers, the pieces a message is scanned in, and what is shown
    for each form of a mention. */
module MentionForms {
  import opened Bytes
  import opened Powers
  import opened Strings
  import opened Mentions

  // ----- numbers -----

  lemma DecimalStep(n: nat)
    requires n >= 10
    ensures ToString(n) == ToString(n / 10) + [DigitChar(n % 10)] && |ToString(n)| == |ToString(n / 10)| + 1 && |ToString(n / 10)| >= 1
  {
    ToStringDigits(n / 10);
  }

  lemma LowDigit(d: nat)
    requires d < 10
    ensures DigitChar(d) == "0123456789"[d]
  {
  }

  lemma Unit(n: nat)
    ensures n / Power(10, 0) % 10 == n % 10
    ensures n < 10 ==> |ToString(n)| == 1 && ToString(n)[0] == DigitChar(n) && n % 10 == n
  {
  }

  /** Digit i of the decimal form, from the right. */
  lemma {:induction false} Decimal(n: nat, i: nat)
    requires i < |ToString(n)|
    ensures ToString(n)[|ToString(n)| - 1 - i] == "0123456789"[n / Power(10, i) % 10]
    decreases n
  {
    hide *;
    Unit(n);
    LowDigit(n % 10);
    if n >= 10 {
      DecimalStep(n);
      if i > 0 {
        Decimal(n / 10, i - 1);
        DivideTwice(n, 10, i - 1);
      }
    }
  }

  /** There are no more digits than needed. */
  lemma {:induction false} DecimalLength(n: nat)
    ensures ToString(n) != "" && n < Power(10, |ToString(n)|) && (|ToString(n)| > 1 ==> n >= Power(10, |ToString(n)| - 1))
  {
    if n >= 10 {
      DecimalStep(n);
      hide ToString;
      DecimalLength(n / 10);
      var k := |ToString(n / 10)|;
      assert Power(10, k + 1) == 10 * Power(10, k);
      if k > 1 {
        assert Power(10, k) == 10 * Power(10, k - 1);
      }
    }
  }

  /** The digits, each times its power of ten. */
  function ValueOf(d: string): nat {
    if d == "" then 0 else ValueOf(d[1..]) + DigitOf(d[0]) * Power(10, |d| - 1)
  }

  function DigitOf(c: char): nat { if '0' <= c <= '9' then c as int - '0' as int else 0 }

  lemma {:induction false} ReadValue(d: string, rest: string, acc: nat)
    requires (forall c | c in d :: '0' <= c <= '9') && (rest == "" || rest[0] < '0' || rest[0] > '9')
    ensures ReadDigits(d + rest, acc) == acc * Power(10, |d|) + ValueOf(d)
    decreases |d|
  {
    if d == "" {
      assert d + rest == rest;
    } else {
      assert d[0] in d && forall c | c in d[1..] :: c in d;
      var digit := DigitOf(d[0]);
      assert (d + rest)[1..] == d[1..] + rest && (d + rest)[0] == d[0];
      ReadValue(d[1..], rest, 10 * acc + digit);
      Carry(acc, digit, Power(10, |d| - 1));
    }
  }

  lemma Carry(acc: nat, digit: nat, p: nat)
    ensures (10 * acc + digit) * p == acc * (10 * p) + digit * p
  {
  }

  /** An identifier read from text: white space, then a number; 0 from 2^63 on, and for what is no
      number. */
  lemma ReadNumber(space: string, d: string, rest: string)
    requires forall c | c in space :: c == ' ' || '\t' <= c <= '\r'
    requires (forall c | c in d :: '0' <= c <= '9') && (rest == "" || rest[0] < '0' || rest[0] > '9')
    requires d == "" && rest != "" ==> rest[0] != ' ' && !('\t' <= rest[0] <= '\r') && rest[0] != '-' && rest[0] != '+'
    ensures GetIntFromString(space + d + rest) ==
      if d == "" || ValueOf(d) >= 0x8000_0000_0000_0000 then 0 else ValueOf(d)
  {
    var s := d + rest;
    assert d != "" ==> d[0] in d && s[0] == d[0];
    assert d == "" ==> s == rest;
    SkipsAll(space, s);
    assert space + d + rest == space + s;
    ReadValue(d, rest, 0);
    hide ReadDigits, SkipSpace, ValueOf, Power;
  }

  lemma {:induction false} SkipsAll(space: string, s: string)
    requires forall c | c in space :: c == ' ' || '\t' <= c <= '\r'
    requires s != "" ==> s[0] != ' ' && !('\t' <= s[0] <= '\r')
    ensures SkipSpace(space + s) == s
  {
    if space == "" {
      assert space + s == s;
    } else {
      assert space[0] in space && forall c | c in space[1..] :: c in space;
      assert (space + s)[1..] == space[1..] + s;
      SkipsAll(space[1..], s);
    }
  }

  // ----- the pieces of a message -----

  /** Where the next of the three marks is, if any. */
  predicate NextMark(s: string, j: nat) {
    && 1 <= j <= |s|
    && (forall i :: 1 <= i < j ==> s[i] != '@' && s[i] != '#' && s[i] != ':')
    && (j < |s| ==> s[j] == '@' || s[j] == '#' || s[j] == ':')
  }

  lemma ToMarkIs(s: string, j: nat)
    requires s != "" && NextMark(s, j)
    ensures 1 + ToMark(s[1..]) == j
  {
    CountToMark(s[1..], j - 1);
  }

  lemma {:induction false} CountToMark(t: string, n: nat)
    requires n <= |t| && (forall i :: 0 <= i < n ==> !IsMark(t[i])) && (n < |t| ==> IsMark(t[n]))
    ensures ToMark(t) == n
    decreases n
  {
    if n > 0 {
      CountToMark(t[1..], n - 1);
    }
  }

  /** One turn of the scan.  A mention goes up to the next mark; an emoji's next mark must be its closing
      colon, which belongs to it; everything else stays. */
  lemma ScanForm(s: string, ctx: Context, j: nat)
    requires s != "" && NextMark(s, j)
    ensures s[0] != '@' && s[0] != '#' && s[0] != ':' ==> Resolve(s, ctx) == [s[0]] + Resolve(s[1..], ctx)
    ensures s[0] == '@' || s[0] == '#' ==> Resolve(s, ctx) == Transform(s[..j], ctx) + Resolve(s[j..], ctx)
    ensures s[0] == ':' && (j == |s| || s[j] != ':') ==> Resolve(s, ctx) == s[..j] + Resolve(s[j..], ctx)
    ensures s[0] == ':' && j < |s| && s[j] == ':' ==> Resolve(s, ctx) == Transform(s[..j + 1], ctx) + Resolve(s[j + 1..], ctx)
  {
    ToMarkIs(s, j);
    ResolveOnce(s, ctx);
    hide Resolve, Transform, ToMark;
    assert s[..1] == [s[0]];
  }

  /** And the end of it. */
  lemma ScanEnd(ctx: Context)
    ensures Resolve("", ctx) == ""
  {
  }

  // ----- what is shown -----

  lemma {:induction false} ToBracketIs(inner: string, rest: string)
    requires forall c | c in inner :: c != '<' && c != '>'
    ensures ToBracket(inner + ">" + rest) == |inner|
  {
    var s := inner + ">" + rest;
    if inner == "" {
      assert s[0] == '>';
    } else {
      assert inner[0] in inner && forall c | c in inner[1..] :: c in inner;
      assert s[1..] == inner[1..] + ">" + rest && s[0] == inner[0];
      ToBracketIs(inner[1..], rest);
    }
  }

  /** A bracketed text of at least two characters is shown as what it stands for, if anything. */
  lemma Bracketed(inner: string, rest: string, names: Names, tts: bool)
    requires |inner| >= 2 && Plain(inner)
    ensures var s := "<" + inner + ">" + rest;
      Reverse(s, names, tts) ==
        if Decode(inner, names, tts) == None then "<" + Reverse(s[1..], names, tts)
        else Decode(inner, names, tts).value + Reverse(rest, names, tts)
  {
    var s := "<" + inner + ">" + rest;
    assert s[1..] == inner + ">" + rest && s[0] == '<';
    ToBracketIs(inner, rest);
    ReverseOpen(s, names, tts);
    hide Reverse, Decode, ToBracket;
    var k := 1 + |inner|;
    assert s[k] == '>' && s[1..k] == inner && s[k + 1..] == rest;
  }

  predicate Plain(s: string) { forall c | c in s :: c != '<' && c != '>' }

  lemma PlainJoin(a: string, b: string)
    requires Plain(a) && Plain(b)
    ensures Plain(a + b)
  {
  }

  lemma DigitsOnly(id: nat)
    ensures ToString(id) != "" && Plain(ToString(id)) && '0' <= ToString(id)[0] <= '9'
  {
    ToStringDigits(id);
    assert ToString(id)[0] in ToString(id);
    hide ToString;
  }

  /** Users, with and without the exclamation mark, and roles.  Read aloud, the at sign is left out. */
  lemma ShownAt(front: string, id: nat, rest: string, names: Names, tts: bool)
    requires id < 0x8000_0000_0000_0000 && (front == "@" || front == "@!" || front == "@&")
    ensures Reverse("<" + front + ToString(id) + ">" + rest, names, tts) ==
      (if tts then "" else "@") + (if front == "@&" then names.role(id) else names.user(id)) + Reverse(rest, names, tts)
  {
    var d := ToString(id);
    var inner := front + d;
    DigitsOnly(id);
    NumberReadsBack(id);
    hide Reverse, ToString, GetIntFromString, Plain;
    assert Plain(front) by { FrontPlain(front); }
    PlainJoin(front, d);
    Bracketed(inner, rest, names, tts);
    DecodeAt(front, d, names, tts);
    hide Decode;
    Opened(front, d, rest);
  }

  lemma Opened(a: string, b: string, rest: string)
    ensures "<" + (a + b) + ">" + rest == "<" + a + b + ">" + rest
  {
    assert "<" + (a + b) == "<" + a + b;
  }

  lemma FrontPlain(front: string)
    requires |front| <= 2 && forall i :: 0 <= i < |front| ==> front[i] in "@!&#:"
    ensures Plain(front)
  {
  }

  lemma DecodeAt(front: string, d: string, names: Names, tts: bool)
    requires (front == "@" || front == "@!" || front == "@&") && d != "" && '0' <= d[0] <= '9'
    ensures var id := GetIntFromString(d);
      Decode(front + d, names, tts) == Some((if tts then "" else "@") + if front == "@&" then names.role(id) else names.user(id))
  {
    hide GetIntFromString;
    assert (front + d)[|front|..] == d;
  }

  /** A channel that is known, with its symbol unless it is read aloud; one that is not stays as it is. */
  lemma ShownChannel(id: nat, rest: string, names: Names, tts: bool)
    requires id < 0x8000_0000_0000_0000
    ensures var s := "<#" + ToString(id) + ">" + rest;
      Reverse(s, names, tts) == match names.channel(id)
        case Some(c) => (if tts then "" else c.symbol) + c.name + Reverse(rest, names, tts)
        case None => "<" + Reverse(s[1..], names, tts)
  {
    var d := ToString(id);
    var inner := "#" + d;
    DigitsOnly(id);
    NumberReadsBack(id);
    hide *;
    FrontPlain("#");
    PlainJoin("#", d);
    Bracketed(inner, rest, names, tts);
    DecodeChannel(d, names, tts);
    OpenedChannel(d, rest);
  }

  lemma DecodeChannel(d: string, names: Names, tts: bool)
    requires d != ""
    ensures Decode("#" + d, names, tts) == match names.channel(GetIntFromString(d))
      case Some(c) => Some((if tts then "" else c.symbol) + c.name)
      case None => None
  {
    assert ("#" + d)[1..] == d;
    hide GetIntFromString;
  }

  lemma OpenedChannel(d: string, rest: string)
    ensures "<" + ("#" + d) + ">" + rest == "<#" + d + ">" + rest
  {
    assert "<" + ("#" + d) == "<#" + d;
  }

  /** An emoji: by the name it has in the server, or as written; aloud, as a word and without colons. */
  lemma ShownEmoji(name: string, id: nat, rest: string, names: Names)
    requires id < 0x8000_0000_0000_0000 && forall c | c in name :: c != '<' && c != '>' && c != ':'
    ensures var s := "<:" + name + ":" + ToString(id) + ">" + rest;
      var known := names.emoji.Some? && id in names.emoji.value;
      var shown := if known then names.emoji.value[id] else name;
      && Reverse(s, names, false) == ":" + shown + ":" + Reverse(rest, names, false)
      && Reverse(s, names, true) == " emoji " + shown + Reverse(rest, names, true)
  {
    hide Reverse, ToString;
    EmojiShown(name, id, rest, names, false);
    EmojiShown(name, id, rest, names, true);
  }

  lemma {:induction false} ToColonIs(name: string, rest: string)
    requires forall c | c in name :: c != ':'
    ensures ToColon(name + ":" + rest) == |name|
  {
    var s := name + ":" + rest;
    if name == "" {
      assert s[0] == ':';
    } else {
      assert name[0] in name && forall c | c in name[1..] :: c in name;
      assert s[1..] == name[1..] + ":" + rest && s[0] == name[0];
      ToColonIs(name[1..], rest);
    }
  }

  lemma EmojiShown(name: string, id: nat, rest: string, names: Names, tts: bool)
    requires id < 0x8000_0000_0000_0000 && forall c | c in name :: c != '<' && c != '>' && c != ':'
    ensures var shown := if names.emoji.Some? && id in names.emoji.value then names.emoji.value[id] else name;
      Reverse("<:" + name + ":" + ToString(id) + ">" + rest, names, tts) ==
        (if tts then " emoji " + shown else ":" + shown + ":") + Reverse(rest, names, tts)
  {
    var d := ToString(id);
    var inner := ":" + name + ":" + d;
    DigitsOnly(id);
    NumberReadsBack(id);
    assert Plain(name);
    hide Reverse, ToString, GetIntFromString, ToColon, Decode, Plain;
    FrontPlain(":");
    PlainJoin(":", name);
    PlainJoin(":" + name, ":");
    PlainJoin(":" + name + ":", d);
    Bracketed(inner, rest, names, tts);
    DecodeEmoji(name, d, names, tts);
    Opened(":" + name + ":", d, rest);
    OpenedName(name);
  }

  lemma OpenedName(name: string)
    ensures "<" + (":" + name + ":") == "<:" + name + ":"
  {
    assert "<" + ":" == "<:";
  }

  lemma DecodeEmoji(name: string, d: string, names: Names, tts: bool)
    requires d != "" && forall c | c in name :: c != ':'
    ensures var id := GetIntFromString(d);
      var shown := if names.emoji.Some? && id in names.emoji.value then names.emoji.value[id] else name;
      Decode(":" + name + ":" + d, names, tts) == Some(if tts then " emoji " + shown else ":" + shown + ":")
  {
    var inner := ":" + name + ":" + d;
    ToColonIs(name, d);
    assert inner[1..] == name + ":" + d;
    var i := 1 + |name|;
    assert inner[i + 1..] == d && inner[..i + 1] == ":" + name + ":";
    hide ToColon, GetIntFromString;
    var id := GetIntFromString(d);
    var shown := if names.emoji.Some? && id in names.emoji.value then names.emoji.value[id] else name;
    Inside(shown);
  }

  lemma Inside(shown: string)
    ensures var s := ":" + shown + ":"; |s| >= 2 && s[1..|s| - 1] == shown
  {
  }

  /** What is not shown for anything: no mention of the three kinds, or an emoji without its second colon. */
  lemma ShownAsIs(inner: string, rest: string, names: Names, tts: bool)
    requires |inner| >= 2 && forall c | c in inner :: c != '<' && c != '>'
    requires inner[0] != '@' && inner[0] != '#' && (inner[0] == ':' ==> forall i :: 1 <= i < |inner| ==> inner[i] != ':')
    ensures var s := "<" + inner + ">" + rest; Reverse(s, names, tts) == "<" + Reverse(s[1..], names, tts)
  {
    Bracketed(inner, rest, names, tts);
    hide Reverse;
    if inner[0] == ':' {
      NoColon(inner[1..]);
    }
  }

  lemma {:induction false} NoColon(t: string)
    requires forall i :: 0 <= i < |t| ==> t[i] != ':'
    ensures ToColon(t) == |t|
  {
    if t != "" {
      NoColon(t[1..]);
    }
  }
}
