/** One HTTP client used by many threads: send, with its recursive sends, and stop, as interleaved
    steps.  Each section that runs under the socket mutex is one step; the request mutex, which
    one thread may take more than once, is part of the state. */
module ClientProtocol {
  import opened Bytes

  type Thread = nat

  // ----- the sections under the socket mutex -----

  /** The fields the socket mutex protects. */
  datatype Sock = Sock(inFlight: nat, from: Option<Thread>, shouldClose: bool, open: bool)

  /** The assertion in shutdown_ssl and close_socket. */
  predicate MayClose(k: Sock, me: Thread) {
    k.inFlight == 0 || k.from == Some(me)
  }

  /** What becomes of a section: the fields after it, or a failed assertion. */
  datatype Section = Fields(k: Sock, going: bool) | AssertionFails

  /** shutdown_ssl, shutdown_socket and close_socket. */
  function Close(k: Sock, me: Thread): Section {
    if MayClose(k, me) then Fields(k.(open := false), true) else AssertionFails
  }

  /** The assertion fails exactly when requests of another thread, or of none, are in flight. */
  lemma CloseFails(k: Sock, me: Thread)
    ensures Close(k, me).AssertionFails? <==> k.inFlight > 0 && k.from != Some(me)
  {
  }

  /** How connecting turns out; a proxy that wants credentials leaves a socket behind. */
  datatype Connect = Connected | NotConnected(leftOpen: bool)

  /** The first section of send; going is false when send returns without a request. */
  function Setup(k: Sock, me: Thread, alive: bool, connect: Connect): Section {
    var k0 := k.(shouldClose := false);
    var closed := if k0.open && !alive then Close(k0, me) else Fields(k0, true);
    if closed.AssertionFails? then AssertionFails else
    var k1 := closed.k;
    if !(k0.open && alive) && connect.NotConnected? then Fields(k1.(open := connect.leftOpen), false)
    else if k1.inFlight > 1 && k1.from != Some(me) then AssertionFails
    else Fields(Sock(k1.inFlight + 1, Some(me), k1.shouldClose, true), true)
  }

  /** The last section of send. */
  function Finish(k: Sock, me: Thread, ret: bool, close: bool): Section {
    if k.inFlight == 0 then AssertionFails else
    var n := k.inFlight - 1;
    var k1 := k.(inFlight := n, from := if n == 0 then None else k.from);
    if k1.shouldClose || close || !ret then Close(k1, me) else Fields(k1, true)
  }

  /** stop. */
  function Stop(k: Sock, me: Thread): Section {
    if k.inFlight > 0 then Fields(k.(shouldClose := true), true) else Close(k, me)
  }

  /** The sections assert what the program asserts. */
  lemma SectionsAssert(k: Sock, me: Thread, alive: bool, connect: Connect, ret: bool, close: bool)
    ensures Setup(k, me, alive, connect).AssertionFails? <==>
      || (k.open && !alive && k.inFlight > 0 && k.from != Some(me))
      || (((k.open && alive) || connect.Connected?) && k.inFlight > 1 && k.from != Some(me))
    ensures Finish(k, me, ret, close).AssertionFails? <==>
      || k.inFlight == 0
      || (k.inFlight > 1 && (k.shouldClose || close || !ret) && k.from != Some(me))
    ensures Stop(k, me).AssertionFails? <==> false
  {
  }

  // ----- threads -----

  /** Where a call of send stands: before the request mutex, holding it, with its request in
      flight, with the response read, or about to let go of the mutex. */
  datatype Phase = Waiting | Entering | Busy | Leaving(ret: bool, close: bool) | Exiting

  /** The state; a thread's calls of send are innermost last. */
  datatype Client = Client(owner: Option<Thread>, depth: nat, sock: Sock, calls: map<Thread, seq<Phase>>)

  function Calls(c: Client, t: Thread): seq<Phase> {
    if t in c.calls then c.calls[t] else []
  }

  function Start(open: bool): Client {
    Client(None, 0, Sock(0, None, false, open), map[])
  }

  datatype Label =
    | CallSend(t: Thread)
    | Lock(t: Thread)
    | DoSetup(t: Thread, alive: bool, connect: Connect)
    | Disconnect(t: Thread)
    | Answered(t: Thread, ret: bool, close: bool)
    | DoFinish(t: Thread)
    | Unlock(t: Thread)
    | DoStop(t: Thread)

  datatype Outcome = Goes(c: Client) | Disabled | Fails

  /** The innermost call of a thread moves to another phase. */
  function Move(c: Client, t: Thread, phase: Phase): Client
    requires Calls(c, t) != []
  {
    var s := Calls(c, t);
    c.(calls := c.calls[t := s[..|s| - 1] + [phase]])
  }

  function After(c: Client, t: Thread, section: Section, yes: Phase, no: Phase): Outcome
    requires Calls(c, t) != []
  {
    if section.AssertionFails? then Fails
    else Goes(Move(c, t, if section.going then yes else no).(sock := section.k))
  }

  predicate Top(c: Client, t: Thread, phase: Phase) {
    Calls(c, t) != [] && Calls(c, t)[|Calls(c, t)| - 1] == phase
  }

  predicate MayCall(c: Client, t: Thread) { Calls(c, t) == [] || Top(c, t, Busy) }

  /** One step of one thread. */
  function Step(c: Client, l: Label): Outcome {
    var t := l.t;
    match l
    case CallSend(_) =>
      if MayCall(c, t) then Goes(c.(calls := c.calls[t := Calls(c, t) + [Waiting]])) else Disabled
    case Lock(_) =>
      if Top(c, t, Waiting) && (c.owner == None || c.owner == Some(t))
      then Goes(Move(c, t, Entering).(owner := Some(t), depth := c.depth + 1)) else Disabled
    case DoSetup(_, alive, connect) =>
      if Top(c, t, Entering) then After(c, t, Setup(c.sock, t, alive, connect), Busy, Exiting) else Disabled
    case Disconnect(_) =>
      if Top(c, t, Busy) then After(c, t, Close(c.sock, t), Busy, Busy) else Disabled
    case Answered(_, ret, close) =>
      if Top(c, t, Busy) then Goes(Move(c, t, Leaving(ret, close))) else Disabled
    case DoFinish(_) =>
      var s := Calls(c, t);
      if s != [] && s[|s| - 1].Leaving?
      then After(c, t, Finish(c.sock, t, s[|s| - 1].ret, s[|s| - 1].close), Exiting, Exiting) else Disabled
    case Unlock(_) =>
      var s := Calls(c, t);
      if Top(c, t, Exiting) && c.depth > 0
      then Goes(c.(owner := if c.depth == 1 then None else c.owner, depth := c.depth - 1, calls := c.calls[t := s[..|s| - 1]]))
      else Disabled
    case DoStop(_) =>
      if !MayCall(c, t) then Disabled else
      var section := Stop(c.sock, t);
      if section.AssertionFails? then Fails else Goes(c.(sock := section.k))
  }

  /** A whole run, up to the first step that is not possible or fails an assertion. */
  function Run(c: Client, ls: seq<Label>): Outcome
    decreases |ls|
  {
    if ls == [] then Goes(c)
    else
      var o := Step(c, ls[0]);
      if o.Goes? then Run(o.c, ls[1..]) else o
  }

  // ----- what every step keeps -----

  function Locked(s: seq<Phase>): nat {
    if s == [] then 0 else Locked(s[..|s| - 1]) + if s[|s| - 1].Waiting? then 0 else 1
  }

  function Flying(s: seq<Phase>): nat {
    if s == [] then 0 else Flying(s[..|s| - 1]) + if s[|s| - 1].Busy? || s[|s| - 1].Leaving? then 1 else 0
  }

  /** Only a call with its request in flight can have called send again. */
  predicate Nested(s: seq<Phase>) {
    forall i :: 0 <= i < |s| - 1 ==> s[i].Busy?
  }

  /** The owner of the request mutex holds it once for each of its calls past the lock, and all
      requests in flight are its own; nobody else is past the lock. */
  predicate Inv(c: Client) {
    && (forall t :: t in c.calls ==> Nested(c.calls[t]) && (c.owner != Some(t) ==> Locked(c.calls[t]) == 0))
    && (c.owner == None ==> c.depth == 0 && c.sock.inFlight == 0)
    && (c.owner.Some? ==>
          var s := Calls(c, c.owner.value);
          c.depth == Locked(s) > 0 && c.sock.inFlight == Flying(s))
    && (c.sock.inFlight > 0 ==> c.sock.from == c.owner)
    && (c.sock.inFlight == 0 ==> c.sock.from == None)
  }

  /** While a request is in flight, the thread on record holds the request mutex. */
  predicate RecordedHolds(c: Client) {
    c.sock.inFlight > 0 ==> c.owner.Some? && c.sock.from == c.owner && c.depth > 0
  }

  lemma InvHolds(c: Client)
    requires Inv(c)
    ensures RecordedHolds(c)
  {
  }

  lemma {:induction false} FlyingLocked(s: seq<Phase>)
    ensures Flying(s) <= Locked(s)
  {
    if s != [] {
      FlyingLocked(s[..|s| - 1]);
    }
  }

  lemma CountsSnoc(s: seq<Phase>, p: Phase)
    ensures Locked(s + [p]) == Locked(s) + if p.Waiting? then 0 else 1
    ensures Flying(s + [p]) == Flying(s) + if p.Busy? || p.Leaving? then 1 else 0
  {
    assert (s + [p])[..|s|] == s;
  }

  lemma CountsTop(s: seq<Phase>)
    requires s != []
    ensures s == s[..|s| - 1] + [s[|s| - 1]]
    ensures Locked(s) == Locked(s[..|s| - 1]) + if s[|s| - 1].Waiting? then 0 else 1
    ensures Flying(s) == Flying(s[..|s| - 1]) + if s[|s| - 1].Busy? || s[|s| - 1].Leaving? then 1 else 0
  {
  }

  /** A step that changes only t's calls and keeps the books about them. */
  lemma InvBy(c: Client, d: Client, t: Thread, s: seq<Phase>)
    requires Inv(c) && d.calls == c.calls[t := s] && Nested(s)
    requires d.owner == c.owner || ((c.owner == None || c.owner == Some(t)) && (d.owner == None || d.owner == Some(t)))
    requires d.owner == Some(t) ==> d.depth == Locked(s) > 0 && d.sock.inFlight == Flying(s)
    requires d.owner != Some(t) ==> Locked(s) == 0
    requires d.owner == None ==> d.depth == 0 && d.sock.inFlight == 0
    requires d.owner.Some? && d.owner != Some(t) ==> d.depth == c.depth && d.sock.inFlight == c.sock.inFlight
    requires d.sock.inFlight > 0 ==> d.sock.from == d.owner
    requires d.sock.inFlight == 0 ==> d.sock.from == None
    ensures Inv(d)
  {
    assert Calls(d, t) == s;
    assert d.owner.Some? && d.owner != Some(t) ==> Calls(d, d.owner.value) == Calls(c, d.owner.value);
    hide Locked, Flying, Nested;
    forall u | u in d.calls
      ensures Nested(d.calls[u]) && (d.owner != Some(u) ==> Locked(d.calls[u]) == 0)
    {
      if u != t {
        assert d.calls[u] == c.calls[u];
      }
    }
  }

  /** A thread whose innermost call is past the lock owns the request mutex, and its requests are
      the ones in flight. */
  lemma OwnerIs(c: Client, t: Thread)
    requires Inv(c) && Calls(c, t) != [] && !Calls(c, t)[|Calls(c, t)| - 1].Waiting?
    ensures c.owner == Some(t) && c.depth == Locked(Calls(c, t)) && c.sock.inFlight == Flying(Calls(c, t))
    ensures MayClose(c.sock, t)
  {
    CountsTop(Calls(c, t));
    hide Locked, Flying, Nested;
  }

  lemma NestedMove(s: seq<Phase>, p: Phase)
    requires Nested(s) && s != []
    ensures Nested(s[..|s| - 1]) && Nested(s[..|s| - 1] + [p])
    ensures s[|s| - 1].Busy? ==> Nested(s + [p])
  {
  }

  lemma NestedCalls(c: Client, t: Thread)
    requires Inv(c)
    ensures Nested(Calls(c, t)) && (c.owner != Some(t) ==> Locked(Calls(c, t)) == 0)
  {
    hide Nested;
    assert Calls(c, t) == [] ==> Nested([]) && Locked([]) == 0 by {
      NestedEmpty();
    }
  }

  lemma NestedEmpty()
    ensures Nested([]) && Locked([]) == 0 && Flying([]) == 0
  {
  }

  /** The innermost call moves; in flight is how many requests that adds. */
  lemma MoveKeeps(c: Client, t: Thread, p: Phase, k: Sock)
    requires Inv(c) && Calls(c, t) != [] && !p.Waiting?
    requires !Calls(c, t)[|Calls(c, t)| - 1].Waiting?
    requires var was := Calls(c, t)[|Calls(c, t)| - 1];
      k.inFlight == c.sock.inFlight - (if was.Busy? || was.Leaving? then 1 else 0) + (if p.Busy? || p.Leaving? then 1 else 0)
    requires k.inFlight > 0 ==> k.from == Some(t)
    requires k.inFlight == 0 ==> k.from == None
    ensures Inv(Move(c, t, p).(sock := k))
  {
    var s := Calls(c, t);
    OwnerIs(c, t);
    NestedCalls(c, t);
    NestedMove(s, p);
    CountsTop(s);
    CountsSnoc(s[..|s| - 1], p);
    hide Nested, Locked, Flying, Inv;
    InvBy(c, Move(c, t, p).(sock := k), t, s[..|s| - 1] + [p]);
  }

  lemma CallKeeps(c: Client, t: Thread)
    requires Inv(c) && MayCall(c, t)
    ensures Inv(Step(c, CallSend(t)).c)
  {
    var s := Calls(c, t);
    NestedCalls(c, t);
    NestedEmpty();
    if s != [] {
      NestedMove(s, Waiting);
      OwnerIs(c, t);
    }
    CountsSnoc(s, Waiting);
    assert Nested(s + [Waiting]);
    hide Nested, Locked, Flying;
    InvBy(c, Step(c, CallSend(t)).c, t, s + [Waiting]);
  }

  lemma LockKeeps(c: Client, t: Thread)
    requires Inv(c) && Step(c, Lock(t)).Goes?
    ensures Inv(Step(c, Lock(t)).c)
  {
    var s := Calls(c, t);
    NestedCalls(c, t);
    NestedMove(s, Entering);
    CountsTop(s);
    CountsSnoc(s[..|s| - 1], Entering);
    FlyingLocked(s);
    hide Nested, Locked, Flying;
    InvBy(c, Step(c, Lock(t)).c, t, s[..|s| - 1] + [Entering]);
  }

  lemma UnlockKeeps(c: Client, t: Thread)
    requires Inv(c) && Step(c, Unlock(t)).Goes?
    ensures Inv(Step(c, Unlock(t)).c)
  {
    var s := Calls(c, t);
    OwnerIs(c, t);
    NestedCalls(c, t);
    NestedMove(s, Exiting);
    CountsTop(s);
    FlyingLocked(s[..|s| - 1]);
    hide Nested, Locked, Flying;
    InvBy(c, Step(c, Unlock(t)).c, t, s[..|s| - 1]);
  }

  lemma SetupKeeps(c: Client, t: Thread, alive: bool, connect: Connect)
    requires Inv(c) && Top(c, t, Entering)
    ensures var o := Step(c, DoSetup(t, alive, connect)); o.Goes? && Inv(o.c)
  {
    OwnerIs(c, t);
    var section := Setup(c.sock, t, alive, connect);
    assert section.Fields?;
    assert c.sock.inFlight > 0 ==> c.sock.from == Some(t);
    assert c.sock.inFlight == 0 ==> c.sock.from == None;
    hide Inv, Setup, Locked, Flying;
    MoveKeeps(c, t, if section.going then Busy else Exiting, section.k);
  }

  lemma FinishKeeps(c: Client, t: Thread)
    requires Inv(c) && Calls(c, t) != [] && Calls(c, t)[|Calls(c, t)| - 1].Leaving?
    ensures var o := Step(c, DoFinish(t)); o.Goes? && Inv(o.c)
  {
    hide Inv, Finish, Locked, Flying, Setup, Stop, Close, Nested;
    OwnerIs(c, t);
    var p := Calls(c, t)[|Calls(c, t)| - 1];
    CountsTop(Calls(c, t));
    FlyingFrom(c, t);
    FinishFits(c.sock, t, p.ret, p.close);
    MoveKeeps(c, t, Exiting, Finish(c.sock, t, p.ret, p.close).k);
  }

  lemma FlyingFrom(c: Client, t: Thread)
    requires Inv(c) && c.owner == Some(t) && c.sock.inFlight > 0
    ensures c.sock.from == Some(t)
  {
  }

  lemma FinishFits(k: Sock, t: Thread, ret: bool, close: bool)
    requires k.inFlight > 0 && k.from == Some(t)
    ensures var section := Finish(k, t, ret, close);
      && section.Fields? && section.going && section.k.inFlight == k.inFlight - 1
      && section.k.from == if section.k.inFlight > 0 then Some(t) else None
  {
  }

  lemma BusyKeeps(c: Client, t: Thread, p: Phase, open: bool)
    requires Inv(c) && Top(c, t, Busy) && (p.Busy? || p.Leaving?)
    ensures Inv(Move(c, t, p).(sock := c.sock.(open := open)))
  {
    OwnerIs(c, t);
    CountsTop(Calls(c, t));
    assert c.sock.from == Some(t);
    hide Inv, Locked, Flying;
    MoveKeeps(c, t, p, c.sock.(open := open));
  }

  lemma StopKeeps(c: Client, t: Thread)
    requires Inv(c) && MayCall(c, t)
    ensures var o := Step(c, DoStop(t)); o.Goes? && Inv(o.c)
  {
    hide Nested, Locked, Flying;
    var o := Step(c, DoStop(t));
    assert o.Goes? && o.c == c.(sock := o.c.sock);
    assert c.owner.Some? ==> Calls(o.c, c.owner.value) == Calls(c, c.owner.value);
  }

  /** No step fails an assertion, and every step keeps the books. */
  lemma StepKeeps(c: Client, l: Label)
    requires Inv(c)
    ensures var o := Step(c, l); !o.Fails? && (o.Goes? ==> Inv(o.c))
  {
    var t := l.t;
    hide Inv, Setup, Finish, Stop;
    if Step(c, l).Disabled? {
      return;
    }
    match l
    case CallSend(_) => CallKeeps(c, t);
    case Lock(_) => LockKeeps(c, t);
    case DoSetup(_, alive, connect) => SetupKeeps(c, t, alive, connect);
    case Disconnect(_) =>
      OwnerIs(c, t);
      BusyKeeps(c, t, Busy, false);
    case Answered(_, ret, close) =>
      BusyKeeps(c, t, Leaving(ret, close), c.sock.open);
    case DoFinish(_) => FinishKeeps(c, t);
    case Unlock(_) => UnlockKeeps(c, t);
    case DoStop(_) => StopKeeps(c, t);
  }

  /** In every run of any threads over one client, no assertion fails, and after each step the
      thread on record for the requests in flight holds the request mutex. */
  lemma {:induction false} RunsSafely(c: Client, ls: seq<Label>)
    requires Inv(c)
    ensures var o := Run(c, ls); !o.Fails? && (o.Goes? ==> Inv(o.c) && RecordedHolds(o.c))
    decreases |ls|
  {
    if ls == [] {
      InvHolds(c);
    } else {
      StepKeeps(c, ls[0]);
      hide Inv, Step, RecordedHolds;
      if Step(c, ls[0]).Goes? {
        RunsSafely(Step(c, ls[0]).c, ls[1..]);
      }
    }
  }

  lemma EveryRunIsSafe(open: bool, ls: seq<Label>)
    ensures var o := Run(Start(open), ls);
      !o.Fails? && (o.Goes? && o.c.sock.inFlight > 0 ==> o.c.owner.Some? && o.c.sock.from == o.c.owner && o.c.depth > 0)
  {
    RunsSafely(Start(open), ls);
  }

  // ----- a stop while a request is in flight -----

  /** t's only call of send has a request in flight that a stop has reached, or has already closed
      the socket on its way out. */
  predicate Doomed(c: Client, t: Thread) {
    && Inv(c) && c.owner == Some(t) && |Calls(c, t)| == 1
    && var p := Calls(c, t)[0];
       if p.Exiting? then !c.sock.open else (p.Busy? || p.Leaving?) && c.sock.shouldClose
  }

  lemma OneFlying(c: Client, t: Thread)
    requires Inv(c) && c.owner == Some(t) && |Calls(c, t)| == 1 && !Calls(c, t)[0].Waiting?
    ensures c.sock.inFlight == if Calls(c, t)[0].Busy? || Calls(c, t)[0].Leaving? then 1 else 0
    ensures c.depth == 1
  {
    var s := Calls(c, t);
    CountsTop(s);
    assert s[..0] == [];
    NestedEmpty();
  }

  /** Only a nested send of t itself can take the stop back, and only t's return ends the request. */
  lemma StaysDoomed(c: Client, t: Thread, l: Label)
    requires Doomed(c, t) && Step(c, l).Goes? && l != CallSend(t) && l != Unlock(t)
    ensures Doomed(Step(c, l).c, t)
  {
    hide Inv, Locked, Flying, Nested;
    StepKeeps(c, l);
    OneFlying(c, t);
    if l.t != t {
      OthersWait(c, t, l);
    } else if l.DoFinish? {
      FinishDooms(c.sock, t, Calls(c, t)[0].ret, Calls(c, t)[0].close);
    }
  }

  /** Another thread can only call, wait or stop. */
  lemma OthersWait(c: Client, t: Thread, l: Label)
    requires Doomed(c, t) && Step(c, l).Goes? && l.t != t
    ensures var d := Step(c, l).c;
      && d.owner == c.owner && Calls(d, t) == Calls(c, t)
      && (d.sock.shouldClose || !c.sock.shouldClose) && (!d.sock.open || c.sock.open)
  {
    var u := l.t;
    hide Locked, Flying, Nested, Inv, Setup, Finish;
    if Calls(c, u) != [] && !Calls(c, u)[|Calls(c, u)| - 1].Waiting? {
      OwnerIs(c, u);
    }
  }

  lemma FinishDooms(k: Sock, t: Thread, ret: bool, close: bool)
    requires Finish(k, t, ret, close).Fields? && k.shouldClose
    ensures !Finish(k, t, ret, close).k.open
  {
  }

  lemma {:induction false} DoomedRun(c: Client, t: Thread, ls: seq<Label>)
    requires Doomed(c, t) && CallSend(t) !in ls && Unlock(t) !in ls && Run(c, ls).Goes?
    ensures Doomed(Run(c, ls).c, t)
    decreases |ls|
  {
    if ls != [] {
      assert ls[0] in ls && forall l | l in ls[1..] :: l in ls;
      hide Doomed, Step;
      StaysDoomed(c, t, ls[0]);
      DoomedRun(Step(c, ls[0]).c, t, ls[1..]);
    }
  }

  lemma {:induction false} RunAppend(c: Client, a: seq<Label>, b: seq<Label>)
    requires Run(c, a).Goes?
    ensures Run(c, a + b) == Run(Run(c, a).c, b)
    decreases |a|
  {
    hide Step;
    if a == [] {
      assert a + b == b;
    } else {
      assert (a + b)[1..] == a[1..] + b && (a + b)[0] == a[0];
      RunAppend(Step(c, a[0]).c, a[1..], b);
    }
  }

  /** A stop that lands while a request is in flight has the socket closed when that send returns,
      whatever else happens in between, provided the request does not send again. */
  lemma StopCloses(c: Client, t: Thread, u: Thread, mid: seq<Label>)
    requires Inv(c) && c.owner == Some(t) && |Calls(c, t)| == 1
    requires Calls(c, t)[0].Busy? || Calls(c, t)[0].Leaving?
    requires CallSend(t) !in mid && Unlock(t) !in mid
    requires Run(c, [DoStop(u)] + mid + [Unlock(t)]).Goes?
    ensures var d := Run(c, [DoStop(u)] + mid + [Unlock(t)]).c;
      !d.sock.open && d.owner == None && Calls(d, t) == []
  {
    var stop, ls := DoStop(u), mid + [Unlock(t)];
    OneFlying(c, t);
    StepKeeps(c, stop);
    assert [stop] + mid + [Unlock(t)] == [stop] + ls && ([stop] + ls)[1..] == ls;
    assert Step(c, stop).Goes?;
    var e := Step(c, stop).c;
    assert Doomed(e, t) by {
      assert e == c.(sock := e.sock) && Calls(e, t) == Calls(c, t);
    }
    hide Step, Inv;
    MidGoes(e, mid, [Unlock(t)]);
    DoomedRun(e, t, mid);
    RunAppend(e, mid, [Unlock(t)]);
    var f := Run(e, mid).c;
    RunOne(f, Unlock(t));
    UnlockLast(f, t);
  }

  lemma {:induction false} MidGoes(c: Client, a: seq<Label>, b: seq<Label>)
    requires Run(c, a + b).Goes?
    ensures Run(c, a).Goes?
    decreases |a|
  {
    hide Step;
    if a != [] {
      assert (a + b)[1..] == a[1..] + b && (a + b)[0] == a[0];
      MidGoes(Step(c, a[0]).c, a[1..], b);
    }
  }

  lemma RunOne(c: Client, l: Label)
    requires Run(c, [l]).Goes?
    ensures Step(c, l).Goes? && Run(c, [l]) == Step(c, l)
  {
    hide Step;
    assert [l][1..] == [];
    if Step(c, l).Goes? {
      assert Run(Step(c, l).c, []) == Goes(Step(c, l).c);
    }
  }

  lemma UnlockLast(c: Client, t: Thread)
    requires Doomed(c, t) && Step(c, Unlock(t)).Goes?
    ensures var d := Step(c, Unlock(t)).c; !d.sock.open && d.owner == None && Calls(d, t) == []
  {
    OneFlying(c, t);
    hide Inv, Locked, Flying;
  }

  // ----- when a stop is lost -----

  /** Nothing but a stop gives a reason to close the socket. */
  predicate Quiet(l: Label) {
    !l.Disconnect? && (l.Answered? ==> l.ret && !l.close) && (l.DoSetup? ==> l.connect.Connected?)
  }

  /** Whether a stop came after the last send began. */
  function Signalled(was: bool, ls: seq<Label>): bool {
    if ls == [] then was
    else
      var last := ls[|ls| - 1];
      last.DoStop? || (!last.DoSetup? && Signalled(was, ls[..|ls| - 1]))
  }

  predicate InFlightThroughout(c: Client, ls: seq<Label>)
    decreases |ls|
  {
    c.sock.inFlight > 0 && (ls == [] || (Step(c, ls[0]).Goes? && InFlightThroughout(Step(c, ls[0]).c, ls[1..])))
  }

  /** t's requests are in flight and none has met a reason to close the socket but a stop. */
  predicate Quietly(c: Client, t: Thread) {
    && Inv(c) && c.owner == Some(t) && c.sock.inFlight > 0 && (c.sock.open || c.sock.shouldClose)
    && forall p | p in Calls(c, t) :: p.Leaving? ==> p.ret && !p.close
  }

  lemma QuietStep(c: Client, t: Thread, l: Label)
    requires Quietly(c, t) && Quiet(l) && Step(c, l).Goes? && Step(c, l).c.sock.inFlight > 0
    ensures var d := Step(c, l).c;
      Quietly(d, t) && d.sock.shouldClose == (l.DoStop? || (!l.DoSetup? && c.sock.shouldClose))
  {
    var u := l.t;
    StepKeeps(c, l);
    if Calls(c, u) != [] && !Calls(c, u)[|Calls(c, u)| - 1].Waiting? {
      OwnerIs(c, u);
    }
    hide Inv, Locked, Flying, Nested;
    InvFrom(c);
    InvFrom(Step(c, l).c);
  }

  lemma InvFrom(c: Client)
    requires Inv(c) && c.sock.inFlight > 0
    ensures c.owner.Some? && c.sock.from == c.owner
  {
  }

  lemma {:induction false} QuietRun(c: Client, t: Thread, ls: seq<Label>)
    requires Quietly(c, t) && (forall l | l in ls :: Quiet(l)) && InFlightThroughout(c, ls)
    ensures Run(c, ls).Goes? && Quietly(Run(c, ls).c, t)
    ensures Run(c, ls).c.sock.shouldClose == Signalled(c.sock.shouldClose, ls)
    decreases |ls|
  {
    hide Quietly, Quiet, Step, Inv;
    if ls != [] {
      assert ls[0] in ls && forall l | l in ls[1..] :: l in ls;
      var d := Step(c, ls[0]).c;
      assert d.sock.inFlight > 0;
      QuietStep(c, t, ls[0]);
      QuietRun(d, t, ls[1..]);
      SignalledFirst(c.sock.shouldClose, ls);
    }
  }

  lemma {:induction false} SignalledFirst(was: bool, ls: seq<Label>)
    requires ls != []
    ensures Signalled(was, ls) == Signalled(ls[0].DoStop? || (!ls[0].DoSetup? && was), ls[1..])
  {
    if |ls| > 1 {
      SignalledFirst(was, ls[..|ls| - 1]);
      assert ls[1..][..|ls| - 2] == ls[..|ls| - 1][1..];
    } else {
      assert ls[..0] == [] && ls[1..] == [];
    }
  }

  /** Exactly which stops are lost: when nothing else gives a reason to close it, the socket is
      closed at the end of the outermost send if and only if a stop came after the last send that
      began, the request's own nested sends included. */
  lemma LostStops(c: Client, t: Thread, ls: seq<Label>)
    requires Quietly(c, t) && (forall l | l in ls :: Quiet(l)) && InFlightThroughout(c, ls)
    requires Run(c, ls).Goes? && Step(Run(c, ls).c, DoFinish(t)).Goes? && Run(c, ls).c.sock.inFlight == 1
    ensures !Step(Run(c, ls).c, DoFinish(t)).c.sock.open <==> Signalled(c.sock.shouldClose, ls)
  {
    hide Inv;
    QuietRun(c, t, ls);
    var e := Run(c, ls).c;
    var p := Calls(e, t)[|Calls(e, t)| - 1];
    assert p in Calls(e, t);
  }

  // ----- the socket at the end of a request -----

  /** A stop, a disconnect, an answer that failed and one that ends the connection. */
  predicate Ends(l: Label) {
    l.DoStop? || l.Disconnect? || (l.Answered? && (!l.ret || l.close))
  }

  /** Whether one of them came after the last send began. */
  function Ended(was: bool, ls: seq<Label>): bool {
    if ls == [] then was
    else
      var last := ls[|ls| - 1];
      Ends(last) || (!last.DoSetup? && Ended(was, ls[..|ls| - 1]))
  }

  lemma {:induction false} EndedFirst(was: bool, ls: seq<Label>)
    requires ls != []
    ensures Ended(was, ls) == Ended(Ends(ls[0]) || (!ls[0].DoSetup? && was), ls[1..])
  {
    if |ls| > 1 {
      EndedFirst(was, ls[..|ls| - 1]);
      assert ls[1..][..|ls| - 2] == ls[..|ls| - 1][1..];
    } else {
      assert ls[..0] == [] && ls[1..] == [];
    }
  }

  /** t's requests are in flight. */
  predicate Requesting(c: Client, t: Thread) {
    Inv(c) && c.owner == Some(t) && c.sock.inFlight > 0
  }

  /** The socket is closed, or will be when t's innermost call is done. */
  predicate Closing(c: Client, t: Thread) {
    var s := Calls(c, t);
    !c.sock.open || c.sock.shouldClose || (s != [] && s[|s| - 1].Leaving? && (!s[|s| - 1].ret || s[|s| - 1].close))
  }

  /** Another thread can only call, wait or stop. */
  lemma OthersOnly(c: Client, t: Thread, l: Label)
    requires Requesting(c, t) && Step(c, l).Goes? && l.t != t
    ensures var d := Step(c, l).c;
      Calls(d, t) == Calls(c, t) && d.owner == c.owner && !l.Disconnect? && !l.Answered? && !l.DoSetup?
      && d.sock == if l.DoStop? then c.sock.(shouldClose := true) else c.sock
  {
    var u := l.t;
    if Calls(c, u) != [] && !Calls(c, u)[|Calls(c, u)| - 1].Waiting? {
      OwnerIs(c, u);
    }
    hide Inv, Locked, Flying, Nested, Setup, Finish;
  }

  /** What t's own step does to the socket and to its innermost call. */
  lemma OwnStep(c: Client, t: Thread, l: Label)
    requires Requesting(c, t) && Step(c, l).Goes? && l.t == t && Step(c, l).c.sock.inFlight > 0
    requires l.DoSetup? ==> l.connect.Connected?
    ensures var d := Step(c, l).c;
      Closing(d, t) <==> Ends(l) || (!l.DoSetup? && Closing(c, t))
  {
    RequestingCalls(c, t);
    InvFrom(c);
    hide Inv, Locked, Flying, Nested;
  }

  /** t has calls, and below the innermost one they are all waiting for it. */
  lemma RequestingCalls(c: Client, t: Thread)
    requires Requesting(c, t)
    ensures var s := Calls(c, t); s != [] && (|s| > 1 ==> s[|s| - 2].Busy?)
  {
    NestedCalls(c, t);
    NestedEmpty();
  }

  lemma ClosingStep(c: Client, t: Thread, l: Label)
    requires Requesting(c, t) && Step(c, l).Goes? && Step(c, l).c.sock.inFlight > 0
    requires l.DoSetup? ==> l.connect.Connected?
    ensures var d := Step(c, l).c;
      Requesting(d, t) && (Closing(d, t) <==> Ends(l) || (!l.DoSetup? && Closing(c, t)))
  {
    StepKeeps(c, l);
    InvFrom(c);
    InvFrom(Step(c, l).c);
    if l.t != t {
      OthersOnly(c, t, l);
      hide Step, Inv;
    } else {
      OwnStep(c, t, l);
      hide Step, Inv;
    }
  }

  lemma {:induction false} ClosingRun(c: Client, t: Thread, ls: seq<Label>)
    requires Requesting(c, t) && InFlightThroughout(c, ls)
    requires forall l | l in ls :: l.DoSetup? ==> l.connect.Connected?
    ensures Run(c, ls).Goes? && Requesting(Run(c, ls).c, t)
    ensures Closing(Run(c, ls).c, t) == Ended(Closing(c, t), ls)
    decreases |ls|
  {
    hide Requesting, Closing, Step, Ends;
    if ls != [] {
      assert ls[0] in ls && forall l | l in ls[1..] :: l in ls;
      var d := Step(c, ls[0]).c;
      assert d.sock.inFlight > 0;
      ClosingStep(c, t, ls[0]);
      ClosingRun(d, t, ls[1..]);
      EndedFirst(Closing(c, t), ls);
    }
  }

  /** Whatever threads do while t's requests are in flight, as long as connecting succeeds: when t's
      innermost call of send is done, the socket is open if and only if nothing has ended the connection
      since the last send began: no stop, no disconnect, no answer that failed or asked to close. */
  lemma SocketAtEnd(c: Client, t: Thread, ls: seq<Label>)
    requires Requesting(c, t) && InFlightThroughout(c, ls)
    requires forall l | l in ls :: l.DoSetup? ==> l.connect.Connected?
    requires Run(c, ls).Goes? && Step(Run(c, ls).c, DoFinish(t)).Goes?
    ensures Step(Run(c, ls).c, DoFinish(t)).c.sock.open <==> !Ended(Closing(c, t), ls)
  {
    ClosingRun(c, t, ls);
    FinishOpens(Run(c, ls).c, t);
    hide Step, Closing, Requesting;
  }

  lemma FinishOpens(c: Client, t: Thread)
    requires Requesting(c, t) && Step(c, DoFinish(t)).Goes?
    ensures Step(c, DoFinish(t)).c.sock.open <==> !Closing(c, t)
  {
  }

  /** A request that is redirected to the same host while another thread stops the client. */
  function RedirectedAndStopped(): seq<Label> {
    [CallSend(1), Lock(1), DoSetup(1, false, Connected), DoStop(2),
     CallSend(1), Lock(1), DoSetup(1, false, Connected), Answered(1, true, false), DoFinish(1), Unlock(1),
     Answered(1, true, false), DoFinish(1), Unlock(1)]
  }

  /** The client while only thread 1 has calls of send: those below and the innermost one. */
  function With(depth: nat, k: Sock, below: seq<Phase>, top: Phase): Client {
    Client(if depth > 0 then Some(1) else None, depth, k, map[1 := below + [top]])
  }

  lemma MoveWith(depth: nat, k: Sock, below: seq<Phase>, top: Phase, p: Phase)
    ensures var c := With(depth, k, below, top); Top(c, 1, top) && Calls(c, 1) == below + [top] && Move(c, 1, p) == With(depth, k, below, p)
  {
    assert (below + [top])[..|below|] == below;
  }

  lemma CallWith(depth: nat, k: Sock, below: seq<Phase>)
    ensures Step(With(depth, k, below, Busy), CallSend(1)) == Goes(With(depth, k, below + [Busy], Waiting))
  {
    MoveWith(depth, k, below, Busy, Busy);
    assert below + [Busy] + [Waiting] == (below + [Busy]) + [Waiting];
    hide Setup, Finish, Stop, Close;
  }

  lemma LockWith(depth: nat, k: Sock, below: seq<Phase>)
    ensures Step(With(depth, k, below, Waiting), Lock(1)) == Goes(With(depth + 1, k, below, Entering))
  {
    MoveWith(depth, k, below, Waiting, Entering);
    hide Setup, Finish, Stop, Close, Move, Calls;
  }

  lemma SetupWith(depth: nat, k: Sock, below: seq<Phase>, alive: bool)
    requires k.inFlight > 0 ==> k.from == Some(1)
    ensures Step(With(depth, k, below, Entering), DoSetup(1, alive, Connected))
      == Goes(With(depth, Sock(k.inFlight + 1, Some(1), false, true), below, Busy))
  {
    MoveWith(depth, k, below, Entering, Busy);
    hide Finish, Stop, Move, Calls;
  }

  lemma AnsweredWith(depth: nat, k: Sock, below: seq<Phase>)
    ensures Step(With(depth, k, below, Busy), Answered(1, true, false)) == Goes(With(depth, k, below, Leaving(true, false)))
  {
    MoveWith(depth, k, below, Busy, Leaving(true, false));
    hide Setup, Finish, Stop, Close, Move, Calls;
  }

  lemma FinishWith(depth: nat, k: Sock, below: seq<Phase>)
    requires k.inFlight > 0 && !k.shouldClose
    ensures Step(With(depth, k, below, Leaving(true, false)), DoFinish(1))
      == Goes(With(depth, k.(inFlight := k.inFlight - 1, from := if k.inFlight == 1 then None else k.from), below, Exiting))
  {
    MoveWith(depth, k, below, Leaving(true, false), Exiting);
    hide Setup, Stop, Move, Calls;
  }

  lemma UnlockWith(depth: nat, k: Sock, below: seq<Phase>, busy: Phase)
    requires depth > 1
    ensures Step(With(depth, k, below + [busy], Exiting), Unlock(1)) == Goes(With(depth - 1, k, below, busy))
  {
    MoveWith(depth, k, below + [busy], Exiting, Exiting);
    assert (below + [busy] + [Exiting])[..|below| + 1] == below + [busy];
    hide Setup, Finish, Stop, Close, Move;
  }

  lemma RunCons(c: Client, d: Client, ls: seq<Label>, i: nat)
    requires i < |ls| && Step(c, ls[i]) == Goes(d)
    ensures Run(c, ls[i..]) == Run(d, ls[i + 1..])
  {
    hide Step;
    assert ls[i..][1..] == ls[i + 1..];
  }

  lemma Labels()
    ensures var ls := RedirectedAndStopped();
      && |ls| == 13 && ls[0] == CallSend(1) && ls[1] == Lock(1) && ls[2] == DoSetup(1, false, Connected) && ls[3] == DoStop(2)
      && ls[4] == CallSend(1) && ls[5] == Lock(1) && ls[6] == DoSetup(1, false, Connected) && ls[7] == Answered(1, true, false)
      && ls[8] == DoFinish(1) && ls[9] == Unlock(1) && ls[10] == Answered(1, true, false) && ls[11] == DoFinish(1)
      && ls[12] == Unlock(1) && ls[0..] == ls && ls[13..] == []
  {
  }

  lemma StartWith()
    ensures Step(Start(false), CallSend(1)) == Goes(With(0, Sock(0, None, false, false), [], Waiting))
  {
    assert [] + [Waiting] == [Waiting];
    assert Start(false).calls[1 := [Waiting]] == map[1 := [Waiting]];
  }

  lemma StopWith(k: Sock)
    requires k.inFlight > 0
    ensures Step(With(1, k, [], Busy), DoStop(2)) == Goes(With(1, k.(shouldClose := true), [], Busy))
  {
  }

  lemma EndWith(k: Sock)
    ensures Step(With(1, k, [], Exiting), Unlock(1)) == Goes(Client(None, 0, k, map[1 := []]))
  {
    hide Setup, Finish, Stop, Close, Move, MayCall;
    MoveWith(1, k, [], Exiting, Exiting);
    assert ([] + [Exiting])[..0] == [];
    assert With(1, k, [], Exiting).calls[1 := []] == map[1 := []];
  }

  /** The request is sent and another thread stops the client. */
  lemma SentAndStopped()
    ensures var ls := RedirectedAndStopped();
      Run(Start(false), ls) == Run(With(1, Sock(1, Some(1), true, true), [], Busy), ls[4..])
  {
    hide *;
    Labels();
    var ls := RedirectedAndStopped();
    var k0, k := Sock(0, None, false, false), Sock(1, Some(1), false, true);
    var c0, c1 := Start(false), With(0, k0, [], Waiting);
    StartWith();
    LockWith(0, k0, []);
    SetupWith(1, k0, [], false);
    StopWith(k);
    RunCons(c0, c1, ls, 0);
    RunCons(c1, With(1, k0, [], Entering), ls, 1);
    RunCons(With(1, k0, [], Entering), With(1, k, [], Busy), ls, 2);
    RunCons(With(1, k, [], Busy), With(1, k.(shouldClose := true), [], Busy), ls, 3);
  }

  /** The nested send of the redirection, from call to return. */
  lemma SentAgain(k: Sock)
    requires k == Sock(1, Some(1), true, true)
    ensures var ls := RedirectedAndStopped();
      Run(With(1, k, [], Busy), ls[4..]) == Run(With(1, k.(shouldClose := false), [], Busy), ls[10..])
  {
    hide *;
    Labels();
    var ls, b := RedirectedAndStopped(), [] + [Busy];
    var k2 := Sock(2, Some(1), false, true);
    CallWith(1, k, []);
    LockWith(1, k, b);
    SetupWith(2, k, b, false);
    AnsweredWith(2, k2, b);
    FinishWith(2, k2, b);
    UnlockWith(2, k.(shouldClose := false), [], Busy);
    RunCons(With(1, k, [], Busy), With(1, k, b, Waiting), ls, 4);
    RunCons(With(1, k, b, Waiting), With(2, k, b, Entering), ls, 5);
    RunCons(With(2, k, b, Entering), With(2, k2, b, Busy), ls, 6);
    RunCons(With(2, k2, b, Busy), With(2, k2, b, Leaving(true, false)), ls, 7);
    RunCons(With(2, k2, b, Leaving(true, false)), With(2, k.(shouldClose := false), b, Exiting), ls, 8);
    RunCons(With(2, k.(shouldClose := false), b, Exiting), With(1, k.(shouldClose := false), [], Busy), ls, 9);
  }

  /** The nested send clears the flag: the socket is still open when everything has returned. */
  lemma NestedSendLosesStop()
    ensures Run(Start(false), RedirectedAndStopped()) == Goes(Client(None, 0, Sock(0, None, false, true), map[1 := []]))
  {
    hide *;
    Labels();
    var ls := RedirectedAndStopped();
    var k, k0 := Sock(1, Some(1), false, true), Sock(0, None, false, true);
    var end := Client(None, 0, k0, map[1 := []]);
    SentAndStopped();
    SentAgain(k.(shouldClose := true));
    AnsweredWith(1, k, []);
    FinishWith(1, k, []);
    EndWith(k0);
    RunCons(With(1, k, [], Busy), With(1, k, [], Leaving(true, false)), ls, 10);
    RunCons(With(1, k, [], Leaving(true, false)), With(1, k0, [], Exiting), ls, 11);
    RunCons(With(1, k0, [], Exiting), end, ls, 12);
    RunNothing(end);
  }

  lemma RunNothing(c: Client)
    ensures Run(c, []) == Goes(c)
  {
  }
}
