/** The pool of worker threads: enqueue, the workers' loop and shutdown as interleaved steps.
    Each section under the pool's mutex is one step; waking sleepers is a step of its own. */
module ThreadPool {
  import opened Bytes

  /** Jobs are named by when they were enqueued. */
  type Job = nat

  /** A worker about to look at the queue, asleep on the condition variable, running a job, or
      out of its loop. */
  datatype Worker = Checking | Sleeping | Running(job: Job) | Gone

  /** How far shutdown has come. */
  datatype Phase = Up | Flagged | Notified | Returned

  /** The queue and the flag, the threads, and what has happened: how many jobs were enqueued, which
      were started and completed, and how many there were when the flag was set. */
  datatype Pool = Pool(jobs: seq<Job>, workers: seq<Worker>, phase: Phase, toNotify: nat,
                       enqueued: nat, started: seq<Job>, completed: seq<Job>, atFlag: nat)

  function NewPool(n: nat): Pool {
    Pool([], seq(n, _ => Checking), Up, 0, 0, [], [], 0)
  }

  datatype Label =
    | Enqueue
    | NotifyOne(who: nat)
    | SetShutdown
    | NotifyAll
    | Join
    | Check(who: nat)
    | Finish(who: nat)
    | WakeUp(who: nat)

  predicate IsShutdown(p: Pool) { p.phase != Up }

  predicate AllGone(p: Pool) { forall w | w in p.workers :: w == Gone }

  function WakeAll(ws: seq<Worker>): (r: seq<Worker>)
    ensures |r| == |ws|
    ensures forall i :: 0 <= i < |ws| ==> r[i] == if ws[i] == Sleeping then Checking else ws[i]
  {
    if ws == [] then [] else [if ws[0] == Sleeping then Checking else ws[0]] + WakeAll(ws[1..])
  }

  /** One pass of a worker through the section under the mutex: it leaves, takes the oldest job, or
      goes to sleep. */
  function CheckQueue(p: Pool, i: nat): Pool
    requires i < |p.workers|
  {
    if p.jobs == [] && !IsShutdown(p) then p.(workers := p.workers[i := Sleeping])
    else if p.jobs == [] then p.(workers := p.workers[i := Gone])
    else p.(workers := p.workers[i := Running(p.jobs[0])], jobs := p.jobs[1..], started := p.started + [p.jobs[0]])
  }

  /** One step, if it is possible. */
  function Step(p: Pool, l: Label): Option<Pool> {
    match l
    case Enqueue => Some(p.(jobs := p.jobs + [p.enqueued], enqueued := p.enqueued + 1, toNotify := p.toNotify + 1))
    case NotifyOne(i) =>
      if p.toNotify == 0 then None
      else if i < |p.workers| && p.workers[i] == Sleeping then
        Some(p.(workers := p.workers[i := Checking], toNotify := p.toNotify - 1))
      else if Sleeping !in p.workers then Some(p.(toNotify := p.toNotify - 1))
      else None
    case SetShutdown => if p.phase == Up then Some(p.(phase := Flagged, atFlag := p.enqueued)) else None
    case NotifyAll => if p.phase == Flagged then Some(p.(phase := Notified, workers := WakeAll(p.workers))) else None
    case Join => if p.phase == Notified && AllGone(p) then Some(p.(phase := Returned)) else None
    case Check(i) => if i < |p.workers| && p.workers[i] == Checking then Some(CheckQueue(p, i)) else None
    case Finish(i) =>
      if i < |p.workers| && p.workers[i].Running?
      then Some(p.(workers := p.workers[i := Checking], completed := p.completed + [p.workers[i].job])) else None
    case WakeUp(i) =>
      if i < |p.workers| && p.workers[i] == Sleeping then Some(p.(workers := p.workers[i := Checking])) else None
  }

  function Run(p: Pool, ls: seq<Label>): Option<Pool>
    decreases |ls|
  {
    if ls == [] then Some(p)
    else
      var q := Step(p, ls[0]);
      if q == None then None else Run(q.value, ls[1..])
  }

  // ----- what every step keeps -----

  /** 0, 1, ..., n - 1. */
  function Upto(n: nat): (r: seq<Job>)
    ensures |r| == n && forall i :: 0 <= i < n ==> r[i] == i
  {
    seq(n, i => i)
  }

  /** The jobs being run. */
  function Active(ws: seq<Worker>): multiset<Job> {
    if ws == [] then multiset{} else Active(ws[..|ws| - 1]) + JobOf(ws[|ws| - 1])
  }

  function JobOf(w: Worker): multiset<Job> {
    if w.Running? then multiset{w.job} else multiset{}
  }

  predicate Awake(w: Worker) { w.Checking? || w.Running? }

  /** The queue is what was enqueued and not yet started, in order. */
  predicate Queued(started: seq<Job>, jobs: seq<Job>, enqueued: nat) { started + jobs == Upto(enqueued) }

  /** What was started is either done, once, or being run. */
  predicate Ledger(started: seq<Job>, completed: seq<Job>, workers: seq<Worker>) {
    multiset(started) == multiset(completed) + Active(workers)
  }

  predicate Inv(p: Pool) {
    && Queued(p.started, p.jobs, p.enqueued) && Ledger(p.started, p.completed, p.workers)
    && p.atFlag <= p.enqueued
    // nobody leaves before everything enqueued before the flag is started
    && (Gone in p.workers ==> IsShutdown(p) && p.atFlag <= |p.started|)
    // nobody sleeps through a job or a shutdown
    && (p.jobs != [] && Sleeping in p.workers ==> p.toNotify > 0 || p.phase == Flagged || exists w :: w in p.workers && Awake(w))
    && (p.phase == Notified || p.phase == Returned ==> Sleeping !in p.workers)
    && (p.phase == Returned ==> AllGone(p))
  }

  lemma {:induction false} ActiveUpdate(ws: seq<Worker>, i: nat, w: Worker)
    requires i < |ws|
    ensures Active(ws[i := w]) + JobOf(ws[i]) == Active(ws) + JobOf(w)
  {
    var n := |ws| - 1;
    hide JobOf;
    if i == n {
      assert ws[i := w][..n] == ws[..n];
      Swap(Active(ws[..n]), JobOf(w), JobOf(ws[n]));
    } else {
      ActiveUpdate(ws[..n], i, w);
      assert ws[i := w][..n] == ws[..n][i := w] && ws[i := w][n] == ws[n];
      Swap(Active(ws[..n][i := w]), JobOf(ws[n]), JobOf(ws[i]));
      Swap(Active(ws[..n]), JobOf(w), JobOf(ws[n]));
    }
  }

  lemma Swap(a: multiset<Job>, b: multiset<Job>, c: multiset<Job>)
    ensures a + b + c == a + c + b
  {
  }

  lemma {:induction false} ActiveNone(ws: seq<Worker>)
    requires forall w | w in ws :: !w.Running?
    ensures Active(ws) == multiset{}
  {
    if ws != [] {
      ActiveNone(ws[..|ws| - 1]);
    }
  }

  lemma {:induction false} ActiveWakeAll(ws: seq<Worker>)
    ensures Active(WakeAll(ws)) == Active(ws)
  {
    if ws != [] {
      var n := |ws| - 1;
      ActiveWakeAll(ws[..n]);
      assert WakeAll(ws)[..n] == WakeAll(ws[..n]);
    }
  }

  lemma NewPoolInv(n: nat)
    ensures Inv(NewPool(n))
  {
    ActiveNone(NewPool(n).workers);
    assert multiset(NewPool(n).started) == multiset(NewPool(n).completed) + multiset{};
    assert NewPool(n).started + NewPool(n).jobs == Upto(0);
  }

  lemma EnqueueKeeps(p: Pool)
    requires Inv(p)
    ensures Inv(Step(p, Enqueue).value)
  {
    assert Upto(p.enqueued + 1) == Upto(p.enqueued) + [p.enqueued];
    assert p.started + (p.jobs + [p.enqueued]) == (p.started + p.jobs) + [p.enqueued];
    hide Upto, Ledger;
  }

  /** A worker that is not running a job goes to a state that is not either. */
  lemma IdleUpdate(p: Pool, i: nat, w: Worker)
    requires i < |p.workers| && !p.workers[i].Running? && !w.Running?
    ensures Ledger(p.started, p.completed, p.workers[i := w]) == Ledger(p.started, p.completed, p.workers)
  {
    ActiveUpdate(p.workers, i, w);
    Same(Active(p.workers[i := w]));
    Same(Active(p.workers));
  }

  lemma Same(m: multiset<Job>)
    ensures m + multiset{} == m
  {
  }

  lemma Others(ws: seq<Worker>, i: nat, w: Worker)
    requires i < |ws|
    ensures w in ws[i := w]
    ensures forall v | v in ws[i := w] :: v == w || v in ws
    ensures forall v | v in ws :: v == ws[i] || v in ws[i := w]
  {
    forall v | v in ws
      ensures v == ws[i] || v in ws[i := w]
    {
      var j :| 0 <= j < |ws| && ws[j] == v;
      assert j != i ==> ws[i := w][j] == v;
    }
    assert ws[i := w][i] == w;
  }

  lemma WakeKeeps(p: Pool, i: nat, notified: bool)
    requires Inv(p) && i < |p.workers| && p.workers[i] == Sleeping && (notified ==> p.toNotify > 0)
    ensures Inv(p.(workers := p.workers[i := Checking], toNotify := p.toNotify - if notified then 1 else 0))
  {
    IdleUpdate(p, i, Checking);
    Others(p.workers, i, Checking);
    assert Awake(Checking);
    hide Queued, Ledger;
  }

  lemma SleepKeeps(p: Pool, i: nat)
    requires Inv(p) && i < |p.workers| && p.workers[i] == Checking && p.jobs == [] && !IsShutdown(p)
    ensures Inv(p.(workers := p.workers[i := Sleeping]))
  {
    IdleUpdate(p, i, Sleeping);
    Others(p.workers, i, Sleeping);
    hide Queued, Ledger;
  }

  lemma LeaveKeeps(p: Pool, i: nat)
    requires Inv(p) && i < |p.workers| && p.workers[i] == Checking && p.jobs == [] && IsShutdown(p)
    ensures Inv(p.(workers := p.workers[i := Gone]))
  {
    IdleUpdate(p, i, Gone);
    Others(p.workers, i, Gone);
    assert |p.started| == |p.started + p.jobs| == p.enqueued;
    assert Checking in p.workers;
    hide Queued, Ledger;
  }

  lemma TakeBooks(p: Pool, i: nat, j: Job)
    requires i < |p.workers| && p.workers[i] == Checking
    requires Ledger(p.started, p.completed, p.workers)
    ensures Ledger(p.started + [j], p.completed, p.workers[i := Running(j)])
  {
    ActiveUpdate(p.workers, i, Running(j));
    Same(Active(p.workers[i := Running(j)]));
    hide Active;
    assert multiset(p.started + [j]) == multiset(p.started) + multiset{j};
  }

  lemma FinishBooks(p: Pool, i: nat)
    requires i < |p.workers| && p.workers[i].Running?
    requires Ledger(p.started, p.completed, p.workers)
    ensures Ledger(p.started, p.completed + [p.workers[i].job], p.workers[i := Checking])
  {
    ActiveUpdate(p.workers, i, Checking);
    Same(Active(p.workers));
    hide Active;
    assert multiset(p.completed + [p.workers[i].job]) == multiset(p.completed) + multiset{p.workers[i].job};
  }

  lemma TakeKeeps(p: Pool, i: nat)
    requires Inv(p) && i < |p.workers| && p.workers[i] == Checking && p.jobs != []
    ensures Inv(CheckQueue(p, i))
  {
    var j := p.jobs[0];
    TakeBooks(p, i, j);
    Others(p.workers, i, Running(j));
    assert Awake(Running(j)) && Checking in p.workers;
    assert p.started + p.jobs == (p.started + [j]) + p.jobs[1..];
    hide Upto, Ledger;
  }

  lemma FinishKeeps(p: Pool, i: nat)
    requires Inv(p) && i < |p.workers| && p.workers[i].Running?
    ensures Inv(Step(p, Finish(i)).value)
  {
    FinishBooks(p, i);
    Others(p.workers, i, Checking);
    assert Awake(Checking) && p.workers[i] in p.workers;
    hide Queued, Ledger;
  }

  lemma NotifyAllKeeps(p: Pool)
    requires Inv(p) && p.phase == Flagged
    ensures Inv(p.(phase := Notified, workers := WakeAll(p.workers)))
  {
    ActiveWakeAll(p.workers);
    Woken(p.workers);
    assert Ledger(p.started, p.completed, WakeAll(p.workers));
    hide Queued, Ledger, WakeAll;
  }

  lemma Woken(ws: seq<Worker>)
    ensures Sleeping !in WakeAll(ws) && (Gone in WakeAll(ws) ==> Gone in ws)
  {
    if Gone in WakeAll(ws) {
      var i :| 0 <= i < |ws| && WakeAll(ws)[i] == Gone;
      assert ws[i] == Gone;
    }
  }

  lemma StepKeeps(p: Pool, l: Label)
    requires Inv(p) && Step(p, l) != None
    ensures Inv(Step(p, l).value)
  {
    hide Inv, WakeAll;
    match l
    case Enqueue => EnqueueKeeps(p);
    case NotifyOne(i) =>
      if i < |p.workers| && p.workers[i] == Sleeping {
        WakeKeeps(p, i, true);
      } else {
        NothingToWake(p);
      }
    case SetShutdown => FlagKeeps(p);
    case NotifyAll => NotifyAllKeeps(p);
    case Join => JoinKeeps(p);
    case Check(i) =>
      if p.jobs != [] {
        TakeKeeps(p, i);
      } else if IsShutdown(p) {
        LeaveKeeps(p, i);
      } else {
        SleepKeeps(p, i);
      }
    case Finish(i) => FinishKeeps(p, i);
    case WakeUp(i) => WakeKeeps(p, i, false);
  }

  lemma NothingToWake(p: Pool)
    requires Inv(p) && p.toNotify > 0 && Sleeping !in p.workers
    ensures Inv(p.(toNotify := p.toNotify - 1))
  {
    hide Queued, Ledger;
  }

  lemma FlagKeeps(p: Pool)
    requires Inv(p) && p.phase == Up
    ensures Inv(p.(phase := Flagged, atFlag := p.enqueued))
  {
    hide Queued, Ledger;
  }

  lemma JoinKeeps(p: Pool)
    requires Inv(p) && p.phase == Notified && AllGone(p)
    ensures Inv(p.(phase := Returned))
  {
    hide Queued, Ledger;
  }

  lemma {:induction false} RunKeeps(p: Pool, ls: seq<Label>)
    requires Inv(p) && Run(p, ls) != None
    ensures Inv(Run(p, ls).value) && |Run(p, ls).value.workers| == |p.workers|
    decreases |ls|
  {
    if ls != [] {
      StepKeeps(p, ls[0]);
      SameWorkers(p, ls[0]);
      hide Inv, Step;
      RunKeeps(Step(p, ls[0]).value, ls[1..]);
    }
  }

  lemma SameWorkers(p: Pool, l: Label)
    requires Step(p, l) != None
    ensures |Step(p, l).value.workers| == |p.workers|
  {
  }

  // ----- what it comes to -----

  /** In every run jobs start in the order they were enqueued, each is started at most once, and
      what has been completed was started and was completed once. */
  lemma InOrderAtMostOnce(n: nat, ls: seq<Label>)
    requires Run(NewPool(n), ls) != None
    ensures var p := Run(NewPool(n), ls).value;
      && p.started <= Upto(p.enqueued)
      && (forall j :: multiset(p.completed)[j] <= 1)
      && (forall j | j in p.completed :: j in p.started)
  {
    NewPoolInv(n);
    RunKeeps(NewPool(n), ls);
    var p := Run(NewPool(n), ls).value;
    hide Run, Active;
    assert p.started == (p.started + p.jobs)[..|p.started|];
    Distinct(p.started);
    forall j
      ensures multiset(p.completed)[j] <= 1
    {
      assert multiset(p.completed)[j] <= multiset(p.started)[j];
    }
    forall j | j in p.completed
      ensures j in p.started
    {
      assert j in multiset(p.completed) && j in multiset(p.started);
    }
  }

  lemma {:induction false} Distinct(s: seq<Job>)
    requires s == Upto(|s|)
    ensures forall j :: multiset(s)[j] == if 0 <= j < |s| then 1 else 0
  {
    if s != [] {
      var n := |s| - 1;
      assert s[..n] == Upto(n);
      Distinct(s[..n]);
      assert s == s[..n] + [n];
    }
  }

  /** With a worker at all, when shutdown returns every job enqueued before the flag was set has been
      completed, exactly once. */
  lemma ShutdownDrains(n: nat, ls: seq<Label>, j: Job)
    requires n > 0 && Run(NewPool(n), ls) != None && Run(NewPool(n), ls).value.phase == Returned
    requires j < Run(NewPool(n), ls).value.atFlag
    ensures multiset(Run(NewPool(n), ls).value.completed)[j] == 1
  {
    NewPoolInv(n);
    RunKeeps(NewPool(n), ls);
    var p := Run(NewPool(n), ls).value;
    hide Run;
    assert p.workers[0] in p.workers;
    ActiveNone(p.workers);
    hide Active;
    Same(multiset(p.completed));
    assert p.started == (p.started + p.jobs)[..|p.started|];
    Distinct(p.started);
  }

  /** Without a worker shutdown leaves the queue as it is. */
  lemma NoWorkersNoJobs()
    ensures var ls := [Enqueue, SetShutdown, NotifyAll, Join];
      var p := Run(NewPool(0), ls);
      p != None && p.value.phase == Returned && p.value.atFlag == 1 && p.value.completed == []
  {
    var p0 := NewPool(0);
    var ls := [Enqueue, SetShutdown, NotifyAll, Join];
    var p1 := Step(p0, Enqueue).value;
    var p2 := Step(p1, SetShutdown).value;
    var p3 := Step(p2, NotifyAll).value;
    var p4 := Step(p3, Join).value;
    assert p3.workers == [];
    assert ls[1..] == [SetShutdown, NotifyAll, Join] && ls[1..][1..] == [NotifyAll, Join] && ls[1..][1..][1..] == [Join];
    hide Step;
    assert Run(p0, ls) == Run(p1, ls[1..]) == Run(p2, ls[1..][1..]) == Run(p3, [Join]) == Run(p4, []);
  }

  /** Shutdown keeps its promise in every run exactly if the pool has a worker. */
  lemma PromiseIffWorkers(n: nat)
    ensures n > 0 <==>
      forall ls, j: Job :: (Run(NewPool(n), ls) != None && Run(NewPool(n), ls).value.phase == Returned
        && j < Run(NewPool(n), ls).value.atFlag) ==> j in Run(NewPool(n), ls).value.completed
  {
    hide Run;
    if n == 0 {
      NoWorkersNoJobs();
      var ls := [Enqueue, SetShutdown, NotifyAll, Join];
      var j: Job := 0;
      assert j < Run(NewPool(n), ls).value.atFlag && j !in Run(NewPool(n), ls).value.completed;
    } else {
      forall ls, j: Job | Run(NewPool(n), ls) != None && Run(NewPool(n), ls).value.phase == Returned
        && j < Run(NewPool(n), ls).value.atFlag
        ensures j in Run(NewPool(n), ls).value.completed
      {
        ShutdownDrains(n, ls, j);
        assert j in multiset(Run(NewPool(n), ls).value.completed);
      }
    }
  }

  /** Some worker, or a thread that owes a wake-up, can go on. */
  ghost predicate CanGoOn(p: Pool) {
    exists l: Label :: (l.NotifyOne? || l.NotifyAll? || l.Check? || l.Finish? || l.Join?) && Step(p, l) != None
  }

  /** No job and no shutdown is ever slept through: as long as one is pending, something can go on. */
  lemma NoLostWakeUp(n: nat, ls: seq<Label>)
    requires n > 0 && Run(NewPool(n), ls) != None
    ensures var p := Run(NewPool(n), ls).value;
      (p.jobs != [] && !AllGone(p)) || (IsShutdown(p) && p.phase != Returned) ==>
        exists l: Label :: (l.NotifyOne? || l.NotifyAll? || l.Check? || l.Finish? || l.Join?) && Step(p, l) != None
  {
    NewPoolInv(n);
    RunKeeps(NewPool(n), ls);
    var p := Run(NewPool(n), ls).value;
    if (p.jobs != [] && !AllGone(p)) || (IsShutdown(p) && p.phase != Returned) {
      SomethingGoesOn(p);
    }
  }

  lemma SomethingGoesOn(p: Pool)
    requires Inv(p) && ((p.jobs != [] && !AllGone(p)) || (IsShutdown(p) && p.phase != Returned))
    ensures CanGoOn(p)
  {
    hide Active, Upto;
    if p.phase == Flagged {
      assert Step(p, NotifyAll) != None;
    } else if i :| 0 <= i < |p.workers| && Awake(p.workers[i]) {
      if p.workers[i].Checking? {
        assert Step(p, Check(i)) != None;
      } else {
        assert Step(p, Finish(i)) != None;
      }
    } else if AllGone(p) {
      assert Step(p, Join) != None;
    } else {
      var w :| w in p.workers && w != Gone;
      var i :| 0 <= i < |p.workers| && p.workers[i] == w;
      assert !Awake(p.workers[i]);
      assert p.workers[i] == Sleeping;
      assert Step(p, NotifyOne(i)) != None;
    }
  }

  // ----- the sections under the mutex, in place -----

  class TaskQueue {
    var jobs: seq<Job>
    var shutdown: bool

    constructor ()
      ensures Holds(NewPool(0))
    {
      jobs, shutdown := [], false;
    }

    /** The queue and the flag are those of p. */
    predicate Holds(p: Pool)
      reads this
    {
      jobs == p.jobs && shutdown == IsShutdown(p)
    }

    /** enqueue. */
    method Push(job: Job, ghost p: Pool)
      requires Holds(p) && job == p.enqueued
      modifies this
      ensures Holds(Step(p, Enqueue).value)
    {
      jobs := jobs + [job];
    }

    /** The first section of shutdown. */
    method RequestShutdown(ghost p: Pool)
      requires Holds(p) && p.phase == Up
      modifies this
      ensures Holds(Step(p, SetShutdown).value)
    {
      shutdown := true;
    }

    /** A worker's section: what the worker is to do next. */
    method Look(i: nat, ghost p: Pool) returns (next: Worker)
      requires Holds(p) && i < |p.workers| && p.workers[i] == Checking
      modifies this
      ensures Holds(Step(p, Check(i)).value) && next == Step(p, Check(i)).value.workers[i]
    {
      if jobs == [] && !shutdown {
        return Sleeping;
      }
      if shutdown && jobs == [] {
        return Gone;
      }
      var fn := jobs[0];
      jobs := jobs[1..];
      return Running(fn);
    }
  }

  // ----- what the books count -----

  /** An enqueue stores one job behind the others and owes one wake-up; shutdown sets the flag and then wakes
      all who sleep; a worker that has finished looks at the queue again. */
  lemma SectionsForm(p: Pool, i: nat)
    ensures Step(p, Enqueue) == Some(p.(jobs := p.jobs + [p.enqueued], enqueued := p.enqueued + 1, toNotify := p.toNotify + 1))
    ensures p.phase == Up ==> Step(p, SetShutdown) == Some(p.(phase := Flagged, atFlag := p.enqueued))
    ensures p.phase == Flagged ==>
      && Step(p, NotifyAll).Some? && Step(p, NotifyAll).value == p.(phase := Notified, workers := Step(p, NotifyAll).value.workers)
      && |Step(p, NotifyAll).value.workers| == |p.workers|
      && forall k :: 0 <= k < |p.workers| ==>
           Step(p, NotifyAll).value.workers[k] == if p.workers[k] == Sleeping then Checking else p.workers[k]
    ensures i < |p.workers| && p.workers[i].Running? ==>
      Step(p, Finish(i)) == Some(p.(workers := p.workers[i := Checking], completed := p.completed + [p.workers[i].job]))
  {
  }

  function Enqueues(ls: seq<Label>): nat {
    if ls == [] then 0 else Enqueues(ls[..|ls| - 1]) + if ls[|ls| - 1] == Enqueue then 1 else 0
  }

  lemma {:induction false} EnqueuesFirst(ls: seq<Label>)
    requires ls != []
    ensures Enqueues(ls) == Enqueues(ls[1..]) + if ls[0] == Enqueue then 1 else 0
  {
    if |ls| > 1 {
      EnqueuesFirst(ls[..|ls| - 1]);
      assert ls[1..][..|ls| - 2] == ls[..|ls| - 1][1..];
    } else {
      assert ls[..0] == [] && ls[1..] == [];
    }
  }

  /** Every enqueue counts, and the flag, once set, remembers how many there had been. */
  lemma {:induction false} Counted(p: Pool, ls: seq<Label>)
    requires Run(p, ls) != None
    ensures Run(p, ls).value.enqueued == p.enqueued + Enqueues(ls)
    ensures p.phase != Up ==> Run(p, ls).value.atFlag == p.atFlag && Run(p, ls).value.phase != Up
    decreases |ls|
  {
    if ls != [] {
      EnqueuesFirst(ls);
      var q := Step(p, ls[0]).value;
      assert q.enqueued == p.enqueued + if ls[0] == Enqueue then 1 else 0;
      assert p.phase != Up ==> q.atFlag == p.atFlag && q.phase != Up;
      hide Step;
      Counted(q, ls[1..]);
    }
  }

  lemma FlagCounts(p: Pool, ls: seq<Label>)
    requires Run(p, [SetShutdown] + ls) != None
    ensures Run(p, [SetShutdown] + ls).value.atFlag == p.enqueued
  {
    assert ([SetShutdown] + ls)[1..] == ls;
    Counted(Step(p, SetShutdown).value, ls);
  }
}
