/** The verification queue (src/checkqueue.h) as a state machine.

    Thread 0 is the master, every other thread is a worker. A step is one critical section of the loop,
    the execution of one check outside the lock, or a call by the master. Blocked threads may wake up
    at any time, notified or not. */
module CheckQueue {
  import opened Common

  /** A verification and what its call operator will return. */
  datatype Check = Check(id: nat, holds: bool)

  datatype Thread =
    | Outside                                             // not in Loop
    | Starting                                            // in Loop, before the first critical section
    | Blocked(notified: bool)                             // in wait(), lock released
    | Deciding                                            // inside a critical section
    | Working(batch: seq<Check>, next: nat, fOk: bool)    // executing its batch, or about to report it

  datatype State = State(
    queue: seq<Check>,
    nIdle: int,
    nTotal: int,
    fAllOk: bool,
    nTodo: int,
    fQuit: bool,
    nBatchSize: nat,
    threads: map<nat, Thread>,
    lastWait: bool,                  // what the last Wait returned
    added: multiset<Check>,          // history: the checks added since then
    reported: multiset<Check>)       // history: of those, the ones reported back

  const MASTER: nat := 0

  datatype Step =
    | Call(id: nat)                                  // a worker or the master enters Loop
    | Lock(id: nat)                                  // a critical section
    | Run(id: nat)                                   // one check of the batch
    | Add(checks: seq<Check>, woken: set<nat>)       // the master adds work

  // ---------------------------------------------------------------- the program

  /** The size of the next batch. */
  function BatchSize(s: State): int
    requires s.nTotal + s.nIdle + 1 > 0
  {
    Max(1, Min(s.nBatchSize, |s.queue| / (s.nTotal + s.nIdle + 1)))
  }

  /** It is one, or the largest number within the limit of which every thread present and idle, and one more, could
      have as many. */
  lemma BatchIsShare(s: State)
    requires s.nTotal + s.nIdle + 1 > 0
    ensures
      var n, threads := BatchSize(s), s.nTotal + s.nIdle + 1;
      && n >= 1 && (n == 1 || (n <= s.nBatchSize && n * threads <= |s.queue|))
      && (n >= s.nBatchSize || (n + 1) * threads > |s.queue|)
  {
    var threads := s.nTotal + s.nIdle + 1;
    var q := |s.queue| / threads;
    assert q * threads <= |s.queue| < (q + 1) * threads;
    MulMonotone(0, q, threads);
  }

  /** The checks a batch takes: from the back of the queue, last first. */
  function TakeBack(queue: seq<Check>, n: nat): seq<Check>
    requires n <= |queue|
  {
    if n == 0 then [] else [queue[|queue| - 1]] + TakeBack(queue[..|queue| - 1], n - 1)
  }

  lemma {:induction false} TakeBackAt(queue: seq<Check>, n: nat, i: nat)
    requires i < n <= |queue|
    ensures |TakeBack(queue, n)| == n && TakeBack(queue, n)[i] == queue[|queue| - 1 - i]
    decreases n
  {
    var rest := queue[..|queue| - 1];
    assert TakeBack(queue, n) == [queue[|queue| - 1]] + TakeBack(rest, n - 1);
    if n == 1 {
      assert TakeBack(rest, 0) == [];
    } else {
      hide TakeBack;
      TakeBackAt(rest, n - 1, if i == 0 then 0 else i - 1);
    }
  }

  /** The part of a critical section from the test of the queue on. */
  function LoopHead(s: State, id: nat): State
    requires s.nTotal + s.nIdle + 1 > 0
    requires |s.queue| > 0 ==> BatchSize(s) <= |s.queue|
  {
    if s.queue == [] then
      if (id == MASTER || s.fQuit) && s.nTodo == 0 then
        var t := s.(nTotal := s.nTotal - 1, threads := s.threads[id := Outside]);
        if id == MASTER
        then t.(fAllOk := true, lastWait := s.fAllOk, added := multiset{}, reported := multiset{})
        else t
      else
        s.(nIdle := s.nIdle + 1, threads := s.threads[id := Blocked(false)])
    else
      var n := BatchSize(s);
      s.(queue := s.queue[..|s.queue| - n],
         threads := s.threads[id := Working(TakeBack(s.queue, n), 0, s.fAllOk)])
  }

  /** A thread that finds work takes a batch, and takes over the verdict so far: after a failure nothing is run. */
  lemma BatchStarts(s: State, id: nat)
    requires s.nTotal + s.nIdle + 1 > 0 && s.queue != [] && BatchSize(s) <= |s.queue|
    ensures
      var n, t := BatchSize(s), LoopHead(s, id);
      && t.queue + Reversed(TakeBack(s.queue, n)) == s.queue
      && id in t.threads && t.threads[id] == Working(TakeBack(s.queue, n), 0, s.fAllOk)
  {
    var n := BatchSize(s);
    var back := TakeBack(s.queue, n);
    hide TakeBack, BatchSize;
    TakeBackAt(s.queue, n, 0);
    forall i | 0 <= i < n
      ensures Reversed(back)[i] == s.queue[|s.queue| - n + i]
    {
      TakeBackAt(s.queue, n, n - 1 - i);
    }
  }

  /** A thread leaves exactly when all is reported and it is the master or all are told to quit; it waits for more
      exactly when there is nothing to take and it does not leave. */
  lemma LeavesOrWaits(s: State, id: nat)
    requires s.nTotal + s.nIdle + 1 > 0 && (|s.queue| > 0 ==> BatchSize(s) <= |s.queue|)
    ensures
      var t := LoopHead(s, id);
      && id in t.threads
      && (t.threads[id].Outside? <==> s.queue == [] && s.nTodo == 0 && (id == MASTER || s.fQuit))
      && (t.threads[id].Blocked? <==> s.queue == [] && (s.nTodo != 0 || (id != MASTER && !s.fQuit)))
      && t.fQuit == s.fQuit
  {
    hide TakeBack, BatchSize;
  }

  function Reversed(v: seq<Check>): (r: seq<Check>)
    ensures |r| == |v|
  {
    seq(|v|, i requires 0 <= i < |v| => v[|v| - 1 - i])
  }

  /** A notification for the master reaches it only if it is blocked. */
  function NotifyMaster(threads: map<nat, Thread>): map<nat, Thread> {
    if MASTER in threads && threads[MASTER].Blocked? then threads[MASTER := Blocked(true)] else threads
  }

  /** What a thread does first in its critical section. */
  function Report(s: State, id: nat): State
    requires id in s.threads
  {
    var t := s.(threads := s.threads[id := Deciding]);
    match s.threads[id]
    case Starting => t.(nTotal := s.nTotal + 1)
    case Blocked(_) => t.(nIdle := s.nIdle - 1)
    case Working(batch, _, fOk) =>
      var u := t.(fAllOk := s.fAllOk && fOk, nTodo := s.nTodo - |batch|, reported := s.reported + multiset(batch));
      if u.nTodo == 0 && id != MASTER then u.(threads := NotifyMaster(u.threads)) else u
    case _ => t
  }

  ghost predicate Enabled(s: State, step: Step) {
    match step
    case Call(id) => id in s.threads && s.threads[id].Outside?
    case Lock(id) =>
      id in s.threads && !s.threads[id].Outside? && !s.threads[id].Deciding? && (s.threads[id].Working? ==> s.threads[id].next == |s.threads[id].batch|)
    case Run(id) => id in s.threads && s.threads[id].Working? && s.threads[id].next < |s.threads[id].batch|
    case Add(_, _) => MASTER in s.threads && s.threads[MASTER].Outside?
  }

  function Wake(threads: map<nat, Thread>, woken: set<nat>): map<nat, Thread> {
    map id | id in threads ::
      if id in woken && id != MASTER && threads[id].Blocked? then Blocked(true) else threads[id]
  }

  ghost function Next(s: State, step: Step): State
    requires Enabled(s, step) && Inv(s)
  {
    match step
    case Call(id) => s.(threads := s.threads[id := Starting])
    case Lock(id) =>
      ReportKeeps(s, id);
      BatchFits(Report(s, id));
      LoopHead(Report(s, id), id)
    case Run(id) =>
      var w := s.threads[id];
      s.(threads := s.threads[id := Working(w.batch, w.next + 1, w.fOk && w.batch[w.next].holds)])
    case Add(checks, woken) =>
      s.(queue := s.queue + checks, nTodo := s.nTodo + |checks|, threads := Wake(s.threads, woken),
         added := s.added + multiset(checks))
  }

  function Initial(nBatchSize: nat, workers: set<nat>): State {
    State([], 0, 0, true, 0, false, nBatchSize, map id | id in workers + {MASTER} :: Outside, true, multiset{}, multiset{})
  }

  // ---------------------------------------------------------------- the invariant

  function BatchOf(t: Thread): seq<Check> {
    if t.Working? then t.batch else []
  }

  /** The checks in the hands of threads. */
  ghost function InFlight(threads: map<nat, Thread>): multiset<Check> {
    if threads == map[] then multiset{} else
      var id :| id in threads;
      multiset(BatchOf(threads[id])) + InFlight(threads - {id})
  }

  lemma {:induction false} InFlightRemove(threads: map<nat, Thread>, id: nat)
    requires id in threads
    ensures InFlight(threads) == multiset(BatchOf(threads[id])) + InFlight(threads - {id})
    decreases |threads|
  {
    var j :| j in threads && InFlight(threads) == multiset(BatchOf(threads[j])) + InFlight(threads - {j});
    hide InFlight;
    if j != id {
      InFlightRemove(threads - {j}, id);
      InFlightRemove(threads - {id}, j);
      assert threads - {j} - {id} == threads - {id} - {j};
      Reorder(multiset(BatchOf(threads[j])), multiset(BatchOf(threads[id])), InFlight(threads - {j} - {id}));
    }
  }

  lemma Reorder(a: multiset<Check>, b: multiset<Check>, c: multiset<Check>)
    ensures a + (b + c) == b + (a + c)
  {
  }

  lemma InFlightSet(threads: map<nat, Thread>, id: nat, t: Thread)
    requires id in threads
    ensures InFlight(threads[id := t]) == multiset(BatchOf(t)) + InFlight(threads - {id})
  {
    InFlightRemove(threads[id := t], id);
    assert threads[id := t] - {id} == threads - {id};
  }

  /** A thread that gives up its batch. */
  lemma InFlightDrop(threads: map<nat, Thread>, id: nat, t: Thread)
    requires id in threads && BatchOf(t) == []
    ensures InFlight(threads) == InFlight(threads[id := t]) + multiset(BatchOf(threads[id]))
  {
    InFlightSet(threads, id, t);
    InFlightRemove(threads, id);
    hide InFlight;
  }

  /** A thread that gets a batch. */
  lemma InFlightGain(threads: map<nat, Thread>, id: nat, t: Thread)
    requires id in threads && BatchOf(threads[id]) == []
    ensures InFlight(threads[id := t]) == InFlight(threads) + multiset(BatchOf(t))
  {
    InFlightSet(threads, id, t);
    InFlightRemove(threads, id);
    hide InFlight;
  }

  lemma InFlightSame(threads: map<nat, Thread>, id: nat, t: Thread)
    requires id in threads && BatchOf(threads[id]) == BatchOf(t)
    ensures InFlight(threads[id := t]) == InFlight(threads)
  {
    InFlightSet(threads, id, t);
    InFlightRemove(threads, id);
  }

  ghost function Idle(threads: map<nat, Thread>): set<nat> {
    set id | id in threads && threads[id].Blocked?
  }

  ghost function Present(threads: map<nat, Thread>): set<nat> {
    set id | id in threads && (threads[id].Blocked? || threads[id].Working? || threads[id].Deciding?)
  }

  ghost predicate Fails(c: multiset<Check>) {
    exists x :: x in c && !x.holds
  }

  /** A thread's verdict on the part of its batch it has run; a negative one is never unfounded. */
  ghost predicate ThreadOk(t: Thread, added: multiset<Check>) {
    t.Working? ==>
      && t.next <= |t.batch| && t.batch != []
      && (t.fOk ==> forall i :: 0 <= i < t.next ==> t.batch[i].holds)
      && (!t.fOk ==> Fails(added))
  }

  ghost predicate Counted(s: State) {
    s.nIdle == |Idle(s.threads)| && s.nTotal == |Present(s.threads)|
  }

  /** Every added check is in the queue, in the hands of one thread, or reported, and nTodo counts
      those not reported. */
  ghost predicate Conserved(s: State) {
    && s.nTodo == |s.queue| + |InFlight(s.threads)|
    && s.added == multiset(s.queue) + InFlight(s.threads) + s.reported
  }

  ghost predicate VerdictOk(s: State) {
    && (s.fAllOk ==> !Fails(s.reported))
    && (!s.fAllOk ==> Fails(s.added))
    && forall id :: id in s.threads ==> ThreadOk(s.threads[id], s.added)
  }

  /** A blocked master that nobody has notified is waiting for checks in other hands. */
  ghost predicate MasterOk(s: State) {
    && MASTER in s.threads
    && (s.threads[MASTER].Blocked? ==> s.queue == [])
    && (s.threads[MASTER] == Blocked(false) ==> s.nTodo > 0)
  }

  ghost predicate Inv(s: State) {
    Counted(s) && Conserved(s) && VerdictOk(s) && MasterOk(s)
  }

  // ---------------------------------------------------------------- every step keeps it

  lemma InitialKeeps(nBatchSize: nat, workers: set<nat>)
    ensures Inv(Initial(nBatchSize, workers))
  {
    var s := Initial(nBatchSize, workers);
    assert Idle(s.threads) == {} && Present(s.threads) == {};
    NoneInFlight(s.threads);
  }

  lemma {:induction false} NoneInFlight(threads: map<nat, Thread>)
    requires forall id :: id in threads ==> BatchOf(threads[id]) == []
    ensures InFlight(threads) == multiset{}
    decreases |threads|
  {
    if threads != map[] {
      var id :| id in threads && InFlight(threads) == multiset(BatchOf(threads[id])) + InFlight(threads - {id});
      NoneInFlight(threads - {id});
    }
  }

  /** Counting after one thread changes its state. */
  lemma CountsUpdate(threads: map<nat, Thread>, id: nat, t: Thread)
    requires id in threads
    ensures
      var u, w := threads[id := t], threads[id];
      && |Idle(u)| == |Idle(threads)| + (if t.Blocked? then 1 else 0) - (if w.Blocked? then 1 else 0)
      && |Present(u)| == |Present(threads)| + (if t.Blocked? || t.Working? || t.Deciding? then 1 else 0)
                         - (if w.Blocked? || w.Working? || w.Deciding? then 1 else 0)
  {
    IdleUpdate(threads, id, t);
    PresentUpdate(threads, id, t);
    hide Idle, Present;
  }

  lemma IdleUpdate(threads: map<nat, Thread>, id: nat, t: Thread)
    requires id in threads
    ensures |Idle(threads[id := t])| == |Idle(threads)| + (if t.Blocked? then 1 else 0) - (if threads[id].Blocked? then 1 else 0)
  {
    assert Idle(threads[id := t]) - {id} == Idle(threads) - {id};
    SwapOne(Idle(threads), Idle(threads[id := t]), id);
  }

  lemma PresentUpdate(threads: map<nat, Thread>, id: nat, t: Thread)
    requires id in threads
    ensures
      var w := threads[id];
      |Present(threads[id := t])| == |Present(threads)| + (if t.Blocked? || t.Working? || t.Deciding? then 1 else 0)
                                     - (if w.Blocked? || w.Working? || w.Deciding? then 1 else 0)
  {
    assert Present(threads[id := t]) - {id} == Present(threads) - {id};
    SwapOne(Present(threads), Present(threads[id := t]), id);
  }

  lemma SwapOne(a: set<nat>, b: set<nat>, id: nat)
    requires a - {id} == b - {id}
    ensures |b| == |a| + (if id in b then 1 else 0) - (if id in a then 1 else 0)
  {
    SplitOff(a, id);
    SplitOff(b, id);
  }

  lemma BatchFits(s: State)
    requires Counted(s)
    ensures s.nTotal + s.nIdle + 1 > 0
    ensures |s.queue| > 0 ==> 1 <= BatchSize(s) <= |s.queue|
  {
    var d := s.nTotal + s.nIdle + 1;
    assert |s.queue| / d <= |s.queue|;
  }

  lemma {:induction false} TakeBackTakes(queue: seq<Check>, n: nat)
    requires n <= |queue|
    ensures |TakeBack(queue, n)| == n
    ensures multiset(queue) == multiset(queue[..|queue| - n]) + multiset(TakeBack(queue, n))
  {
    if n == 0 {
      assert queue[..|queue|] == queue;
    } else {
      TakeBackNext(queue, n);
      hide TakeBack;
      var rest, last := queue[..|queue| - 1], queue[|queue| - 1];
      TakeBackTakes(rest, n - 1);
      MoveLast(rest, last, queue[..|queue| - n], TakeBack(rest, n - 1));
    }
  }

  lemma TakeBackNext(queue: seq<Check>, n: nat)
    requires 0 < n <= |queue|
    ensures
      var rest, last := queue[..|queue| - 1], queue[|queue| - 1];
      && TakeBack(queue, n) == [last] + TakeBack(rest, n - 1)
      && queue == rest + [last] && rest[..|rest| - (n - 1)] == queue[..|queue| - n]
  {
  }

  lemma MoveLast(rest: seq<Check>, last: Check, left: seq<Check>, taken: seq<Check>)
    requires multiset(rest) == multiset(left) + multiset(taken)
    ensures multiset(rest + [last]) == multiset(left) + multiset([last] + taken)
  {
  }

  lemma FailsGrow(a: multiset<Check>, b: multiset<Check>)
    requires a <= b && Fails(a)
    ensures Fails(b)
  {
  }

  lemma ReportKeeps(s: State, id: nat)
    requires Inv(s) && Enabled(s, Lock(id))
    ensures Inv(Report(s, id)) && id in Report(s, id).threads && Report(s, id).threads[id] == Deciding
  {
    if s.threads[id].Working? { ReportedVerdict(s, id); }
    ReportCounted(s, id);
    ReportConserved(s, id);
    ReportMaster(s, id);
    hide Counted, Conserved, Fails, MasterOk;
    ReportPlace(s, id);
    hide Report;
    forall j | j in s.threads
      ensures ThreadOk(Report(s, id).threads[j], s.added)
    {
      assert ThreadOk(s.threads[j], s.added);
    }
  }

  lemma ReportPlace(s: State, id: nat)
    requires Enabled(s, Lock(id)) && MASTER in s.threads
    ensures
      var r, w := Report(s, id), s.threads[id];
      && r.threads.Keys == s.threads.Keys && r.threads[id] == Deciding && r.added == s.added
      && (forall j :: j in s.threads && j != id ==> r.threads[j] == s.threads[j] || r.threads[j].Blocked?)
      && r.fAllOk == (s.fAllOk && (w.Working? ==> w.fOk))
      && r.reported == if w.Working? then s.reported + multiset(w.batch) else s.reported
  {
    ReportThreads(s, id);
    hide NotifyMaster;
  }

  lemma ReportThreads(s: State, id: nat)
    requires Enabled(s, Lock(id)) && MASTER in s.threads
    ensures
      var r := Report(s, id);
      && r.threads.Keys == s.threads.Keys && r.threads[id] == Deciding
      && (forall j :: j in s.threads && j != id ==> r.threads[j] == s.threads[j] || r.threads[j].Blocked?)
  {
    assert Report(s, id).threads == s.threads[id := Deciding] || Report(s, id).threads == NotifyMaster(s.threads[id := Deciding]);
    hide Report;
  }

  lemma ReportCounted(s: State, id: nat)
    requires Counted(s) && MASTER in s.threads && Enabled(s, Lock(id))
    ensures Counted(Report(s, id))
  {
    CountsUpdate(s.threads, id, Deciding);
    CountsUpdate(s.threads[id := Deciding], MASTER, Blocked(true));
    hide Idle, Present;
  }

  lemma ReportMaster(s: State, id: nat)
    requires MasterOk(s) && Enabled(s, Lock(id)) && Report(s, id).nTodo >= 0
    ensures MasterOk(Report(s, id))
  {
  }

  lemma ReportConserved(s: State, id: nat)
    requires Conserved(s) && MASTER in s.threads && Enabled(s, Lock(id))
    ensures Conserved(Report(s, id))
  {
    var w := s.threads[id];
    if w.Working? {
      WorkReported(s, id);
    } else {
      InFlightSame(s.threads, id, Deciding);
      hide InFlight;
    }
  }

  lemma WorkReported(s: State, id: nat)
    requires Conserved(s) && Enabled(s, Lock(id)) && s.threads[id].Working?
    ensures Conserved(Report(s, id))
  {
    var w := s.threads[id];
    var mid := s.threads[id := Deciding];
    InFlightDrop(s.threads, id, Deciding);
    NotifyFlight(mid);
    hide InFlight, NotifyMaster;
    var f' := InFlight(mid);
    Reported(s.nTodo, s.queue, InFlight(s.threads), f', w.batch, s.added, s.reported);
    var r := Report(s, id);
    assert InFlight(r.threads) == f';
  }

  lemma NotifyFlight(threads: map<nat, Thread>)
    ensures InFlight(NotifyMaster(threads)) == InFlight(threads)
  {
    if MASTER in threads && threads[MASTER].Blocked? {
      InFlightSame(threads, MASTER, Blocked(true));
    }
  }

  lemma Reported(nTodo: int, queue: seq<Check>, f: multiset<Check>, f': multiset<Check>, b: seq<Check>,
                 added: multiset<Check>, reported: multiset<Check>)
    requires f == f' + multiset(b) && nTodo == |queue| + |f| && added == multiset(queue) + f + reported
    ensures nTodo - |b| == |queue| + |f'| && added == multiset(queue) + f' + (reported + multiset(b))
  {
  }

  lemma Taken(nTodo: int, queue: seq<Check>, queue': seq<Check>, f: multiset<Check>, f': multiset<Check>, b: seq<Check>,
              added: multiset<Check>, reported: multiset<Check>)
    requires f' == f + multiset(b) && multiset(queue) == multiset(queue') + multiset(b) && |queue| == |queue'| + |b|
    requires nTodo == |queue| + |f| && added == multiset(queue) + f + reported
    ensures nTodo == |queue'| + |f'| && added == multiset(queue') + f' + reported
  {
  }

  lemma ReportedVerdict(s: State, id: nat)
    requires Inv(s) && Enabled(s, Lock(id)) && s.threads[id].Working?
    ensures var w := s.threads[id];
            (s.fAllOk && w.fOk ==> !Fails(s.reported + multiset(w.batch))) && (!(s.fAllOk && w.fOk) ==> Fails(s.added))
  {
    var w := s.threads[id];
    assert ThreadOk(w, s.added);
    if s.fAllOk && w.fOk {
      forall x | x in s.reported + multiset(w.batch)
        ensures x.holds
      {
        if x !in s.reported {
          assert x in w.batch;
        }
      }
    }
  }

  lemma LoopHeadKeeps(s: State, id: nat)
    requires Inv(s) && id in s.threads && s.threads[id] == Deciding
    ensures s.nTotal + s.nIdle + 1 > 0 && (|s.queue| > 0 ==> BatchSize(s) <= |s.queue|)
    ensures Inv(LoopHead(s, id))
  {
    BatchFits(s);
    var t := LoopHead(s, id);
    if s.nTodo == 0 {
      NobodyWorks(s);
    }
    LoopCounted(s, id);
    hide Counted, Conserved, VerdictOk, InFlight, TakeBack, BatchSize;
    if s.queue != [] {
      TakeKeeps(s, id);
    } else {
      InFlightSame(s.threads, id, t.threads[id]);
      EmptyKeeps(s, id);
    }
  }

  lemma LoopCounted(s: State, id: nat)
    requires Counted(s) && id in s.threads && s.threads[id] == Deciding && s.nTotal + s.nIdle + 1 > 0
    requires |s.queue| > 0 ==> BatchSize(s) <= |s.queue|
    ensures Counted(LoopHead(s, id))
  {
    hide Idle, Present, TakeBack, BatchSize;
    CountsUpdate(s.threads, id, LoopHead(s, id).threads[id]);
  }

  lemma EmptyKeeps(s: State, id: nat)
    requires Conserved(s) && VerdictOk(s) && MasterOk(s) && id in s.threads && s.threads[id] == Deciding
    requires s.queue == []
    requires s.nTotal + s.nIdle + 1 > 0
    requires InFlight(LoopHead(s, id).threads) == InFlight(s.threads)
    requires s.nTodo == 0 ==>
               (forall j :: j in s.threads ==> !s.threads[j].Working?) && InFlight(s.threads) == multiset{}
    ensures var t := LoopHead(s, id); Conserved(t) && VerdictOk(t) && MasterOk(t)
  {
    EmptyConserved(s, id);
    EmptyVerdict(s, id);
    hide Conserved, VerdictOk, InFlight;
  }

  lemma EmptyConserved(s: State, id: nat)
    requires Conserved(s) && id in s.threads && s.queue == [] && s.nTotal + s.nIdle + 1 > 0
    requires InFlight(LoopHead(s, id).threads) == InFlight(s.threads)
    requires (s.nTodo == 0 ==> InFlight(s.threads) == multiset{})
    ensures Conserved(LoopHead(s, id))
  {
    hide InFlight;
  }

  lemma EmptyVerdict(s: State, id: nat)
    requires VerdictOk(s) && id in s.threads && s.threads[id] == Deciding && s.queue == [] && s.nTotal + s.nIdle + 1 > 0
    requires s.nTodo == 0 ==> forall j :: j in s.threads ==> !s.threads[j].Working?
    ensures VerdictOk(LoopHead(s, id))
  {
  }

  /** When nothing is queued or in flight, no thread holds a batch. */
  lemma NobodyWorks(s: State)
    requires Inv(s) && s.nTodo == 0
    ensures forall j :: j in s.threads ==> !s.threads[j].Working?
    ensures s.queue == [] && InFlight(s.threads) == multiset{} && s.added == s.reported
  {
    forall j | j in s.threads
      ensures !s.threads[j].Working?
    {
      InFlightDrop(s.threads, j, Outside);
      assert |multiset(BatchOf(s.threads[j]))| == |BatchOf(s.threads[j])|;
      assert ThreadOk(s.threads[j], s.added);
    }
  }

  lemma TakeKeeps(s: State, id: nat)
    requires Conserved(s) && VerdictOk(s) && MasterOk(s) && id in s.threads && s.threads[id] == Deciding
    requires s.queue != []
    requires s.nTotal + s.nIdle + 1 > 0 && 1 <= BatchSize(s) <= |s.queue|
    ensures var t := LoopHead(s, id); Conserved(t) && VerdictOk(t) && MasterOk(t)
  {
    TakeConserved(s, id);
    TakeVerdict(s, id);
    hide Conserved, VerdictOk, TakeBack, BatchSize;
  }

  lemma TakeConserved(s: State, id: nat)
    requires Conserved(s) && id in s.threads && s.threads[id] == Deciding && s.queue != []
    requires s.nTotal + s.nIdle + 1 > 0 && 1 <= BatchSize(s) <= |s.queue|
    ensures Conserved(LoopHead(s, id))
  {
    hide BatchSize, TakeBack, InFlight;
    var t, n := LoopHead(s, id), BatchSize(s);
    TakeBackTakes(s.queue, n);
    InFlightGain(s.threads, id, t.threads[id]);
    Taken(s.nTodo, s.queue, t.queue, InFlight(s.threads), InFlight(t.threads), TakeBack(s.queue, n), s.added,
          s.reported);
  }

  lemma TakeVerdict(s: State, id: nat)
    requires VerdictOk(s) && id in s.threads && s.threads[id] == Deciding && s.queue != []
    requires s.nTotal + s.nIdle + 1 > 0 && 1 <= BatchSize(s) <= |s.queue|
    ensures VerdictOk(LoopHead(s, id))
  {
    TakeBackTakes(s.queue, BatchSize(s));
    hide BatchSize, TakeBack;
  }

  lemma NextKeeps(s: State, step: Step)
    requires Inv(s) && Enabled(s, step)
    ensures Inv(Next(s, step))
  {
    if step.Lock? {
      hide Inv;
      ReportKeeps(s, step.id);
      LoopHeadKeeps(Report(s, step.id), step.id);
    } else if step.Add? {
      AddKeeps(s, step.checks, step.woken);
    } else {
      OwnStepKeeps(s, step);
    }
  }

  /** Entering the loop or running a check moves no check between hands. */
  lemma OwnStepKeeps(s: State, step: Step)
    requires Inv(s) && Enabled(s, step) && (step.Call? || step.Run?)
    ensures Inv(Next(s, step))
  {
    OwnCounted(s, step);
    OwnConserved(s, step);
    OwnVerdict(s, step);
    hide Counted, Conserved, VerdictOk;
  }

  lemma OwnCounted(s: State, step: Step)
    requires Inv(s) && Enabled(s, step) && (step.Call? || step.Run?)
    ensures Counted(Next(s, step))
  {
    hide Conserved, VerdictOk, Idle, Present;
    CountsUpdate(s.threads, step.id, Next(s, step).threads[step.id]);
  }

  lemma OwnConserved(s: State, step: Step)
    requires Inv(s) && Enabled(s, step) && (step.Call? || step.Run?)
    ensures Conserved(Next(s, step))
  {
    hide Counted, VerdictOk, InFlight;
    InFlightSame(s.threads, step.id, Next(s, step).threads[step.id]);
  }

  lemma OwnVerdict(s: State, step: Step)
    requires Inv(s) && Enabled(s, step) && (step.Call? || step.Run?)
    ensures VerdictOk(Next(s, step))
  {
    hide Counted, Conserved, Fails;
    if step.Run? {
      RunVerdict(s, step.id);
    }
  }

  lemma RunVerdict(s: State, id: nat)
    requires Inv(s) && Enabled(s, Run(id))
    ensures ThreadOk(Next(s, Run(id)).threads[id], s.added)
  {
    var w := s.threads[id];
    assert ThreadOk(w, s.added);
    InHand(s, id, w.next);
    hide Inv;
  }

  lemma InHand(s: State, id: nat, i: nat)
    requires Conserved(s) && id in s.threads && i < |BatchOf(s.threads[id])|
    ensures BatchOf(s.threads[id])[i] in s.added
  {
    InFlightDrop(s.threads, id, Outside);
    hide InFlight;
    assert BatchOf(s.threads[id])[i] in multiset(BatchOf(s.threads[id]));
  }

  lemma AddKeeps(s: State, checks: seq<Check>, woken: set<nat>)
    requires Inv(s) && Enabled(s, Add(checks, woken))
    ensures Inv(Next(s, Add(checks, woken)))
  {
    NextAdd(s, checks, woken);
    hide Idle, Present, InFlight, Conserved, Wake, VerdictOk, Next, BatchOf;
    var u := Wake(s.threads, woken);
    WakeKeeps(s.threads, woken);
    SameFlight(s.threads, u);
    AddConserved(s, u, checks);
    AddVerdict(s, u, checks);
  }

  lemma NextAdd(s: State, checks: seq<Check>, woken: set<nat>)
    requires Inv(s) && Enabled(s, Add(checks, woken))
    ensures Next(s, Add(checks, woken)) ==
            s.(queue := s.queue + checks, nTodo := s.nTodo + |checks|, threads := Wake(s.threads, woken), added := s.added + multiset(checks))
  {
    hide Inv, Wake;
  }

  lemma WakeKeeps(threads: map<nat, Thread>, woken: set<nat>)
    ensures
      var u := Wake(threads, woken);
      && u.Keys == threads.Keys && Idle(u) == Idle(threads) && Present(u) == Present(threads)
      && (forall id :: id in threads ==> (u[id] == threads[id] || (u[id].Blocked? && threads[id].Blocked?)) && BatchOf(u[id]) == BatchOf(threads[id]))
      && (MASTER in threads ==> u[MASTER] == threads[MASTER])
  {
  }

  lemma AddConserved(s: State, u: map<nat, Thread>, checks: seq<Check>)
    requires Conserved(s) && InFlight(u) == InFlight(s.threads)
    ensures Conserved(s.(queue := s.queue + checks, nTodo := s.nTodo + |checks|, threads := u, added := s.added + multiset(checks)))
  {
    hide InFlight;
  }

  lemma AddVerdict(s: State, u: map<nat, Thread>, checks: seq<Check>)
    requires VerdictOk(s) && u.Keys == s.threads.Keys
    requires forall id :: id in u ==> u[id] == s.threads[id] || (u[id].Blocked? && s.threads[id].Blocked?)
    ensures VerdictOk(s.(queue := s.queue + checks, nTodo := s.nTodo + |checks|, threads := u, added := s.added + multiset(checks)))
  {
    var more := s.added + multiset(checks);
    if Fails(s.added) {
      FailsGrow(s.added, more);
    }
    hide Fails;
    forall id | id in u
      ensures ThreadOk(u[id], more)
    {
      assert ThreadOk(s.threads[id], s.added);
    }
  }

  lemma {:induction false} SameFlight(a: map<nat, Thread>, b: map<nat, Thread>)
    requires a.Keys == b.Keys && forall id :: id in a ==> BatchOf(a[id]) == BatchOf(b[id])
    ensures InFlight(a) == InFlight(b)
    decreases |a|
  {
    if a == map[] {
      assert b == map[];
    } else {
      var id :| id in a;
      InFlightRemove(a, id);
      assert id in b;
      InFlightRemove(b, id);
      SameFlight(a - {id}, b - {id});
    }
  }

  // ---------------------------------------------------------------- whole runs

  /** Between steps no thread is inside a critical section. */
  ghost predicate Stable(s: State) {
    forall id :: id in s.threads ==> !s.threads[id].Deciding?
  }

  lemma NextStable(s: State, step: Step)
    requires Inv(s) && Enabled(s, step) && Stable(s)
    ensures Stable(Next(s, step))
  {
    if step.Lock? {
      hide Inv;
      ReportKeeps(s, step.id);
      LoopHeadKeeps(Report(s, step.id), step.id);
      ReportLeavesOthers(s, step.id);
      LoopHeadPlace(Report(s, step.id), step.id);
    } else {
      hide Inv;
    }
  }

  lemma ReportLeavesOthers(s: State, id: nat)
    requires Inv(s) && Enabled(s, Lock(id)) && Stable(s)
    ensures forall j :: j in Report(s, id).threads && j != id ==> !Report(s, id).threads[j].Deciding?
  {
    ReportPlace(s, id);
    hide Report, Counted, Conserved, VerdictOk;
  }

  lemma LoopHeadPlace(s: State, id: nat)
    requires s.nTotal + s.nIdle + 1 > 0 && (|s.queue| > 0 ==> BatchSize(s) <= |s.queue|) && id in s.threads
    ensures var t := LoopHead(s, id);
            t.threads.Keys == s.threads.Keys && !t.threads[id].Deciding?
            && forall j :: j in s.threads && j != id ==> t.threads[j] == s.threads[j]
  {
    hide BatchSize, TakeBack;
  }

  /** An interleaving of the master and any number of workers, from the constructed queue. */
  ghost predicate Trace(states: seq<State>, steps: seq<Step>) {
    && |states| == |steps| + 1
    && (exists n: nat, workers: set<nat> :: states[0] == Initial(n, workers))
    && forall i :: 0 <= i < |steps| ==>
         Enabled(states[i], steps[i]) && (Inv(states[i]) ==> states[i + 1] == Next(states[i], steps[i]))
  }

  lemma {:induction false} RunsKeep(states: seq<State>, steps: seq<Step>, n: nat)
    requires Trace(states, steps) && n <= |steps|
    ensures Inv(states[n]) && Stable(states[n])
  {
    if n == 0 {
      var k: nat, workers: set<nat> :| states[0] == Initial(k, workers);
      InitialKeeps(k, workers);
    } else {
      RunsKeep(states, steps, n - 1);
      hide Inv, Enabled;
      NextKeeps(states[n - 1], steps[n - 1]);
      NextStable(states[n - 1], steps[n - 1]);
    }
  }

  /** Wait returns true exactly when every check added since the previous Wait holds, and only when all
      of them have been reported. */
  lemma WaitExact(states: seq<State>, steps: seq<Step>, n: nat)
    requires Trace(states, steps) && n < |steps| && steps[n] == Lock(MASTER)
    requires MASTER in states[n + 1].threads && states[n + 1].threads[MASTER].Outside?
    ensures states[n + 1].lastWait <==> forall c :: c in states[n].added ==> c.holds
    ensures states[n + 1].nTodo == 0 && states[n + 1].fAllOk && states[n + 1].added == multiset{}
  {
    RunsKeep(states, steps, n);
    var s := states[n];
    ReportKeeps(s, MASTER);
    var r := Report(s, MASTER);
    BatchFits(r);
    ReportPlace(s, MASTER);
    if r.nTodo == 0 {
      NobodyWorks(r);
    }
    hide Report, InFlight, Counted, MasterOk;
  }

  predicate IsIdle(s: State) {
    s.nTotal == s.nIdle && s.nTodo == 0 && s.fAllOk
  }

  /** The idleness test says exactly that nothing added since the last Wait is unreported or has failed;
      in particular it passes whenever nothing was added, so a new controller can always start. */
  lemma IdleExact(states: seq<State>, steps: seq<Step>, n: nat)
    requires Trace(states, steps) && n <= |steps|
    ensures IsIdle(states[n]) <==> states[n].added == states[n].reported && !Fails(states[n].added)
    ensures states[n].added == multiset{} ==> IsIdle(states[n])
  {
    RunsKeep(states, steps, n);
    var s := states[n];
    if s.added == s.reported {
      assert |multiset(s.queue) + InFlight(s.threads)| == 0 by {
        hide VerdictOk, MasterOk, Counted, InFlight;
        forall c
          ensures (multiset(s.queue) + InFlight(s.threads))[c] == 0
        {
          assert s.added[c] == (multiset(s.queue) + InFlight(s.threads))[c] + s.reported[c];
        }
        assert multiset(s.queue) + InFlight(s.threads) == multiset{};
      }
    }
    if s.nTodo == 0 {
      NobodyWorks(s);
      assert Present(s.threads) == Idle(s.threads);
    }
  }

  /** A blocked master that was not notified waits for a batch in some worker's hands. */
  lemma MasterNotForgotten(states: seq<State>, steps: seq<Step>, n: nat)
    requires Trace(states, steps) && n <= |steps| && MASTER in states[n].threads
    requires states[n].threads[MASTER] == Blocked(false)
    ensures states[n].nTodo > 0
    ensures exists id :: id in states[n].threads && id != MASTER && states[n].threads[id].Working?
  {
    RunsKeep(states, steps, n);
    var s := states[n];
    if forall id :: id in s.threads ==> !s.threads[id].Working? {
      NoneInFlight(s.threads);
      assert false;
    }
  }

  /** A check added once is never in two hands. */
  lemma OneOwner(s: State, c: Check, i: nat, j: nat)
    requires Inv(s) && s.added[c] == 1 && i in s.threads && j in s.threads && i != j
    requires c in BatchOf(s.threads[i])
    ensures c !in BatchOf(s.threads[j]) && c !in s.queue && c !in s.reported
  {
    var rest := s.threads[i := Outside];
    InFlightDrop(s.threads, i, Outside);
    InFlightDrop(rest, j, Outside);
    hide InFlight, Counted, VerdictOk, MasterOk;
    var fi, fj := multiset(BatchOf(s.threads[i])), multiset(BatchOf(s.threads[j]));
    assert fi[c] >= 1;
    assert s.added[c] == multiset(s.queue)[c] + InFlight(rest[j := Outside])[c] + fj[c] + fi[c] + s.reported[c];
  }
}
