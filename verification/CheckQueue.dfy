/**
 The parallel check queue: one master and any number of workers, each critical
 section of the program one atomic step.  A check is represented by the result
 it will give.  A sleeping thread may wake at any time, so every schedule and
 every spurious wake-up is covered.
 */
module CheckQueue {

  /**
   Where a worker is: not in the loop yet, waiting for work, inside a critical section
   (never so between two steps), or holding a batch and the verdict it started from.
   */
  datatype Worker = NotStarted | Asleep | Inside | Busy(batch: seq<bool>, ok: bool)

  /** Where the master is: outside Wait, about to take the lock for the first time, waiting, inside, or working. */
  datatype Master = Away | Entering | Waiting(notified: bool) | MasterInside | Working(batch: seq<bool>, ok: bool)

  /** The shared state and every thread.  `added` and `finished` record the checks of the current round. */
  datatype State = State(
    batchSize: nat,
    queue: seq<bool>,
    nIdle: int,
    nTotal: int,
    allOk: bool,
    nTodo: int,
    workers: seq<Worker>,
    master: Master,
    added: multiset<bool>,
    finished: multiset<bool>)

  function Initial(batchSize: nat, n: nat): State {
    State(batchSize, [], 0, 0, true, 0, seq(n, i => NotStarted), Away, multiset{}, multiset{})
  }

  function Max(a: int, b: int): int { if a < b then b else a }

  function Min(a: int, b: int): int { if a < b then a else b }

  /** How many checks a thread takes from a queue of the given length. */
  function BatchLength(batchSize: nat, queued: nat, nTotal: int, nIdle: int): int
    requires nTotal + nIdle + 1 > 0
  {
    Max(1, Min(batchSize, queued / (nTotal + nIdle + 1)))
  }

  /** The batch that taking n checks off the back of the queue gives: last one first. */
  function Taken(queue: seq<bool>, n: nat): seq<bool>
    requires n <= |queue|
  {
    seq(n, i requires 0 <= i < n => queue[|queue| - 1 - i])
  }

  predicate AllTrue(batch: seq<bool>) { false !in batch }

  // -------------------------------------------------------------------- steps

  /** What a thread does with the lock held, after the clean-up: take a batch, go to sleep, or (the master) return. */
  datatype Choice = Take(batch: seq<bool>) | Sleep | Return

  predicate CanTake(s: State) {
    s.nTotal + s.nIdle + 1 > 0 && BatchLength(s.batchSize, |s.queue|, s.nTotal, s.nIdle) <= |s.queue|
  }

  function Choose(s: State, isMaster: bool): Choice
    requires s.queue != [] ==> CanTake(s)
  {
    if s.queue != [] then Take(Taken(s.queue, BatchLength(s.batchSize, |s.queue|, s.nTotal, s.nIdle)))
    else if isMaster && s.nTodo == 0 then Return
    else Sleep
  }

  function AfterChoice(s: State, c: Choice): State
    requires c.Take? ==> |c.batch| <= |s.queue|
  {
    match c
    case Take(batch) => s.(queue := s.queue[..|s.queue| - |batch|])
    case Sleep => s.(nIdle := s.nIdle + 1)
    case Return => s.(nTotal := s.nTotal - 1, allOk := true, added := multiset{}, finished := multiset{})
  }

  /** The clean-up of the previous batch, or the first entry into the loop. */
  function CleanUp(s: State, batch: seq<bool>, ok: bool): State {
    if batch == [] then s.(nTotal := s.nTotal + 1)
    else s.(allOk := s.allOk && ok && AllTrue(batch), nTodo := s.nTodo - |batch|,
            finished := s.finished + multiset(batch))
  }

  function NotifyMaster(m: Master): Master {
    if m.Waiting? then Waiting(true) else m
  }

  datatype Event =
    | WorkerEnters(worker: nat)
    | WorkerWakes(worker: nat)
    | MasterAdds(checks: seq<bool>)
    | MasterStartsWait
    | MasterEnters
    | MasterWakes

  predicate Enabled(s: State, e: Event) {
    match e
    case WorkerEnters(w) => w < |s.workers| && !s.workers[w].Asleep?
    case WorkerWakes(w) => w < |s.workers| && s.workers[w].Asleep?
    case MasterAdds(_) => s.master.Away?
    case MasterStartsWait => s.master.Away?
    case MasterEnters => s.master.Entering? || s.master.Working?
    case MasterWakes => s.master.Waiting?
  }

  predicate ByWorker(e: Event) { e.WorkerEnters? || e.WorkerWakes? }

  predicate ByMaster(e: Event) { e.MasterEnters? || e.MasterWakes? }

  /** A worker takes the lock: clean-up of its last batch, first entry, or wake-up. */
  function WorkerLocks(s: State, w: nat): State
    requires w < |s.workers|
  {
    var t := s.(workers := s.workers[w := Inside]);
    match s.workers[w]
    case NotStarted => CleanUp(t, [], true)
    case Asleep => t.(nIdle := t.nIdle - 1)
    case Inside => t
    case Busy(batch, ok) =>
      var u := CleanUp(t, batch, ok);
      if u.nTodo == 0 then u.(master := NotifyMaster(u.master)) else u
  }

  /** The master takes the lock. */
  function MasterLocks(s: State): State {
    var t := s.(master := MasterInside);
    match s.master
    case Away => t
    case Entering => CleanUp(t, [], true)
    case Waiting(_) => t.(nIdle := t.nIdle - 1)
    case MasterInside => t
    case Working(batch, ok) => CleanUp(t, batch, ok)
  }

  /** A worker, with the lock held, takes a batch or goes to sleep. */
  function WorkerChooses(t: State, w: nat): State
    requires w < |t.workers| && (t.queue != [] ==> CanTake(t))
  {
    var c := Choose(t, false);
    AfterChoice(t, c).(workers := t.workers[w := if c.Take? then Busy(c.batch, t.allOk) else Asleep])
  }

  /** The master, with the lock held, takes a batch, goes to sleep or returns the verdict. */
  function MasterChooses(t: State): (State, seq<bool>)
    requires t.queue != [] ==> CanTake(t)
  {
    var c := Choose(t, true);
    (AfterChoice(t, c).(master := if c.Take? then Working(c.batch, t.allOk) else if c.Sleep? then Waiting(false)
                        else Away),
     if c.Return? then [t.allOk] else [])
  }

  /** One atomic step, with the value Wait returns if the step ends it. */
  function Step(s: State, e: Event): (State, seq<bool>)
    requires Enabled(s, e)
    requires ByWorker(e) && WorkerLocks(s, e.worker).queue != [] ==> CanTake(WorkerLocks(s, e.worker))
    requires ByMaster(e) && MasterLocks(s).queue != [] ==> CanTake(MasterLocks(s))
  {
    if ByWorker(e) then (WorkerChooses(WorkerLocks(s, e.worker), e.worker), [])
    else if ByMaster(e) then MasterChooses(MasterLocks(s))
    else if e.MasterAdds? then
      (s.(queue := s.queue + e.checks, nTodo := s.nTodo + |e.checks|, added := s.added + multiset(e.checks)), [])
    else (s.(master := Entering), [])
  }

  // ---------------------------------------------------------------- invariant

  function InFlight(w: Worker): seq<bool> { if w.Busy? then w.batch else [] }

  function MasterInFlight(m: Master): seq<bool> { if m.Working? then m.batch else [] }

  /** Sums over the workers. */
  function Held(ws: seq<Worker>): nat {
    if ws == [] then 0 else |InFlight(ws[0])| + Held(ws[1..])
  }

  function HeldChecks(ws: seq<Worker>): multiset<bool> {
    if ws == [] then multiset{} else multiset(InFlight(ws[0])) + HeldChecks(ws[1..])
  }

  function Sleepers(ws: seq<Worker>): nat {
    if ws == [] then 0 else (if ws[0].Asleep? then 1 else 0) + Sleepers(ws[1..])
  }

  function Started(ws: seq<Worker>): nat {
    if ws == [] then 0 else (if ws[0].NotStarted? then 0 else 1) + Started(ws[1..])
  }

  lemma {:induction false} ReplaceCounts(ws: seq<Worker>, i: nat, w: Worker)
    requires i < |ws|
    ensures Held(ws[i := w]) == Held(ws) - |InFlight(ws[i])| + |InFlight(w)|
    ensures Sleepers(ws[i := w]) == Sleepers(ws) - (if ws[i].Asleep? then 1 else 0) + (if w.Asleep? then 1 else 0)
    ensures Started(ws[i := w]) == Started(ws) - (if ws[i].NotStarted? then 0 else 1) + (if w.NotStarted? then 0 else 1)
  {
    hide InFlight;
    if i == 0 {
      assert ws[0 := w][1..] == ws[1..];
    } else {
      ReplaceCounts(ws[1..], i - 1, w);
      assert ws[i := w][1..] == ws[1..][i - 1 := w];
    }
  }

  lemma {:induction false} ReplaceChecks(ws: seq<Worker>, i: nat, w: Worker)
    requires i < |ws|
    ensures HeldChecks(ws[i := w]) + multiset(InFlight(ws[i])) == HeldChecks(ws) + multiset(InFlight(w))
    ensures InFlight(ws[i]) == [] ==> HeldChecks(ws[i := w]) == HeldChecks(ws) + multiset(InFlight(w))
  {
    hide InFlight;
    if i == 0 {
      assert ws[0 := w][1..] == ws[1..];
    } else {
      ReplaceChecks(ws[1..], i - 1, w);
      assert ws[i := w][1..] == ws[1..][i - 1 := w];
      var h, a, b := multiset(InFlight(ws[0])), HeldChecks(ws[1..][i - 1 := w]), HeldChecks(ws[1..]);
      assert (h + a) + multiset(InFlight(ws[i])) == h + (a + multiset(InFlight(ws[i])));
      assert (h + b) + multiset(InFlight(w)) == h + (b + multiset(InFlight(w)));
    }
  }

  /** A batch in flight is not empty, and was started without hope only if a check of this round has failed. */
  predicate BatchOk(batch: seq<bool>, ok: bool, allOk: bool) {
    batch != [] && (!ok ==> !allOk)
  }

  predicate WorkersOk(ws: seq<Worker>, allOk: bool) {
    forall i | 0 <= i < |ws| :: ws[i].Busy? ==> BatchOk(ws[i].batch, ws[i].ok, allOk)
  }

  predicate MasterOk(s: State) {
    match s.master
    case Away => true
    case Entering => true
    case Waiting(notified) => s.queue == [] && (notified <==> s.nTodo == 0)
    case MasterInside => true
    case Working(batch, ok) => BatchOk(batch, ok, s.allOk)
  }

  /** The counters are exact. */
  predicate CountsOk(s: State) {
    && s.nTodo == |s.queue| + Held(s.workers) + |MasterInFlight(s.master)|
    && s.nIdle == Sleepers(s.workers) + (if s.master.Waiting? then 1 else 0)
    && s.nTotal == Started(s.workers) + (if s.master.Away? || s.master.Entering? then 0 else 1)
  }

  /** Every check added in this round is queued, in flight or finished. */
  predicate ChecksOk(s: State) {
    s.added == multiset(s.queue) + HeldChecks(s.workers) + multiset(MasterInFlight(s.master)) + s.finished
  }

  predicate Inv(s: State) {
    && CountsOk(s)
    && ChecksOk(s)
    && (s.allOk <==> false !in s.finished)
    && WorkersOk(s.workers, s.allOk)
    && MasterOk(s)
  }

  lemma InitialInv(batchSize: nat, n: nat)
    ensures Inv(Initial(batchSize, n))
  {
    NobodyStarted(Initial(batchSize, n).workers);
  }

  lemma {:induction false} NobodyStarted(ws: seq<Worker>)
    requires forall i | 0 <= i < |ws| :: ws[i].NotStarted?
    ensures Held(ws) == 0 && HeldChecks(ws) == multiset{} && Sleepers(ws) == 0 && Started(ws) == 0
  {
    if ws != [] {
      NobodyStarted(ws[1..]);
    }
  }

  // ------------------------------------------------------------ the lock taken

  /** The clean-up keeps the verdict exact: it is lost exactly when a finished check is false. */
  lemma VerdictAfter(allOk: bool, ok: bool, batch: seq<bool>, finished: multiset<bool>)
    requires allOk <==> false !in finished
    requires BatchOk(batch, ok, allOk)
    ensures (allOk && ok && AllTrue(batch)) <==> false !in finished + multiset(batch)
  {
    assert false in batch <==> false in multiset(batch);
  }

  lemma WorkersStayOk(ws: seq<Worker>, w: nat, x: Worker, allOk: bool, allOk': bool)
    requires WorkersOk(ws, allOk) && w < |ws| && (allOk' ==> allOk)
    requires x.Busy? ==> BatchOk(x.batch, x.ok, allOk')
    ensures WorkersOk(ws[w := x], allOk')
  {
  }

  lemma WorkerLocksCounts(s: State, w: nat)
    requires CountsOk(s) && w < |s.workers| && (s.workers[w].Busy? ==> s.workers[w].batch != [])
    ensures CountsOk(WorkerLocks(s, w))
  {
    hide Held, Sleepers, Started, AllTrue;
    ReplaceCounts(s.workers, w, Inside);
  }

  lemma WorkerLocksChecks(s: State, w: nat)
    requires ChecksOk(s) && w < |s.workers| && (s.workers[w].Busy? ==> s.workers[w].batch != [])
    ensures ChecksOk(WorkerLocks(s, w))
  {
    hide HeldChecks, AllTrue;
    ReplaceChecks(s.workers, w, Inside);
    MoveChecks(multiset(s.queue), HeldChecks(s.workers), HeldChecks(s.workers[w := Inside]),
               multiset(MasterInFlight(s.master)), s.finished, multiset(InFlight(s.workers[w])));
  }

  lemma WorkerLocksKeeps(s: State, w: nat)
    requires Inv(s) && w < |s.workers|
    ensures Inv(WorkerLocks(s, w))
  {
    hide CountsOk, ChecksOk, WorkersOk, AllTrue;
    var x := s.workers[w];
    if x.Busy? {
      WorkerFact(s, w);
      VerdictAfter(s.allOk, x.ok, x.batch, s.finished);
    }
    WorkerLocksCounts(s, w);
    TodoNonNegative(WorkerLocks(s, w));
    WorkerLocksChecks(s, w);
    WorkersStayOk(s.workers, w, Inside, s.allOk, WorkerLocks(s, w).allOk);
  }

  /** Checks that move from one place to another are still there. */
  lemma MoveChecks(q: multiset<bool>, h: multiset<bool>, h': multiset<bool>, m: multiset<bool>, f: multiset<bool>,
                   x: multiset<bool>)
    requires h' + x == h + multiset{}
    ensures q + h + m + f == q + h' + m + (f + x)
    ensures x == multiset{} ==> q + h + m + f == q + h' + m + f
  {
    assert h == h' + x;
  }

  lemma WorkerFact(s: State, w: nat)
    requires WorkersOk(s.workers, s.allOk) && w < |s.workers| && s.workers[w].Busy?
    ensures BatchOk(s.workers[w].batch, s.workers[w].ok, s.allOk)
  {
  }

  /** The counters never underflow. */
  lemma TodoNonNegative(s: State)
    requires CountsOk(s)
    ensures s.nTodo >= |s.queue| && s.nIdle >= 0 && s.nTotal >= 0
  {
  }

  lemma MasterLocksChecks(s: State)
    requires ChecksOk(s) && (s.master.Working? ==> s.master.batch != [])
    ensures ChecksOk(MasterLocks(s))
  {
    hide HeldChecks, AllTrue;
    var m := multiset(MasterInFlight(s.master));
    var q, h, f := multiset(s.queue), HeldChecks(s.workers), s.finished;
    assert q + h + m + f == q + h + multiset{} + (f + m);
  }

  lemma MasterLocksKeeps(s: State)
    requires Inv(s) && !s.master.Away?
    ensures Inv(MasterLocks(s))
  {
    hide ChecksOk, WorkersOk, AllTrue, Held, Sleepers, Started;
    if s.master.Working? {
      VerdictAfter(s.allOk, s.master.ok, s.master.batch, s.finished);
    }
    MasterLocksChecks(s);
    WorkersLoseHope(s.workers, s.allOk, MasterLocks(s).allOk);
  }

  lemma WorkersLoseHope(ws: seq<Worker>, allOk: bool, allOk': bool)
    requires WorkersOk(ws, allOk) && (allOk' ==> allOk)
    ensures WorkersOk(ws, allOk')
  {
  }

  // --------------------------------------------------------------- the choice

  /** Work can always be taken from a queue that is not empty: never more than is queued. */
  lemma CanAlwaysTake(s: State)
    requires CountsOk(s) && s.queue != []
    ensures CanTake(s) && 1 <= BatchLength(s.batchSize, |s.queue|, s.nTotal, s.nIdle)
  {
    TodoNonNegative(s);
    hide CountsOk;
    var d := s.nTotal + s.nIdle + 1;
    DivLess(|s.queue|, d);
  }

  lemma DivLess(a: nat, d: nat)
    requires d >= 1
    ensures a / d <= a
  {
  }

  /** Taking a batch splits the queue. */
  lemma TakenSplits(queue: seq<bool>, n: nat)
    requires n <= |queue|
    ensures multiset(queue) == multiset(queue[..|queue| - n]) + multiset(Taken(queue, n))
  {
    var front := queue[..|queue| - n];
    var back := queue[|queue| - n..];
    assert queue == front + back;
    Reversal(back, Taken(queue, n));
  }

  lemma {:induction false} Reversal(a: seq<bool>, b: seq<bool>)
    requires |a| == |b| && forall i | 0 <= i < |b| :: b[i] == a[|a| - 1 - i]
    ensures multiset(a) == multiset(b)
  {
    if a != [] {
      var n := |a| - 1;
      assert a == a[..n] + [a[n]];
      assert b == [b[0]] + b[1..];
      Reversal(a[..n], b[1..]);
    } else {
      assert b == [];
    }
  }

  lemma WorkerTakesKeeps(t: State, w: nat, n: nat)
    requires Inv(t) && w < |t.workers| && t.workers[w] == Inside && 1 <= n <= |t.queue|
    ensures var b := Taken(t.queue, n);
            Inv(t.(queue := t.queue[..|t.queue| - n], workers := t.workers[w := Busy(b, t.allOk)]))
  {
    hide Held, HeldChecks, Sleepers, Started, WorkersOk, Taken;
    var b := Taken(t.queue, n);
    assert |b| == n by { TakenLength(t.queue, n); }
    ReplaceCounts(t.workers, w, Busy(b, t.allOk));
    ReplaceChecks(t.workers, w, Busy(b, t.allOk));
    TakenSplits(t.queue, n);
    WorkersStayOk(t.workers, w, Busy(b, t.allOk), t.allOk, t.allOk);
    var h, h' := HeldChecks(t.workers), HeldChecks(t.workers[w := Busy(b, t.allOk)]);
    assert h' == h + multiset(b);
    var q := multiset(t.queue[..|t.queue| - n]);
    assert q + h' == (q + multiset(b)) + h;
  }

  lemma TakenLength(queue: seq<bool>, n: nat)
    requires n <= |queue|
    ensures |Taken(queue, n)| == n
  {
  }

  lemma WorkerSleepsKeeps(t: State, w: nat)
    requires Inv(t) && w < |t.workers| && t.workers[w] == Inside
    ensures Inv(t.(nIdle := t.nIdle + 1, workers := t.workers[w := Asleep]))
  {
    hide Held, HeldChecks, Sleepers, Started, WorkersOk;
    ReplaceCounts(t.workers, w, Asleep);
    ReplaceChecks(t.workers, w, Asleep);
    WorkersStayOk(t.workers, w, Asleep, t.allOk, t.allOk);
    assert HeldChecks(t.workers[w := Asleep]) == HeldChecks(t.workers);
  }

  lemma WorkerChoosesKeeps(t: State, w: nat)
    requires Inv(t) && w < |t.workers| && t.workers[w] == Inside
    ensures t.queue != [] ==> CanTake(t)
    ensures Inv(WorkerChooses(t, w))
  {
    hide Inv;
    CountsOf(t);
    hide CountsOk, Taken;
    if t.queue == [] {
      WorkerSleepsKeeps(t, w);
    } else {
      CanAlwaysTake(t);
      var n := BatchLength(t.batchSize, |t.queue|, t.nTotal, t.nIdle);
      TakenLength(t.queue, n);
      WorkerTakesKeeps(t, w, n);
    }
  }

  lemma CountsOf(s: State)
    requires Inv(s)
    ensures CountsOk(s)
  {
  }

  lemma MasterTakesKeeps(t: State, n: nat)
    requires Inv(t) && t.master == MasterInside && 1 <= n <= |t.queue|
    ensures Inv(t.(queue := t.queue[..|t.queue| - n], master := Working(Taken(t.queue, n), t.allOk)))
  {
    hide Held, HeldChecks, Sleepers, Started, WorkersOk, Taken;
    TakenLength(t.queue, n);
    TakenSplits(t.queue, n);
    var q, q', b := multiset(t.queue), multiset(t.queue[..|t.queue| - n]), multiset(Taken(t.queue, n));
    var h, f := HeldChecks(t.workers), t.finished;
    assert q + h + multiset{} + f == q' + h + b + f;
  }

  /** With no check to do, no thread holds a batch. */
  lemma {:induction false} NothingHeld(ws: seq<Worker>, allOk: bool)
    requires Held(ws) == 0 && WorkersOk(ws, allOk)
    ensures HeldChecks(ws) == multiset{} && forall i | 0 <= i < |ws| :: !ws[i].Busy?
  {
    if ws != [] {
      assert forall i | 0 <= i < |ws[1..]| :: ws[1..][i] == ws[i + 1];
      NothingHeld(ws[1..], allOk);
      forall i | 0 <= i < |ws| ensures !ws[i].Busy? {
        if i > 0 {
          assert ws[i] == ws[1..][i - 1];
        }
      }
    }
  }

  /** When the master returns, every check of the round is finished, so the verdict is about all of them. */
  lemma MasterReturns(t: State)
    requires Inv(t) && t.master == MasterInside && t.queue == [] && t.nTodo == 0
    ensures t.added == t.finished && (t.allOk <==> false !in t.added)
    ensures Inv(AfterChoice(t, Return).(master := Away))
  {
    hide Sleepers, Started;
    NothingHeld(t.workers, t.allOk);
  }

  lemma MasterChoosesKeeps(t: State)
    requires Inv(t) && t.master == MasterInside
    ensures t.queue != [] ==> CanTake(t)
    ensures var (u, r) := MasterChooses(t);
            && Inv(u) && (r != [] <==> u.master.Away?)
            && (r != [] ==> r == [false !in t.added] && u.added == multiset{} && u.queue == [] && u.allOk)
  {
    hide Held, HeldChecks, Sleepers, Started, WorkersOk, Taken;
    if t.queue == [] && t.nTodo == 0 {
      MasterReturns(t);
    } else if t.queue == [] {
      TodoNonNegative(t);
    } else {
      CanAlwaysTake(t);
      var n := BatchLength(t.batchSize, |t.queue|, t.nTotal, t.nIdle);
      TakenLength(t.queue, n);
      MasterTakesKeeps(t, n);
    }
  }

  // ----------------------------------------------------------------- theorems

  lemma WorkerInside(s: State, w: nat)
    requires w < |s.workers|
    ensures |WorkerLocks(s, w).workers| == |s.workers| && WorkerLocks(s, w).workers[w] == Inside
    ensures WorkerLocks(s, w).added == s.added
  {
  }

  lemma MasterIsInside(s: State)
    ensures MasterLocks(s).master == MasterInside && MasterLocks(s).added == s.added
  {
  }

  /** Every step can be taken (no queue is popped when empty), keeps the invariant, and returns a right verdict. */
  lemma StepKeeps(s: State, e: Event)
    requires Inv(s) && Enabled(s, e)
    ensures ByWorker(e) && WorkerLocks(s, e.worker).queue != [] ==> CanTake(WorkerLocks(s, e.worker))
    ensures ByMaster(e) && MasterLocks(s).queue != [] ==> CanTake(MasterLocks(s))
    ensures var (u, r) := Step(s, e);
            && Inv(u)
            && (r != [] ==> r == [false !in s.added] && u.master.Away? && u.added == multiset{} && u.queue == [])
  {
    hide WorkerLocks, MasterLocks, WorkerChooses, MasterChooses, CanTake, HeldChecks, Held, Sleepers, Started;
    if ByWorker(e) {
      WorkerLocksKeeps(s, e.worker);
      WorkerInside(s, e.worker);
      WorkerChoosesKeeps(WorkerLocks(s, e.worker), e.worker);
    } else if ByMaster(e) {
      MasterLocksKeeps(s);
      MasterIsInside(s);
      MasterChoosesKeeps(MasterLocks(s));
    } else if e.MasterAdds? {
      AddKeeps(s, e.checks);
    }
  }

  lemma AddKeeps(s: State, checks: seq<bool>)
    requires Inv(s) && s.master.Away?
    ensures Inv(s.(queue := s.queue + checks, nTodo := s.nTodo + |checks|, added := s.added + multiset(checks)))
  {
    hide HeldChecks, Held, Sleepers, Started, WorkersOk;
    var q, h, f := multiset(s.queue), HeldChecks(s.workers), s.finished;
    assert multiset(s.queue + checks) == q + multiset(checks);
    assert (q + h + multiset{} + f) + multiset(checks) == (q + multiset(checks)) + h + multiset{} + f;
  }

  /** One scheduled step: an event that is not enabled leaves the state alone. */
  ghost function Scheduled(s: State, e: Event): (u: (State, seq<bool>))
    requires Inv(s)
    ensures Inv(u.0)
  {
    if Enabled(s, e) then StepKeeps(s, e); Step(s, e) else (s, [])
  }

  /** Any schedule of any length. */
  ghost function Run(s: State, schedule: seq<Event>): (u: State)
    requires Inv(s)
    ensures Inv(u)
  {
    if schedule == [] then s
    else Scheduled(Run(s, schedule[..|schedule| - 1]), schedule[|schedule| - 1]).0
  }

  /** The checks added since the last return of Wait, as the schedule alone determines them. */
  ghost function Round(s: State, schedule: seq<Event>): multiset<bool>
    requires Inv(s)
  {
    if schedule == [] then s.added else
    var n := |schedule| - 1;
    var before := Run(s, schedule[..n]);
    var (_, r) := Scheduled(before, schedule[n]);
    if r != [] then multiset{}
    else if schedule[n].MasterAdds? && before.master.Away?
    then Round(s, schedule[..n]) + multiset(schedule[n].checks)
    else Round(s, schedule[..n])
  }

  lemma {:induction false} AddedIsRound(s: State, schedule: seq<Event>)
    requires Inv(s)
    ensures Run(s, schedule).added == Round(s, schedule)
  {
    if schedule != [] {
      var n := |schedule| - 1;
      AddedIsRound(s, schedule[..n]);
      var before := Run(s, schedule[..n]);
      if Enabled(before, schedule[n]) {
        StepKeeps(before, schedule[n]);
        AddedStep(before, schedule[n]);
      }
    }
  }

  lemma AddedStep(s: State, e: Event)
    requires Inv(s) && Enabled(s, e)
    requires ByWorker(e) && WorkerLocks(s, e.worker).queue != [] ==> CanTake(WorkerLocks(s, e.worker))
    requires ByMaster(e) && MasterLocks(s).queue != [] ==> CanTake(MasterLocks(s))
    ensures var (u, r) := Step(s, e);
            r == [] ==> u.added == if e.MasterAdds? then s.added + multiset(e.checks) else s.added
  {
    hide CanTake, Taken, Inv;
    if ByWorker(e) {
      WorkerInside(s, e.worker);
    } else if ByMaster(e) {
      MasterIsInside(s);
    }
  }

  /** In every interleaving, a Wait that returns does so with true exactly when every check of its round is true. */
  lemma WaitIsRight(batchSize: nat, n: nat, schedule: seq<Event>, e: Event)
    ensures Inv(Initial(batchSize, n))
    ensures var s := Initial(batchSize, n);
            var r := Scheduled(Run(s, schedule), e).1;
            r != [] ==> r == [false !in Round(s, schedule)]
  {
    InitialInv(batchSize, n);
    var s := Initial(batchSize, n);
    var u := Run(s, schedule);
    AddedIsRound(s, schedule);
    if Enabled(u, e) {
      StepKeeps(u, e);
    }
  }

  /** A master asleep without a pending notification waits for a worker that still holds a batch. */
  lemma SleepingMasterHasWorker(s: State)
    requires Inv(s) && s.master == Waiting(false)
    ensures exists w: nat :: w < |s.workers| && s.workers[w].Busy?
  {
    hide HeldChecks, Sleepers, Started;
    HolderExists(s.workers);
  }

  lemma {:induction false} HolderExists(ws: seq<Worker>)
    requires Held(ws) > 0
    ensures exists w: nat :: w < |ws| && ws[w].Busy?
  {
    if ws[0].Busy? {
    } else {
      HolderExists(ws[1..]);
      var w: nat :| w < |ws[1..]| && ws[1..][w].Busy?;
      assert ws[w + 1].Busy?;
    }
  }

  // ----------------------------------------------------------------- progress

  /** What is left to do before Wait returns: no step of any thread raises it while the master is in Wait. */
  function Rank(s: State): int {
    2 * s.nTodo + if s.master.Away? then 0 else if s.master.Entering? then 2 else 1
  }

  /** The event of a thread that is not just waiting: working, entering, or the master with its notification. */
  predicate Helpful(s: State, e: Event) {
    match e
    case WorkerEnters(w) => w < |s.workers| && s.workers[w].Busy?
    case MasterEnters => s.master.Entering? || s.master.Working?
    case MasterWakes => s.master == Waiting(true)
    case _ => false
  }

  lemma RankWorker(s: State, w: nat)
    requires w < |s.workers| && (s.workers[w].Busy? ==> s.workers[w].batch != [])
    ensures Rank(WorkerLocks(s, w)) == Rank(s) - 2 * |InFlight(s.workers[w])|
  {
  }

  lemma RankWorkerChooses(t: State, w: nat)
    requires w < |t.workers| && (t.queue != [] ==> CanTake(t))
    ensures Rank(WorkerChooses(t, w)) == Rank(t)
  {
    hide Taken, BatchLength;
  }

  lemma RankMaster(s: State)
    requires !s.master.Away? && (s.master.Working? ==> s.master.batch != [])
    requires MasterLocks(s).queue != [] ==> CanTake(MasterLocks(s))
    requires s.master.Waiting? ==> s.queue == [] && (s.master.notified <==> s.nTodo == 0)
    ensures Rank(MasterChooses(MasterLocks(s)).0) <= Rank(s)
    ensures s.master != Waiting(false) && !s.master.MasterInside? ==> Rank(MasterChooses(MasterLocks(s)).0) < Rank(s)
  {
    hide Taken, BatchLength;
  }

  lemma MasterFacts(s: State)
    requires Inv(s)
    ensures s.master.Working? ==> s.master.batch != []
    ensures s.master.Waiting? ==> s.queue == [] && (s.master.notified <==> s.nTodo == 0)
  {
    hide CountsOk, ChecksOk, WorkersOk;
  }

  /** While the master is in Wait no step raises the rank, and every helpful step lowers it. */
  lemma RankFalls(s: State, e: Event)
    requires Inv(s) && Enabled(s, e) && !s.master.Away?
    ensures ByWorker(e) && WorkerLocks(s, e.worker).queue != [] ==> CanTake(WorkerLocks(s, e.worker))
    ensures ByMaster(e) && MasterLocks(s).queue != [] ==> CanTake(MasterLocks(s))
    ensures var u := Step(s, e).0;
            Rank(u) <= Rank(s) && (Helpful(s, e) ==> Rank(u) < Rank(s)) && 0 <= Rank(u)
  {
    hide Inv, WorkerLocks, MasterLocks, WorkerChooses, MasterChooses, CanTake;
    StepKeeps(s, e);
    RankNonNegative(Step(s, e).0);
    MasterFacts(s);
    if ByWorker(e) {
      BusyFacts(s, e.worker);
      WorkerInside(s, e.worker);
      RankWorker(s, e.worker);
      RankWorkerChooses(WorkerLocks(s, e.worker), e.worker);
    } else {
      RankMaster(s);
    }
  }

  lemma RankNonNegative(s: State)
    requires Inv(s)
    ensures 0 <= Rank(s)
  {
    CountsOf(s);
    TodoNonNegative(s);
  }

  lemma BusyFacts(s: State, w: nat)
    requires Inv(s) && w < |s.workers|
    ensures s.workers[w].Busy? ==> s.workers[w].batch != []
  {
    hide CountsOk, ChecksOk, MasterOk;
  }

  predicate NobodyInside(s: State) {
    !s.master.MasterInside? && forall w | 0 <= w < |s.workers| :: !s.workers[w].Inside?
  }

  /** While the master is in Wait some thread has a helpful step. */
  lemma SomeHelpfulStep(s: State) returns (e: Event)
    requires Inv(s) && NobodyInside(s) && !s.master.Away?
    ensures Enabled(s, e) && Helpful(s, e)
  {
    if s.master == Waiting(false) {
      SleepingMasterHasWorker(s);
      var w: nat :| w < |s.workers| && s.workers[w].Busy?;
      e := WorkerEnters(w);
    } else if s.master == Waiting(true) {
      e := MasterWakes;
    } else {
      e := MasterEnters;
    }
  }

  lemma WorkerLeaves(t: State, w: nat)
    requires w < |t.workers| && (t.queue != [] ==> CanTake(t))
    ensures var u := WorkerChooses(t, w);
            && |u.workers| == |t.workers| && !u.workers[w].Inside? && u.master == t.master
            && forall i | 0 <= i < |t.workers| && i != w :: u.workers[i] == t.workers[i]
  {
    hide Taken, BatchLength;
  }

  lemma WorkerLocksOthers(s: State, w: nat)
    requires w < |s.workers|
    ensures var t := WorkerLocks(s, w);
            && |t.workers| == |s.workers| && (t.master.MasterInside? <==> s.master.MasterInside?)
            && forall i | 0 <= i < |t.workers| && i != w :: t.workers[i] == s.workers[i]
  {
  }

  lemma MasterLeaves(s: State)
    requires MasterLocks(s).queue != [] ==> CanTake(MasterLocks(s))
    ensures var u := MasterChooses(MasterLocks(s)).0; u.workers == s.workers && !u.master.MasterInside?
  {
    hide Taken, BatchLength;
  }

  lemma NobodyStaysInside(s: State, e: Event)
    requires Inv(s) && NobodyInside(s) && Enabled(s, e)
    ensures ByWorker(e) && WorkerLocks(s, e.worker).queue != [] ==> CanTake(WorkerLocks(s, e.worker))
    ensures ByMaster(e) && MasterLocks(s).queue != [] ==> CanTake(MasterLocks(s))
    ensures NobodyInside(Step(s, e).0)
  {
    hide Inv, CanTake, WorkerLocks, MasterLocks, WorkerChooses, MasterChooses;
    StepKeeps(s, e);
    if ByWorker(e) {
      WorkerLocksOthers(s, e.worker);
      WorkerLeaves(WorkerLocks(s, e.worker), e.worker);
    } else if ByMaster(e) {
      MasterLeaves(s);
    }
  }

  // --------------------------------------------------------- fair schedules

  /** Some step of a schedule makes Wait return. */
  ghost predicate Returns(s: State, schedule: seq<Event>)
    requires Inv(s)
  {
    exists k: nat :: k < |schedule| && ReturnsAt(s, schedule, k)
  }

  ghost predicate ReturnsAt(s: State, schedule: seq<Event>, k: nat)
    requires Inv(s) && k < |schedule|
  {
    Scheduled(Run(s, schedule[..k]), schedule[k]).1 != []
  }

  /** A schedule can be run step by step from the front. */
  lemma {:induction false} RunSplit(s: State, first: seq<Event>, rest: seq<Event>)
    requires Inv(s)
    ensures Run(s, first + rest) == Run(Run(s, first), rest)
    decreases |rest|
  {
    hide Inv, Scheduled;
    if rest == [] {
      assert first + rest == first;
    } else {
      var n := |rest| - 1;
      RunSplit(s, first, rest[..n]);
      assert (first + rest)[..|first| + n] == first + rest[..n];
    }
  }

  lemma ReturnsSplit(s: State, first: seq<Event>, rest: seq<Event>)
    requires Inv(s) && (Returns(s, first) || Returns(Run(s, first), rest))
    ensures Returns(s, first + rest)
  {
    hide Inv, ReturnsAt, Run;
    if Returns(s, first) {
      var k: nat :| k < |first| && ReturnsAt(s, first, k);
      ReturnsEarly(s, first, rest, k);
    } else {
      var k: nat :| k < |rest| && ReturnsAt(Run(s, first), rest, k);
      ReturnsLate(s, first, rest, k);
    }
  }

  lemma ReturnsEarly(s: State, first: seq<Event>, rest: seq<Event>, k: nat)
    requires Inv(s) && k < |first| && ReturnsAt(s, first, k)
    ensures ReturnsAt(s, first + rest, k)
  {
    hide Inv, Scheduled, Run;
    assert (first + rest)[..k] == first[..k];
  }

  lemma ReturnsLate(s: State, first: seq<Event>, rest: seq<Event>, k: nat)
    requires Inv(s) && k < |rest| && ReturnsAt(Run(s, first), rest, k)
    ensures ReturnsAt(s, first + rest, |first| + k)
  {
    hide Inv, Scheduled, Run;
    RunSplit(s, first, rest[..k]);
    assert (first + rest)[..|first| + k] == first + rest[..k];
  }

  lemma OneStep(s: State, e: Event)
    requires Inv(s)
    ensures Run(s, [e]) == Scheduled(s, e).0 && (Returns(s, [e]) <==> Scheduled(s, e).1 != [])
  {
    hide Inv, Scheduled;
    assert [e][..0] == [];
    assert Run(s, [e][..0]) == s;
    assert ReturnsAt(s, [e], 0) <==> Scheduled(s, e).1 != [];
  }

  /** The master is in Wait, no thread is inside a critical section, and there are n workers. */
  predicate InWait(s: State, n: nat) { Inv(s) && NobodyInside(s) && !s.master.Away? && |s.workers| == n }

  /** A step in Wait: Wait returns, or goes on with no more to do; less if the step was helpful. */
  lemma WaitStep(s: State, e: Event, n: nat)
    requires InWait(s, n)
    ensures var (t, r) := Scheduled(s, e);
            r != [] || (InWait(t, n) && Rank(t) <= Rank(s) && (Helpful(s, e) ==> Rank(t) < Rank(s)))
  {
    hide Inv, WorkerLocks, MasterLocks, WorkerChooses, MasterChooses, CanTake, NobodyInside, Rank;
    if Enabled(s, e) {
      StepKeeps(s, e);
      RankFalls(s, e);
      NobodyStaysInside(s, e);
      StepStays(s, e);
    }
  }

  lemma StepStays(s: State, e: Event)
    requires Inv(s) && Enabled(s, e) && !s.master.Away?
    ensures ByWorker(e) && WorkerLocks(s, e.worker).queue != [] ==> CanTake(WorkerLocks(s, e.worker))
    ensures ByMaster(e) && MasterLocks(s).queue != [] ==> CanTake(MasterLocks(s))
    ensures var (t, r) := Step(s, e);
            |t.workers| == |s.workers| && (r == [] ==> !t.master.Away?)
  {
    hide Inv, CanTake, WorkerLocks, MasterLocks, WorkerChooses, MasterChooses;
    StepKeeps(s, e);
    if ByWorker(e) {
      WorkerLocksOthers(s, e.worker);
      WorkerLocksWait(s, e.worker);
      WorkerLeaves(WorkerLocks(s, e.worker), e.worker);
    } else if ByMaster(e) {
      MasterLeaves(s);
      MasterStays(MasterLocks(s));
    }
  }

  lemma WorkerLocksWait(s: State, w: nat)
    requires w < |s.workers|
    ensures WorkerLocks(s, w).master == s.master || WorkerLocks(s, w).master == NotifyMaster(s.master)
  {
  }

  lemma MasterStays(t: State)
    requires t.queue != [] ==> CanTake(t)
    ensures MasterChooses(t).1 == [] ==> !MasterChooses(t).0.master.Away?
  {
    hide Taken, BatchLength;
  }

  /** What a thread can do to help it can still do after a step of another. */
  lemma StaysHelpful(s: State, e: Event, f: Event)
    requires Inv(s) && Helpful(s, e) && e != f && !s.master.Away?
    ensures Scheduled(s, f).1 != [] || Helpful(Scheduled(s, f).0, e)
  {
    hide Inv, CanTake, WorkerLocks, MasterLocks, WorkerChooses, MasterChooses;
    if Enabled(s, f) {
      StepKeeps(s, f);
      if ByWorker(f) {
        WorkerLocksOthers(s, f.worker);
        WorkerLocksWait(s, f.worker);
        WorkerLeaves(WorkerLocks(s, f.worker), f.worker);
      } else if ByMaster(f) {
        MasterLeaves(s);
      }
    }
  }

  /** Without a return, a schedule in Wait never leaves more to do. */
  lemma {:induction false} RankNeverRises(s: State, schedule: seq<Event>, n: nat)
    requires InWait(s, n)
    ensures Returns(s, schedule) || (InWait(Run(s, schedule), n) && Rank(Run(s, schedule)) <= Rank(s))
    decreases |schedule|
  {
    hide Inv, Rank, Run, Returns, Scheduled, NobodyInside;
    if schedule == [] {
      RunNothing(s);
    } else {
      var e, rest := schedule[0], schedule[1..];
      assert schedule == [e] + rest;
      WaitStep(s, e, n);
      OneStep(s, e);
      RunSplit(s, [e], rest);
      if Scheduled(s, e).1 == [] {
        RankNeverRises(Scheduled(s, e).0, rest, n);
      }
      if Returns(s, [e]) || Returns(Run(s, [e]), rest) {
        ReturnsSplit(s, [e], rest);
      }
    }
  }

  lemma RunNothing(s: State)
    requires Inv(s)
    ensures Run(s, []) == s
  {
  }

  /** A schedule in Wait that contains a step that is helpful at its start leaves less to do, or Wait returns. */
  lemma {:induction false} TurnHelps(s: State, schedule: seq<Event>, e: Event, n: nat)
    requires InWait(s, n) && Helpful(s, e) && e in schedule
    ensures Returns(s, schedule) || (InWait(Run(s, schedule), n) && Rank(Run(s, schedule)) < Rank(s))
    decreases |schedule|
  {
    hide Inv, Rank, Run, Returns, Scheduled, NobodyInside, Helpful;
    var f, rest := schedule[0], schedule[1..];
    assert schedule == [f] + rest;
    WaitStep(s, f, n);
    OneStep(s, f);
    RunSplit(s, [f], rest);
    if Scheduled(s, f).1 == [] {
      if f == e {
        RankNeverRises(Scheduled(s, f).0, rest, n);
      } else {
        StaysHelpful(s, e, f);
        TurnHelps(Scheduled(s, f).0, rest, e, n);
      }
    }
    if Returns(s, [f]) || Returns(Run(s, [f]), rest) {
      ReturnsSplit(s, [f], rest);
    }
  }

  /** Every thread gets a turn. */
  ghost predicate EveryoneTurns(schedule: seq<Event>, n: nat) {
    && MasterEnters in schedule && MasterWakes in schedule
    && (forall w: nat | w < n :: WorkerEnters(w) in schedule)
  }

  ghost function Joined(blocks: seq<seq<Event>>): seq<Event> {
    if blocks == [] then [] else blocks[0] + Joined(blocks[1..])
  }

  /**
   A fair schedule makes Wait return: with every thread getting a turn in each of more blocks than there is left
   to do, whatever else the schedule does and in whatever order.
   */
  lemma {:induction false} FairWaitReturns(s: State, blocks: seq<seq<Event>>)
    requires InWait(s, |s.workers|) && |blocks| > Rank(s)
    requires forall k | 0 <= k < |blocks| :: EveryoneTurns(blocks[k], |s.workers|)
    ensures Returns(s, Joined(blocks))
    decreases |blocks|
  {
    hide Inv, Run, Returns, NobodyInside, Helpful, EveryoneTurns, Rank;
    RankNonNegative(s);
    var n, block := |s.workers|, blocks[0];
    var e := SomeHelpfulStep(s);
    HelpfulTurn(s, e, block);
    TurnHelps(s, block, e, n);
    if !Returns(s, block) {
      FairWaitReturns(Run(s, block), blocks[1..]);
    }
    ReturnsSplit(s, block, Joined(blocks[1..]));
  }

  lemma HelpfulTurn(s: State, e: Event, schedule: seq<Event>)
    requires Helpful(s, e) && EveryoneTurns(schedule, |s.workers|)
    ensures e in schedule
  {
  }

  lemma {:induction false} RunsLeaveInside(s: State, schedule: seq<Event>)
    requires Inv(s) && NobodyInside(s)
    ensures NobodyInside(Run(s, schedule)) && |Run(s, schedule).workers| == |s.workers|
    decreases |schedule|
  {
    hide Inv, NobodyInside, Step;
    if schedule != [] {
      var n := |schedule| - 1;
      RunsLeaveInside(s, schedule[..n]);
      var before := Run(s, schedule[..n]);
      if Enabled(before, schedule[n]) {
        NobodyStaysInside(before, schedule[n]);
        StepWorkers(before, schedule[n]);
      }
    }
  }

  lemma StepWorkers(s: State, e: Event)
    requires Inv(s) && Enabled(s, e)
    ensures ByWorker(e) && WorkerLocks(s, e.worker).queue != [] ==> CanTake(WorkerLocks(s, e.worker))
    ensures ByMaster(e) && MasterLocks(s).queue != [] ==> CanTake(MasterLocks(s))
    ensures |Step(s, e).0.workers| == |s.workers|
  {
    hide Inv, CanTake, WorkerLocks, MasterLocks, WorkerChooses, MasterChooses;
    StepKeeps(s, e);
    if ByWorker(e) {
      WorkerLocksOthers(s, e.worker);
      WorkerLeaves(WorkerLocks(s, e.worker), e.worker);
    } else if ByMaster(e) {
      MasterLeaves(s);
    }
  }

  /** However a Wait was reached, it returns under every fair schedule. */
  lemma EveryWaitReturns(batchSize: nat, n: nat, schedule: seq<Event>, blocks: seq<seq<Event>>)
    requires Inv(Initial(batchSize, n)) && !Run(Initial(batchSize, n), schedule).master.Away?
    requires |blocks| > Rank(Run(Initial(batchSize, n), schedule))
    requires forall k | 0 <= k < |blocks| :: EveryoneTurns(blocks[k], n)
    ensures Returns(Run(Initial(batchSize, n), schedule), Joined(blocks))
  {
    hide Inv, Run, Returns, EveryoneTurns, Rank, Joined;
    assert NobodyInside(Initial(batchSize, n));
    RunsLeaveInside(Initial(batchSize, n), schedule);
    FairWaitReturns(Run(Initial(batchSize, n), schedule), blocks);
  }

  // -------------------------------------------------------------------- loops

  /** The loop that takes a batch off the back of the queue. */
  method TakeBatch(queue: seq<bool>, n: nat) returns (batch: seq<bool>, rest: seq<bool>)
    requires n <= |queue|
    ensures batch == Taken(queue, n) && rest == queue[..|queue| - n]
  {
    batch, rest := [], queue;
    for i := 0 to n
      invariant batch == Taken(queue, i) && rest == queue[..|queue| - i]
    {
      batch := batch + [rest[|rest| - 1]];
      rest := rest[..|rest| - 1];
    }
  }

  /** The loop that runs a batch: a check is skipped once one has failed. */
  method RunChecks(batch: seq<bool>, start: bool) returns (ok: bool)
    ensures ok <==> start && AllTrue(batch)
  {
    ok := start;
    for i := 0 to |batch|
      invariant ok <==> start && AllTrue(batch[..i])
    {
      assert batch[..i + 1] == batch[..i] + [batch[i]];
      if ok {
        ok := batch[i];
      }
    }
    assert batch[..|batch|] == batch;
  }
}
