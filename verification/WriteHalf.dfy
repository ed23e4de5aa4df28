/** Sharing the write half of a client's socket between concurrent writers and disconnects.
    Every step of a task below touches the shared state at most once. */
module WriteHalf {
  datatype Outcome = Written | Failed | TimedOut

  /** Where a task is. `write_data` goes from `Check` to `Returned`, `disconnect` from `Swap`
      to `Gone`; `n` counts the attempts before this one, and `Miss` holds the lock with no half. */
  datatype Task =
    | Check | Attempt(n: nat) | Take(n: nat) | Write(n: nat)
    | PutBack(n: nat, out: Outcome) | Unlock(n: nat, out: Outcome) | Report(n: nat, out: Outcome)
    | Miss | Returned(ok: bool)
    | Swap | Shut | Gone

  /** `slot`: the half is in the shared slot; `closed`: a disconnect took it to shut it down. */
  datatype State = State(disconnecting: bool, lock: bool, slot: bool, closed: bool, tasks: seq<Task>)

  /** `Step` lets task `i` take its next step; `out` is how a socket write ends. */
  datatype Event = Spawn(task: Task) | Step(i: nat, out: Outcome)

  const LAST_ATTEMPT: nat := 2

  const INITIAL: State := State(false, false, true, false, [])

  function Retry(n: nat): Task {
    if n < LAST_ATTEMPT then Attempt(n + 1) else Returned(false)
  }

  /** Where a task at `t` goes. */
  function Continue(s: State, t: Task, out: Outcome): Task {
    match t
    case Check => if s.disconnecting then Returned(false) else Attempt(0)
    case Attempt(n) => if s.lock then Retry(n) else Take(n)
    case Take(n) => if s.slot then Write(n) else Miss
    case Write(n) => PutBack(n, out)
    case PutBack(n, o) => Unlock(n, o)
    case Miss => Returned(false)
    case Unlock(n, o) => Report(n, o)
    case Report(n, o) => if o.Written? then Returned(true) else if o.TimedOut? then Retry(n) else Returned(false)
    case Swap => if s.disconnecting then Gone else Shut
    case Shut => Gone
    case Returned(_) => t
    case Gone => t
  }

  /** What a task at `t` does to the shared flags and the slot. */
  function Effect(s: State, t: Task): State {
    match t
    case Attempt(_) => s.(lock := true)
    case Take(_) => s.(slot := false)
    case PutBack(_, _) => s.(slot := true)
    case Miss => s.(lock := false)
    case Unlock(_, _) => s.(lock := false)
    case Swap => s.(disconnecting := true)
    case Shut => s.(slot := false, closed := s.slot)
    case _ => s
  }

  /** A writer that gives up after a failure starts a disconnect unless one is under way. */
  function Started(s: State, t: Task): seq<Task> {
    if t.Report? && !t.out.Written? && (t.out.Failed? || t.n >= LAST_ATTEMPT) && !s.disconnecting then [Swap] else []
  }

  function StepTask(s: State, i: nat, out: Outcome): State
    requires i < |s.tasks|
  {
    var t := s.tasks[i];
    Effect(s, t).(tasks := s.tasks[i := Continue(s, t, out)] + Started(s, t))
  }

  function Next(s: State, e: Event): State {
    match e
    case Spawn(t) => if t.Check? || t.Swap? then s.(tasks := s.tasks + [t]) else s
    case Step(i, out) => if i < |s.tasks| then StepTask(s, i, out) else s
  }

  /** The run takes step `i`. */
  ghost predicate StepsAt(states: seq<State>, events: seq<Event>, i: nat)
    requires |states| == |events| + 1 && i < |events|
  {
    states[i + 1] == Next(states[i], events[i])
  }

  ghost predicate Run(states: seq<State>, events: seq<Event>) {
    && |states| == |events| + 1
    && states[0] == INITIAL
    && forall k | 0 <= k < |events| :: StepsAt(states, events, k)
  }

  lemma RunStep(states: seq<State>, events: seq<Event>, i: nat)
    requires Run(states, events) && i < |events|
    ensures states[i + 1] == Next(states[i], events[i])
  {
    assert StepsAt(states, events, i);
  }

  // ---- What every step keeps ----

  predicate InSection(t: Task) {
    t.Take? || t.Write? || t.PutBack? || t.Unlock? || t.Miss?
  }

  predicate Holding(t: Task) {
    t.Write? || t.PutBack?
  }

  predicate Owned(s: State, w: int) {
    && -1 <= w < |s.tasks|
    && s.lock == (w >= 0)
    && forall i | 0 <= i < |s.tasks| :: InSection(s.tasks[i]) <==> i == w
  }

  predicate HalfPlaced(s: State, w: int)
    requires -1 <= w < |s.tasks|
  {
    if w >= 0 && Holding(s.tasks[w]) then !s.slot && !s.closed else s.slot != s.closed
  }

  predicate Closer(s: State, c: int) {
    && -1 <= c < |s.tasks|
    && (c >= 0 || s.closed ==> s.disconnecting)
    && !(c >= 0 && s.closed)
    && forall i | 0 <= i < |s.tasks| :: s.tasks[i].Shut? <==> i == c
  }

  /** `w` is the writer inside the write section and `c` the one disconnect past its swap, or -1. */
  predicate InvAt(s: State, w: int, c: int) {
    Owned(s, w) && HalfPlaced(s, w) && Closer(s, c)
  }

  function NextOwner(s: State, w: int, e: Event): int {
    if e.Spawn? || e.i >= |s.tasks| then w
    else match s.tasks[e.i]
         case Attempt(_) => if s.lock then w else e.i
         case Unlock(_, _) => -1
         case Miss => -1
         case _ => w
  }

  function NextCloser(s: State, c: int, e: Event): int {
    if e.Spawn? || e.i >= |s.tasks| then c
    else match s.tasks[e.i]
         case Swap => if s.disconnecting then c else e.i
         case Shut => -1
         case _ => c
  }

  lemma StepOwned(s: State, w: int, c: int, e: Event)
    requires InvAt(s, w, c)
    ensures Owned(Next(s, e), NextOwner(s, w, e))
  {
  }

  lemma StepHalf(s: State, w: int, c: int, e: Event)
    requires InvAt(s, w, c)
    requires Owned(Next(s, e), NextOwner(s, w, e))
    ensures HalfPlaced(Next(s, e), NextOwner(s, w, e))
  {
    if e.Step? && e.i < |s.tasks| {
      if s.tasks[e.i].Shut? { assert c == e.i; }
      if InSection(s.tasks[e.i]) { assert w == e.i; }
    }
  }

  lemma StepCloser(s: State, w: int, c: int, e: Event)
    requires InvAt(s, w, c)
    ensures Closer(Next(s, e), NextCloser(s, c, e))
  {
    if e.Step? && e.i < |s.tasks| && s.tasks[e.i].Shut? { assert c == e.i; }
  }

  /** After every run from the start, at most one task is inside the write section, the lock
      is held exactly while there is one, and the half is in exactly one place. */
  lemma {:induction false} RunInv(states: seq<State>, events: seq<Event>, k: nat) returns (w: int, c: int)
    requires Run(states, events) && k < |states|
    ensures InvAt(states[k], w, c)
  {
    if k == 0 {
      w, c := -1, -1;
    } else {
      var j := k - 1;
      var v, b := RunInv(states, events, j);
      RunStep(states, events, j);
      StepOwned(states[j], v, b, events[j]);
      StepHalf(states[j], v, b, events[j]);
      StepCloser(states[j], v, b, events[j]);
      w, c := NextOwner(states[j], v, events[j]), NextCloser(states[j], b, events[j]);
    }
  }

  lemma MutualExclusion(states: seq<State>, events: seq<Event>, k: nat, i: nat, j: nat)
    requires Run(states, events) && k < |states| && i < |states[k].tasks| && j < |states[k].tasks|
    requires InSection(states[k].tasks[i]) && InSection(states[k].tasks[j])
    ensures i == j && states[k].lock
    ensures Holding(states[k].tasks[i]) ==> !states[k].slot && !states[k].closed
  {
    var w, c := RunInv(states, events, k);
    assert i == w && j == w;
  }

  predicate Finished(t: Task) {
    t.Returned? || t.Gone?
  }

  /** Once every task has finished, however it ended, the lock is free and the half is either
      back in the slot or taken by the disconnect. */
  lemma QuietReleased(states: seq<State>, events: seq<Event>, k: nat)
    requires Run(states, events) && k < |states|
    requires forall i | 0 <= i < |states[k].tasks| :: Finished(states[k].tasks[i])
    ensures !states[k].lock && states[k].slot == !states[k].closed
  {
    var w, c := RunInv(states, events, k);
    assert w >= 0 ==> InSection(states[k].tasks[w]);
  }

  // ---- A disconnect closes what it finds ----

  /** The disconnect that takes effect has made its one attempt on the slot. */
  predicate Settled(s: State) {
    s.disconnecting && forall i | 0 <= i < |s.tasks| :: !s.tasks[i].Shut?
  }

  lemma StepSettled(s: State, e: Event)
    requires Settled(s)
    ensures Settled(Next(s, e)) && Next(s, e).closed == s.closed
  {
  }

  lemma {:induction false} RunSettled(states: seq<State>, events: seq<Event>, k: nat, n: nat)
    requires Run(states, events) && k <= n < |states| && Settled(states[k])
    ensures Settled(states[n]) && states[n].closed == states[k].closed
  {
    if k < n {
      RunSettled(states, events, k, n - 1);
      RunStep(states, events, n - 1);
      StepSettled(states[n - 1], events[n - 1]);
    }
  }

  /** The half is ever closed if and only if it was in the slot at the step at which the
      disconnect looked; a half held by a writer at that step goes back and stays open. */
  lemma ClosedExact(states: seq<State>, events: seq<Event>, k: nat, n: nat, i: nat, out: Outcome)
    requires Run(states, events) && k < n < |states|
    requires i < |states[k].tasks| && states[k].tasks[i].Shut? && events[k] == Step(i, out)
    ensures states[n].closed <==> states[k].slot
    ensures !states[k].slot <==> exists j | 0 <= j < |states[k].tasks| :: Holding(states[k].tasks[j])
  {
    var w, c := RunInv(states, events, k);
    var s := states[k];
    assert c == i;
    RunStep(states, events, k);
    assert Settled(states[k + 1]);
    RunSettled(states, events, k + 1, n);
    if j: nat :| j < |s.tasks| && Holding(s.tasks[j]) { assert InSection(s.tasks[j]); }
  }

  ghost predicate Reaches(states: seq<State>, events: seq<Event>, s: State) {
    Run(states, events) && states[|events|] == s
  }

  lemma Extend(states: seq<State>, events: seq<Event>, s: State, e: Event, t: State)
    returns (states': seq<State>, events': seq<Event>)
    requires Reaches(states, events, s) && Next(s, e) == t
    ensures Reaches(states', events', t)
  {
    states', events' := states + [t], events + [e];
    forall k | 0 <= k < |events'| ensures StepsAt(states', events', k) {
      if k < |events| { assert StepsAt(states, events, k); }
    }
  }

  lemma ReachWriting() returns (states: seq<State>, events: seq<Event>)
    ensures Reaches(states, events, State(false, true, false, false, [Write(0)]))
  {
    states, events := [INITIAL], [];
    states, events := Extend(states, events, INITIAL, Spawn(Check), State(false, false, true, false, [Check]));
    states, events := Extend(states, events, State(false, false, true, false, [Check]),
      Step(0, Written), State(false, false, true, false, [Attempt(0)]));
    states, events := Extend(states, events, State(false, false, true, false, [Attempt(0)]),
      Step(0, Written), State(false, true, true, false, [Take(0)]));
    states, events := Extend(states, events, State(false, true, true, false, [Take(0)]),
      Step(0, Written), State(false, true, false, false, [Write(0)]));
  }

  lemma ReachGone() returns (states: seq<State>, events: seq<Event>)
    ensures Reaches(states, events, State(true, true, false, false, [Write(0), Gone]))
  {
    states, events := ReachWriting();
    states, events := Extend(states, events, State(false, true, false, false, [Write(0)]),
      Spawn(Swap), State(false, true, false, false, [Write(0), Swap]));
    states, events := Extend(states, events, State(false, true, false, false, [Write(0), Swap]),
      Step(1, Written), State(true, true, false, false, [Write(0), Shut]));
    states, events := Extend(states, events, State(true, true, false, false, [Write(0), Shut]),
      Step(1, Written), State(true, true, false, false, [Write(0), Gone]));
  }

  /** A disconnect during a write: everything ends, and the half is left open in the slot. */
  lemma WriteOutlivesDisconnect() returns (states: seq<State>, events: seq<Event>)
    ensures Reaches(states, events, State(true, false, true, false, [Returned(true), Gone]))
  {
    states, events := ReachGone();
    states, events := Extend(states, events, State(true, true, false, false, [Write(0), Gone]),
      Step(0, Written), State(true, true, false, false, [PutBack(0, Written), Gone]));
    states, events := Extend(states, events, State(true, true, false, false, [PutBack(0, Written), Gone]),
      Step(0, Written), State(true, true, true, false, [Unlock(0, Written), Gone]));
    states, events := Extend(states, events, State(true, true, true, false, [Unlock(0, Written), Gone]),
      Step(0, Written), State(true, false, true, false, [Report(0, Written), Gone]));
    states, events := Extend(states, events, State(true, false, true, false, [Report(0, Written), Gone]),
      Step(0, Written), State(true, false, true, false, [Returned(true), Gone]));
  }

  // ---- Every writer returns ----

  function Sooner(n: nat): nat {
    if n < LAST_ATTEMPT then 6 * n else 12
  }

  /** An upper bound on the steps a task still has to take. */
  function Rank(t: Task): nat {
    match t
    case Check => 19
    case Attempt(n) => 18 - Sooner(n)
    case Take(n) => 17 - Sooner(n)
    case Write(n) => 16 - Sooner(n)
    case PutBack(n, _) => 15 - Sooner(n)
    case Unlock(n, _) => 14 - Sooner(n)
    case Report(n, _) => 13 - Sooner(n)
    case Miss => 1
    case Returned(_) => 0
    case Swap => 2
    case Shut => 1
    case Gone => 0
  }

  predicate Moves(s: State, i: nat, e: Event) {
    e.Step? && e.i == i && i < |s.tasks| && !Finished(s.tasks[i])
  }

  ghost function OwnSteps(states: seq<State>, events: seq<Event>, i: nat, a: nat, b: nat): nat
    requires Run(states, events) && a <= b < |states|
  {
    if a == b then 0
    else OwnSteps(states, events, i, a, b - 1) + if Moves(states[b - 1], i, events[b - 1]) then 1 else 0
  }

  lemma ContinueRank(s: State, t: Task, out: Outcome)
    requires !Finished(t)
    ensures Rank(Continue(s, t, out)) < Rank(t)
  {
  }

  lemma StepRank(s: State, i: nat, e: Event)
    requires i < |s.tasks|
    ensures i < |Next(s, e).tasks|
    ensures Moves(s, i, e) ==> Rank(Next(s, e).tasks[i]) < Rank(s.tasks[i])
    ensures !Moves(s, i, e) ==> Next(s, e).tasks[i] == s.tasks[i]
  {
    if Moves(s, i, e) { ContinueRank(s, s.tasks[i], e.out); }
  }

  /** Whatever the other tasks do, a task finishes within the steps its rank allows: at most
      19 of its own for a write, 2 for a disconnect. */
  lemma {:induction false} WaitFree(states: seq<State>, events: seq<Event>, i: nat, a: nat, b: nat)
    requires Run(states, events) && a <= b < |states| && i < |states[a].tasks|
    ensures i < |states[b].tasks|
    ensures OwnSteps(states, events, i, a, b) + Rank(states[b].tasks[i]) <= Rank(states[a].tasks[i])
    ensures OwnSteps(states, events, i, a, b) >= Rank(states[a].tasks[i]) ==> Finished(states[b].tasks[i])
    ensures states[a].tasks[i] == Check && OwnSteps(states, events, i, a, b) >= 19 ==> Finished(states[b].tasks[i])
    ensures states[a].tasks[i] == Swap && OwnSteps(states, events, i, a, b) >= 2 ==> Finished(states[b].tasks[i])
  {
    if a < b {
      WaitFree(states, events, i, a, b - 1);
      RunStep(states, events, b - 1);
      StepRank(states[b - 1], i, events[b - 1]);
    }
  }

  // ---- What a writer returns ----

  /** Task `i` ends a socket write with `out` at step `j`. */
  predicate Ends(s: State, e: Event, i: nat, out: Outcome) {
    i < |s.tasks| && s.tasks[i].Write? && e == Step(i, out)
  }

  /** `t` has written, and says so if it has returned. */
  predicate Wrote(t: Task) {
    (t.PutBack? && t.out.Written?) || (t.Unlock? && t.out.Written?) || (t.Report? && t.out.Written?) || t == Returned(true)
  }

  ghost predicate EverWritten(states: seq<State>, events: seq<Event>, i: nat, a: nat, b: nat)
    requires |states| == |events| + 1 && a <= b < |states|
  {
    exists j :: a <= j < b && Ends(states[j], events[j], i, Written)
  }

  lemma StepOf(s: State, e: Event, i: nat)
    requires i < |s.tasks|
    ensures i < |Next(s, e).tasks|
    ensures Next(s, e).tasks[i] == if e.Step? && e.i == i then Continue(s, s.tasks[i], e.out) else s.tasks[i]
  {
  }

  lemma ContinueWrote(s: State, t: Task, out: Outcome)
    requires t != Returned(true)
    ensures Wrote(Continue(s, t, out)) <==> Wrote(t) || (t.Write? && out.Written?)
  {
  }

  lemma StepWrote(s: State, e: Event, i: nat)
    requires i < |s.tasks| && s.tasks[i] != Returned(true)
    ensures i < |Next(s, e).tasks|
    ensures Wrote(Next(s, e).tasks[i]) <==> Wrote(s.tasks[i]) || Ends(s, e, i, Written)
  {
    StepOf(s, e, i);
    if e.Step? && e.i == i { ContinueWrote(s, s.tasks[i], e.out); }
  }

  lemma StepReturned(s: State, e: Event, i: nat)
    requires i < |s.tasks| && s.tasks[i].Returned?
    ensures i < |Next(s, e).tasks| && Next(s, e).tasks[i] == s.tasks[i]
  {
  }

  /** Over every run, a writer that has returned reports success if and only if one of its own
      socket writes ended well. */
  lemma {:induction false} ResultExact(states: seq<State>, events: seq<Event>, i: nat, a: nat, b: nat)
    requires Run(states, events) && a <= b < |states| && i < |states[a].tasks| && states[a].tasks[i] == Check
    ensures i < |states[b].tasks| && (Wrote(states[b].tasks[i]) <==> EverWritten(states, events, i, a, b))
    ensures states[b].tasks[i].Returned? ==> (states[b].tasks[i].ok <==> EverWritten(states, events, i, a, b))
  {
    if a < b {
      var j := b - 1;
      ResultExact(states, events, i, a, j);
      RunStep(states, events, j);
      if states[j].tasks[i] == Returned(true) {
        StepReturned(states[j], events[j], i);
      } else {
        StepWrote(states[j], events[j], i);
      }
      EverNext(states, events, i, a, b);
    }
  }

  lemma EverNext(states: seq<State>, events: seq<Event>, i: nat, a: nat, b: nat)
    requires |states| == |events| + 1 && a < b < |states|
    ensures EverWritten(states, events, i, a, b) <==>
            EverWritten(states, events, i, a, b - 1) || Ends(states[b - 1], events[b - 1], i, Written)
  {
    if Ends(states[b - 1], events[b - 1], i, Written) { assert a <= b - 1 < b; }
  }

  // ---- How often it tries ----

  predicate Tries(s: State, i: nat, e: Event) {
    e.Step? && e.i == i && i < |s.tasks| && s.tasks[i].Attempt?
  }

  /** The attempts on the lock that task `i` made. */
  ghost function Attempts(states: seq<State>, events: seq<Event>, i: nat, a: nat, b: nat): nat
    requires |states| == |events| + 1 && a <= b < |states|
  {
    if a == b then 0
    else Attempts(states, events, i, a, b - 1) + if Tries(states[b - 1], i, events[b - 1]) then 1 else 0
  }

  /** A writer gives up for a reason other than being beaten to the lock or timing out: it met a
      disconnect, found no half, or its write failed. */
  predicate Stops(s: State, t: Task) {
    match t
    case Check => s.disconnecting
    case Miss => true
    case Report(_, Failed) => true
    case _ => false
  }

  predicate Stopped(s: State, e: Event, i: nat) {
    e.Step? && e.i == i && i < |s.tasks| && Stops(s, s.tasks[i])
  }

  ghost predicate EverStopped(states: seq<State>, events: seq<Event>, i: nat, a: nat, b: nat)
    requires |states| == |events| + 1 && a <= b < |states|
  {
    exists j :: a <= j < b && Stopped(states[j], events[j], i)
  }

  /** A task at `t` has made `k` attempts; `stopped` says whether it gave up for another reason. */
  predicate Counted(t: Task, k: nat, stopped: bool) {
    match t
    case Check => k == 0 && !stopped
    case Attempt(n) => k == n <= 2 && !stopped
    case Take(n) => k == n + 1 <= 3 && !stopped
    case Write(n) => k == n + 1 <= 3 && !stopped
    case PutBack(n, _) => k == n + 1 <= 3 && !stopped
    case Unlock(n, _) => k == n + 1 <= 3 && !stopped
    case Report(n, _) => k == n + 1 <= 3 && !stopped
    case Miss => 1 <= k <= 3 && !stopped
    case Returned(true) => 1 <= k <= 3 && !stopped
    case Returned(false) => k <= 3 && (k == 3 || stopped)
    case _ => false
  }

  lemma ContinueCounted(s: State, t: Task, out: Outcome, k: nat, stopped: bool)
    requires Counted(t, k, stopped)
    ensures Counted(Continue(s, t, out), if t.Attempt? then k + 1 else k, stopped || Stops(s, t))
  {
  }

  lemma StepCounted(s: State, e: Event, i: nat, k: nat, stopped: bool)
    requires i < |s.tasks| && Counted(s.tasks[i], k, stopped)
    ensures i < |Next(s, e).tasks|
    ensures Counted(Next(s, e).tasks[i], if Tries(s, i, e) then k + 1 else k, stopped || Stopped(s, e, i))
  {
    StepOf(s, e, i);
    if e.Step? && e.i == i { ContinueCounted(s, s.tasks[i], e.out, k, stopped); }
  }

  /** Over every run a writer makes at most three attempts, and it gives up after fewer only if
      it met a disconnect, found no half, or its write failed: a busy lock and a timeout are
      tried again. */
  lemma {:induction false} ThreeAttempts(states: seq<State>, events: seq<Event>, i: nat, a: nat, b: nat)
    requires Run(states, events) && a <= b < |states| && i < |states[a].tasks| && states[a].tasks[i] == Check
    ensures i < |states[b].tasks|
    ensures Counted(states[b].tasks[i], Attempts(states, events, i, a, b), EverStopped(states, events, i, a, b))
    ensures Attempts(states, events, i, a, b) <= 3
    ensures states[b].tasks[i] == Returned(false) ==>
              Attempts(states, events, i, a, b) == 3 || EverStopped(states, events, i, a, b)
  {
    if a < b {
      var j := b - 1;
      ThreeAttempts(states, events, i, a, j);
      RunStep(states, events, j);
      StepCounted(states[j], events[j], i, Attempts(states, events, i, a, j), EverStopped(states, events, i, a, j));
      StoppedNext(states, events, i, a, b);
    }
  }

  lemma StoppedNext(states: seq<State>, events: seq<Event>, i: nat, a: nat, b: nat)
    requires |states| == |events| + 1 && a < b < |states|
    ensures EverStopped(states, events, i, a, b) <==>
            EverStopped(states, events, i, a, b - 1) || Stopped(states[b - 1], events[b - 1], i)
  {
    if Stopped(states[b - 1], events[b - 1], i) { assert a <= b - 1 < b; }
  }

  // ---- A failed write disconnects ----

  /** A writer reports a failed write, or the timeout of its last attempt. */
  predicate Fails(s: State, e: Event) {
    && e.Step? && e.i < |s.tasks| && s.tasks[e.i].Report?
    && (s.tasks[e.i].out.Failed? || (s.tasks[e.i].out.TimedOut? && s.tasks[e.i].n == 2))
  }

  /** A disconnect is under way, or waiting for its turn. */
  predicate Doomed(s: State) {
    s.disconnecting || exists i :: 0 <= i < |s.tasks| && s.tasks[i].Swap?
  }

  lemma FailsDooms(s: State, e: Event)
    requires Fails(s, e)
    ensures Doomed(Next(s, e))
  {
    if !s.disconnecting { assert Next(s, e).tasks[|s.tasks|] == Swap; }
  }

  lemma DoomedStays(s: State, e: Event)
    requires Doomed(s)
    ensures Doomed(Next(s, e))
  {
    if !s.disconnecting {
      var i :| 0 <= i < |s.tasks| && s.tasks[i].Swap?;
      if !(e.Step? && e.i == i) { assert Next(s, e).tasks[i].Swap?; }
    }
  }

  /** Over every run: after a failed write, or three timeouts, the client is disconnected once
      all tasks have finished. */
  lemma {:induction false} FailureDisconnects(states: seq<State>, events: seq<Event>, k: nat, n: nat)
    requires Run(states, events) && k < n < |states| && Fails(states[k], events[k])
    ensures Doomed(states[n])
    ensures (forall i | 0 <= i < |states[n].tasks| :: Finished(states[n].tasks[i])) ==> states[n].disconnecting
  {
    RunStep(states, events, n - 1);
    if n == k + 1 {
      FailsDooms(states[k], events[k]);
    } else {
      FailureDisconnects(states, events, k, n - 1);
      DoomedStays(states[n - 1], events[n - 1]);
    }
  }

  /** Neither a failure nor anyone else has started a disconnect. */
  predicate Connected(s: State) {
    !s.disconnecting && !s.closed && forall i | 0 <= i < |s.tasks| :: !s.tasks[i].Swap? && !s.tasks[i].Shut?
  }

  lemma StepConnected(s: State, e: Event)
    requires Connected(s) && e != Spawn(Swap) && !Fails(s, e)
    requires e.Step? && e.i < |s.tasks| && s.tasks[e.i].Report? ==> s.tasks[e.i].n <= 2
    ensures Connected(Next(s, e))
  {
  }

  /** No task has made more than three attempts. */
  predicate FewAttempts(t: Task) {
    match t
    case Attempt(n) => n <= 2
    case Take(n) => n <= 2
    case Write(n) => n <= 2
    case PutBack(n, _) => n <= 2
    case Unlock(n, _) => n <= 2
    case Report(n, _) => n <= 2
    case _ => true
  }

  lemma StepFew(s: State, e: Event)
    requires forall i | 0 <= i < |s.tasks| :: FewAttempts(s.tasks[i])
    ensures forall i | 0 <= i < |Next(s, e).tasks| :: FewAttempts(Next(s, e).tasks[i])
  {
    forall i | 0 <= i < |Next(s, e).tasks| ensures FewAttempts(Next(s, e).tasks[i]) {
      if i < |s.tasks| {
        StepOf(s, e, i);
        assert FewAttempts(s.tasks[i]);
      }
    }
  }

  /** Conversely, the client stays connected as long as nobody disconnects it and no write fails
      or times out three times. */
  lemma {:induction false} StaysConnected(states: seq<State>, events: seq<Event>, n: nat)
    requires Run(states, events) && n < |states|
    requires forall k | 0 <= k < n :: events[k] != Spawn(Swap) && !Fails(states[k], events[k])
    ensures Connected(states[n]) && forall i | 0 <= i < |states[n].tasks| :: FewAttempts(states[n].tasks[i])
  {
    if n > 0 {
      StaysConnected(states, events, n - 1);
      RunStep(states, events, n - 1);
      var s, e := states[n - 1], events[n - 1];
      if e.Step? && e.i < |s.tasks| { assert FewAttempts(s.tasks[e.i]); }
      StepConnected(s, e);
      StepFew(s, e);
    }
  }
}
