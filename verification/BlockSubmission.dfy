/** Concurrent block submissions sharing one guard. */
module BlockSubmission {
  import opened GuardQueue
  import opened BlockSubmitGuard
  import W = ShareWalk

  // ---- Replies of the node ----

  /** What a call comes back with; `inner` is the text of the error that made it fail. */
  datatype Reply = Answered(success: bool) | CallFailed(inner: string)

  predicate Contains(s: string, t: string) {
    t <= s || (s != [] && Contains(s[1..], t))
  }

  predicate IsDuplicate(text: string) {
    Contains(text, "ErrDuplicateBlock") || Contains(text, "duplicate")
  }

  /** The context that every failed call is wrapped in. */
  const CALL_CONTEXT: string := "Failed to submit block"

  /** What an error with a context displays: the context alone. */
  function Display(context: string, inner: string): string {
    context
  }

  /** The reply leaves the hash marked. */
  predicate KeepsMark(reply: Reply) {
    match reply
    case Answered(success) => success
    case CallFailed(inner) => IsDuplicate(Display(CALL_CONTEXT, inner))
  }

  lemma {:induction false} CharMissing(s: string, t: string, k: nat)
    requires k < |t| && t[k] !in s
    ensures !Contains(s, t)
  {
    if s != [] { CharMissing(s[1..], t, k); }
  }

  lemma NoDuplicateText(text: string)
    requires 'p' !in text
    ensures !IsDuplicate(text)
  {
    CharMissing(text, "ErrDuplicateBlock", 5);
    CharMissing(text, "duplicate", 2);
  }

  /** Whatever made the call fail, it is not recognised as a duplicate: the mark goes. */
  lemma WrappedFailureUnmarks(inner: string)
    ensures !KeepsMark(CallFailed(inner))
  {
    NoDuplicateText(Display(CALL_CONTEXT, inner));
  }

  /** The test of the wrapped error does what the same test of the node's own text would do
      if and only if that text does not tell of a duplicate. */
  lemma DuplicateTestExact(inner: string)
    ensures KeepsMark(CallFailed(inner)) == IsDuplicate(inner) <==> !IsDuplicate(inner)
  {
    WrappedFailureUnmarks(inner);
  }

  /** The mark stays exactly when the node accepted the block. */
  lemma KeptExact(reply: Reply)
    ensures KeepsMark(reply) <==> reply == Answered(true)
  {
    if reply.CallFailed? { WrappedFailureUnmarks(reply.inner); }
  }

  datatype Outcome = AlreadySubmitted | Accepted | Rejected | Failed

  /** One submission with no other in between; `reply` is what the node would answer. */
  method SubmitBlock(guard: BlockSubmitGuard, hash: string, now: nat, later: nat, reply: Reply)
    returns (sent: bool, outcome: Outcome)
    modifies guard
    ensures sent == Marks(guard.L(), old(guard.View()), TryMark(hash, now))
    ensures outcome.Accepted? <==> sent && reply == Answered(true)
    ensures outcome.AlreadySubmitted? <==> !sent
    ensures outcome.Rejected? <==> sent && reply == Answered(false)
    ensures sent ==> (hash in guard.entries <==> reply == Answered(true))
    ensures var marked := Next(guard.L(), old(guard.View()), TryMark(hash, now));
            guard.View() == if sent && !KeepsMark(reply) then Next(guard.L(), marked, Unmark(hash, later)) else marked
  {
    sent := guard.TryMark(hash, now);
    if !sent { return false, AlreadySubmitted; }
    match reply {
      case CallFailed(inner) =>
        WrappedFailureUnmarks(inner);
        if !IsDuplicate(Display(CALL_CONTEXT, inner)) { guard.Remove(hash, later); }
        outcome := Failed;
      case Answered(success) =>
        if !success {
          guard.Remove(hash, later);
          return true, Rejected;
        }
        outcome := Accepted;
    }
  }

  // ---- What the submit handler makes of it ----

  /** The error of a submission that was not accepted; `report` is how the node's report prints. */
  function ErrorText(outcome: Outcome, report: string, inner: string): string {
    match outcome
    case AlreadySubmitted => "ErrDuplicateBlock" + ": block already submitted"
    case Rejected => "Block rejected by node: " + report
    case Failed => Display(CALL_CONTEXT, inner)
    case Accepted => ""
  }

  /** The handler tells a duplicate by the error's text. */
  function HandlerReply(outcome: Outcome, report: string, inner: string): W.Reply {
    if outcome.Accepted? then W.Success
    else if Contains(ErrorText(outcome, report, inner), "ErrDuplicateBlock") then W.Duplicate
    else W.Failed
  }

  lemma {:induction false} ContainsBehind(a: string, b: string, t: string)
    requires t != "" && t[0] !in a
    ensures Contains(a + b, t) <==> Contains(b, t)
  {
    if a == "" {
      assert a + b == b;
    } else {
      assert (a + b)[0] == a[0];
      assert (a + b)[1..] == a[1..] + b;
      ContainsBehind(a[1..], b, t);
    }
  }

  /** A block is a duplicate to the handler if its hash was marked already, and bad if the call
      failed or the node rejected it, unless the node's report says that it is a duplicate. */
  lemma HandlerReplyExact(outcome: Outcome, report: string, inner: string)
    ensures HandlerReply(outcome, report, inner) ==
            match outcome
            case Accepted => W.Success
            case AlreadySubmitted => W.Duplicate
            case Failed => W.Failed
            case Rejected => if Contains(report, "ErrDuplicateBlock") then W.Duplicate else W.Failed
  {
    match outcome
    case Accepted =>
    case AlreadySubmitted => StartsWith("ErrDuplicateBlock", ": block already submitted");
    case Failed => CharMissing(Display(CALL_CONTEXT, inner), "ErrDuplicateBlock", 5);
    case Rejected => ContainsBehind("Block rejected by node: ", report, "ErrDuplicateBlock");
  }

  lemma StartsWith(t: string, rest: string)
    ensures Contains(t + rest, t)
  {
  }

  // ---- Any interleaving ----

  /** `Sent`: marked, waiting for the node; `Refused`: the hash was marked already. */
  datatype Submission = Begun(hash: string) | Sent(hash: string) | Refused(hash: string) | Done(hash: string, reply: Reply)

  datatype State = State(guard: Guard<nat>, subs: seq<Submission>)

  datatype Step = Begin(hash: string) | Mark(i: nat, now: nat) | Reply(i: nat, reply: Reply, now: nat)

  function Goto(s: State, i: nat, t: Submission, g: Guard<nat>): State
    requires i < |s.subs|
  {
    State(g, s.subs[i := t])
  }

  function Take(l: Limits<nat>, s: State, e: Step): State {
    match e
    case Begin(h) => s.(subs := s.subs + [Begun(h)])
    case Mark(i, now) =>
      if i >= |s.subs| || !s.subs[i].Begun? then s
      else
        var h := s.subs[i].hash;
        Goto(s, i, if Marks(l, s.guard, TryMark(h, now)) then Sent(h) else Refused(h), Next(l, s.guard, TryMark(h, now)))
    case Reply(i, reply, now) =>
      if i >= |s.subs| || !s.subs[i].Sent? then s
      else
        var h := s.subs[i].hash;
        Goto(s, i, Done(h, reply), if KeepsMark(reply) then s.guard else Next(l, s.guard, Unmark(h, now)))
  }

  /** The run takes step `i`. */
  ghost predicate StepsAt(l: Limits<nat>, states: seq<State>, steps: seq<Step>, i: nat)
    requires |states| == |steps| + 1 && i < |steps|
  {
    states[i + 1] == Take(l, states[i], steps[i])
  }

  ghost predicate Run(l: Limits<nat>, states: seq<State>, steps: seq<Step>) {
    && |states| == |steps| + 1
    && states[0] == State(Guard(map[], []), [])
    && forall k | 0 <= k < |steps| :: StepsAt(l, states, steps, k)
  }

  lemma RunStep(l: Limits<nat>, states: seq<State>, steps: seq<Step>, i: nat)
    requires Run(l, states, steps) && i < |steps|
    ensures states[i + 1] == Take(l, states[i], steps[i])
  {
    assert StepsAt(l, states, steps, i);
  }

  /** A block that is with the node or was accepted by it. */
  predicate Live(t: Submission, h: string) {
    t == Sent(h) || t == Done(h, Answered(true))
  }

  /** The guard call that a step makes prunes `h` away. */
  predicate Drops(l: Limits<nat>, s: State, e: Step, h: string) {
    && h in s.guard.entries
    && match e
       case Begin(_) => false
       case Mark(i, now) => i < |s.subs| && s.subs[i].Begun? && h !in Prune(l, s.guard, now).entries
       case Reply(i, reply, now) =>
         i < |s.subs| && s.subs[i].Sent? && reply != Answered(true) && h !in Prune(l, s.guard, now).entries
  }

  /** `h` has expired by the time of the step, or the guard is over its size. */
  predicate Outdated(l: Limits<nat>, s: State, e: Step, h: string) {
    && h in s.guard.entries && !e.Begin?
    && (l.Expired(s.guard.entries[h], e.now) || |DropExpired(l, s.guard, e.now).entries| > l.max)
  }

  /** At most one submission of `h` is live, and it is marked. */
  predicate OneLive(s: State, h: string) {
    && (forall i | 0 <= i < |s.subs| && Live(s.subs[i], h) :: h in s.guard.entries)
    && (forall i, j | 0 <= i < j < |s.subs| :: !(Live(s.subs[i], h) && Live(s.subs[j], h)))
  }

  lemma TakeCovered(l: Limits<nat>, s: State, e: Step)
    requires Covered(s.guard)
    ensures Covered(Take(l, s, e).guard)
  {
    match e {
      case Begin(_) =>
      case Mark(i, now) => if i < |s.subs| { NextCovered(l, s.guard, TryMark(s.subs[i].hash, now)); }
      case Reply(i, _, now) => if i < |s.subs| { NextCovered(l, s.guard, Unmark(s.subs[i].hash, now)); }
    }
  }

  /** One submission changes: the hash stays marked as long as any other one is live. */
  lemma Replaced(s: State, i: nat, t: Submission, g: Guard<nat>, h: string)
    requires OneLive(s, h) && i < |s.subs|
    requires forall j | 0 <= j < |s.subs| && j != i && Live(s.subs[j], h) :: h in g.entries && !Live(t, h)
    requires Live(t, h) ==> h in g.entries
    ensures OneLive(Goto(s, i, t, g), h)
  {
  }

  lemma MarkOneLive(l: Limits<nat>, s: State, i: nat, now: nat, h: string)
    requires OneLive(s, h) && !Drops(l, s, Mark(i, now), h) && i < |s.subs| && s.subs[i].Begun?
    ensures OneLive(Take(l, s, Mark(i, now)), h)
  {
    var k := s.subs[i].hash;
    var t := if Marks(l, s.guard, TryMark(k, now)) then Sent(k) else Refused(k);
    Replaced(s, i, t, Next(l, s.guard, TryMark(k, now)), h);
  }

  lemma ReplyOneLive(l: Limits<nat>, s: State, i: nat, reply: Reply, now: nat, h: string)
    requires OneLive(s, h) && !Drops(l, s, Step.Reply(i, reply, now), h) && i < |s.subs| && s.subs[i].Sent?
    ensures OneLive(Take(l, s, Step.Reply(i, reply, now)), h)
  {
    KeptExact(reply);
    var k := s.subs[i].hash;
    assert k == h ==> Live(s.subs[i], h);
    Replaced(s, i, Done(k, reply), if KeepsMark(reply) then s.guard else Next(l, s.guard, Unmark(k, now)), h);
  }

  lemma TakeOneLive(l: Limits<nat>, s: State, e: Step, h: string)
    requires OneLive(s, h) && !Drops(l, s, e, h)
    ensures OneLive(Take(l, s, e), h)
  {
    match e
    case Begin(_) =>
    case Mark(i, now) => if i < |s.subs| && s.subs[i].Begun? { MarkOneLive(l, s, i, now, h); }
    case Reply(i, reply, now) => if i < |s.subs| && s.subs[i].Sent? { ReplyOneLive(l, s, i, reply, now, h); }
  }

  /** A block that was refused, rejected or not delivered can be sent again: its hash is
      unmarked at once, and the next attempt finds it so unless another one came first. */
  lemma UnacceptedUnmarked(l: Limits<nat>, s: State, i: nat, reply: Reply, now: nat, later: nat)
    requires Covered(s.guard) && i < |s.subs| && s.subs[i].Sent? && reply != Answered(true)
    ensures var h, s' := s.subs[i].hash, Take(l, s, Reply(i, reply, now));
            h !in s'.guard.entries && Marks(l, s'.guard, TryMark(h, later))
  {
    KeptExact(reply);
    var g := Take(l, s, Reply(i, reply, now)).guard;
    NextCovered(l, s.guard, Unmark(s.subs[i].hash, now));
    PruneDrops(l, g, later, s.subs[i].hash);
  }

  lemma {:induction false} RunCovered(l: Limits<nat>, states: seq<State>, steps: seq<Step>, n: nat)
    requires Run(l, states, steps) && n <= |steps|
    ensures Covered(states[n].guard)
  {
    if n > 0 {
      RunCovered(l, states, steps, n - 1);
      RunStep(l, states, steps, n - 1);
      TakeCovered(l, states[n - 1], steps[n - 1]);
    }
  }

  lemma {:induction false} RunOneLive(l: Limits<nat>, states: seq<State>, steps: seq<Step>, n: nat, h: string)
    requires Run(l, states, steps) && n <= |steps|
    requires forall k | 0 <= k < n :: !Drops(l, states[k], steps[k], h)
    ensures OneLive(states[n], h)
  {
    if n > 0 {
      RunOneLive(l, states, steps, n - 1, h);
      RunStep(l, states, steps, n - 1);
      TakeOneLive(l, states[n - 1], steps[n - 1], h);
    }
  }

  /** Under any interleaving, two submissions of one hash are both with the node or accepted
      only if the guard has meanwhile dropped the hash for age or for lack of room. */
  lemma TwoLiveDropped(l: Limits<nat>, states: seq<State>, steps: seq<Step>, n: nat, i: nat, j: nat, h: string)
    requires Run(l, states, steps) && n <= |steps| && i < j < |states[n].subs|
    requires Live(states[n].subs[i], h) && Live(states[n].subs[j], h)
    ensures exists k | 0 <= k < n :: Drops(l, states[k], steps[k], h) && Outdated(l, states[k], steps[k], h)
  {
    if k: nat :| k < n && Drops(l, states[k], steps[k], h) {
      RunCovered(l, states, steps, k);
      PruneDrops(l, states[k].guard, steps[k].now, h);
    }
    if forall k | 0 <= k < n :: !Drops(l, states[k], steps[k], h) {
      RunOneLive(l, states, steps, n, h);
      assert false;
    }
  }
}
