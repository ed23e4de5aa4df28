/** The guard that lets each block hash reach the node once. */
module BlockSubmitGuard {
  import opened GuardQueue

  datatype Event = TryMark(hash: string, now: nat) | Unmark(hash: string, now: nat)

  function LimitsOf(ttl: nat, max: nat): Limits<nat> {
    Limits(ttl, max, (t: nat) => t)
  }

  /** Whether the call marks its hash. */
  predicate Marks(l: Limits<nat>, g: Guard<nat>, e: Event) {
    e.TryMark? && e.hash !in Prune(l, g, e.now).entries
  }

  function Next(l: Limits<nat>, g: Guard<nat>, e: Event): Guard<nat> {
    var p := Prune(l, g, e.now);
    match e
    case TryMark(h, now) =>
      if h in p.entries then p else Guard(p.entries[h := now], p.order + [h])
    case Unmark(h, _) => Guard(p.entries - {h}, p.order) // the queue item stays
  }

  /** The run takes step `i`. */
  ghost predicate StepsAt(l: Limits<nat>, states: seq<Guard<nat>>, events: seq<Event>, i: nat)
    requires |states| == |events| + 1 && i < |events|
  {
    states[i + 1] == Next(l, states[i], events[i])
  }

  ghost predicate Run(l: Limits<nat>, states: seq<Guard<nat>>, events: seq<Event>) {
    && |states| == |events| + 1
    && forall i | 0 <= i < |events| :: StepsAt(l, states, events, i)
  }

  lemma RunStep(l: Limits<nat>, states: seq<Guard<nat>>, events: seq<Event>, i: nat)
    requires Run(l, states, events) && i < |events|
    ensures states[i + 1] == Next(l, states[i], events[i])
  {
    assert StepsAt(l, states, events, i);
  }

  lemma NextCovered(l: Limits<nat>, g: Guard<nat>, e: Event)
    requires Covered(g)
    ensures Covered(Next(l, g, e)) && |Next(l, g, e).entries| <= l.max + 1
  {
    PruneDrops(l, g, e.now, e.hash);
    var p := Prune(l, g, e.now);
    if e.Unmark? {
      assert (p.entries - {e.hash}).Keys <= p.entries.Keys;
      SubsetSize((p.entries - {e.hash}).Keys, p.entries.Keys);
    }
  }

  /** Over every run each entry is in the queue, stale queue items notwithstanding. */
  lemma {:induction false} RunCovered(l: Limits<nat>, states: seq<Guard<nat>>, events: seq<Event>, n: nat)
    requires Run(l, states, events) && Covered(states[0]) && n <= |events|
    ensures Covered(states[n]) && (n > 0 ==> |states[n].entries| <= l.max + 1)
  {
    if n > 0 {
      RunCovered(l, states, events, n - 1);
      RunStep(l, states, events, n - 1);
      NextCovered(l, states[n - 1], events[n - 1]);
    }
  }

  // ---- One submission per hash ----

  /** The call removes `h` from the table: an explicit unmark, an expiry or lack of room. */
  predicate Releases(l: Limits<nat>, g: Guard<nat>, e: Event, h: string) {
    || e == Unmark(h, e.now)
    || (h in g.entries && h !in Prune(l, g, e.now).entries
        && (l.Expired(g.entries[h], e.now) || |DropExpired(l, g, e.now).entries| > l.max))
  }

  lemma NotReleasedKept(l: Limits<nat>, g: Guard<nat>, e: Event, h: string)
    requires Covered(g) && h in g.entries && !Releases(l, g, e, h)
    ensures h in Next(l, g, e).entries && h in Prune(l, g, e.now).entries
  {
    PruneDrops(l, g, e.now, h);
  }

  lemma {:induction false} KeptUntil(l: Limits<nat>, states: seq<Guard<nat>>, events: seq<Event>, h: string, i: nat, j: nat)
    requires Run(l, states, events) && Covered(states[0]) && i <= j <= |events| && h in states[i].entries
    requires forall m | i <= m < j :: !Releases(l, states[m], events[m], h)
    ensures h in states[j].entries
  {
    if j > i {
      var m := j - 1;
      KeptUntil(l, states, events, h, i, m);
      RunCovered(l, states, events, m);
      RunStep(l, states, events, m);
      var g, e := states[m], events[m];
      NotReleasedKept(l, g, e, h);
    }
  }

  lemma MarkStays(l: Limits<nat>, g: Guard<nat>, e: Event)
    requires Marks(l, g, e)
    ensures e.hash in Next(l, g, e).entries
  {
  }

  lemma MarkBlocks(l: Limits<nat>, g: Guard<nat>, e: Event, h: string)
    requires Covered(g) && h in g.entries && e.hash == h && !Releases(l, g, e, h)
    ensures !Marks(l, g, e)
  {
    NotReleasedKept(l, g, e, h);
  }

  lemma MarkedUntil(l: Limits<nat>, states: seq<Guard<nat>>, events: seq<Event>, h: string, i: nat, j: nat)
    requires Run(l, states, events) && Covered(states[0]) && i < j <= |events|
    requires events[i].hash == h && Marks(l, states[i], events[i])
    requires forall m | i < m < j :: !Releases(l, states[m], events[m], h)
    ensures h in states[j].entries
  {
    RunStep(l, states, events, i);
    MarkStays(l, states[i], events[i]);
    KeptUntil(l, states, events, h, i + 1, j);
  }

  /** Two successful marks of one hash have an unmark, an expiry or a capacity drop between them. */
  lemma TwoMarksReleased(l: Limits<nat>, states: seq<Guard<nat>>, events: seq<Event>, i: nat, j: nat)
    requires Run(l, states, events) && Covered(states[0]) && i < j < |events|
    requires events[i].hash == events[j].hash
    requires Marks(l, states[i], events[i]) && Marks(l, states[j], events[j])
    ensures exists m :: i < m <= j && Releases(l, states[m], events[m], events[i].hash)
  {
    var h := events[i].hash;
    if forall m | i < m <= j :: !Releases(l, states[m], events[m], h) {
      MarkedUntil(l, states, events, h, i, j);
      RunCovered(l, states, events, j);
      MarkBlocks(l, states[j], events[j], h);
      assert false;
    }
  }

  // ---- Runs without unmarks ----

  ghost predicate Steady(l: Limits<nat>, g: Guard<nat>, now: nat) {
    && Listed(g) && InOrder(l, g) && l.ts == LimitsOf(l.ttl, l.max).ts
    && forall k | k in g.entries :: g.entries[k] <= now
  }

  lemma PruneSteady(l: Limits<nat>, g: Guard<nat>, last: nat, now: nat)
    requires Steady(l, g, last) && last <= now
    ensures Steady(l, Prune(l, g, now), now)
  {
    PruneListed(l, g, now);
    var n, m := PruneKeepsSuffix(l, g, now);
    PoppedInOrder(l, g, m);
  }

  /** Marking keeps the queue an exact listing in timestamp order, as long as the clock
      does not go back and nothing is unmarked. */
  lemma NextSteady(l: Limits<nat>, g: Guard<nat>, last: nat, e: Event)
    requires Steady(l, g, last) && e.TryMark? && last <= e.now
    ensures Steady(l, Next(l, g, e), e.now)
  {
    PruneSteady(l, g, last, e.now);
    var p := Prune(l, g, e.now);
    if e.hash !in p.entries {
      AppendListed(p, e.hash, e.now);
      AppendInOrder(l, p, e.hash, e.now);
    }
  }

  /** The time of the last of the first `n` calls. */
  function LastTime(events: seq<Event>, n: nat): nat
    requires n <= |events|
  {
    if n == 0 then 0 else events[n - 1].now
  }

  predicate Clocked(events: seq<Event>) {
    forall i | 0 < i < |events| :: events[i - 1].now <= events[i].now
  }

  ghost predicate ClockedMarks(events: seq<Event>) {
    Clocked(events) && forall i | 0 <= i < |events| :: events[i].TryMark?
  }

  lemma {:induction false} RunSteady(l: Limits<nat>, states: seq<Guard<nat>>, events: seq<Event>, n: nat)
    requires Run(l, states, events) && ClockedMarks(events) && Steady(l, states[0], 0) && n <= |events|
    ensures Steady(l, states[n], LastTime(events, n))
  {
    if n > 0 {
      var m := n - 1;
      RunSteady(l, states, events, m);
      RunStep(l, states, events, m);
      var g, e, last := states[m], events[m], LastTime(events, m);
      assert last <= e.now;
      NextSteady(l, g, last, e);
    }
  }

  /** In such runs pruning keeps exactly the unexpired hashes, then the newest `max`. */
  lemma SteadyPrune(l: Limits<nat>, states: seq<Guard<nat>>, events: seq<Event>, n: nat, now: nat, i: nat)
    requires Run(l, states, events) && ClockedMarks(events) && Steady(l, states[0], 0) && n <= |events|
    requires i < |states[n].order|
    ensures var q := states[n];
            && q.order[i] in q.entries
            && (q.order[i] in Prune(l, q, now).entries <==>
                !l.Expired(q.entries[q.order[i]], now) && i >= |q.order| - l.max)
  {
    RunSteady(l, states, events, n);
    PruneExact(l, states[n], now, i);
  }

  // ---- Unmarks leave queue items behind ----

  /** After every run, unmarks included, a hash survives a prune exactly when an unexpired
      hash stands at or before its first queue item, which may be a stale one from before an
      unmark, and what is left from that item on fits. */
  lemma RunSurvives(l: Limits<nat>, states: seq<Guard<nat>>, events: seq<Event>, n: nat, now: nat, h: string, i: nat)
    requires Run(l, states, events) && Covered(states[0]) && n <= |events|
    requires h in states[n].entries && FirstAt(states[n], h, i)
    ensures var g := states[n];
            h in Prune(l, g, now).entries <==>
            && (exists j | 0 <= j <= i :: g.order[j] in g.entries && !l.Expired(g.entries[g.order[j]], now))
            && Left(g, i) <= l.max
  {
    RunCovered(l, states, events, n);
    SurvivesExact(l, states[n], now, h, i);
  }

  /** No stale item stands among live ones, and timestamps follow the queue. */
  ghost predicate Small(l: Limits<nat>, g: Guard<nat>, now: nat) {
    Steady(l, g, now) || g.entries == map[]
  }

  lemma {:induction false} PruneEmpty(l: Limits<nat>, g: Guard<nat>, now: nat)
    requires g.entries == map[]
    ensures Prune(l, g, now) == Guard(map[], [])
    decreases |g.order|
  {
    if g.order != [] { PruneEmpty(l, Pop(g), now); }
  }

  lemma PruneSmall(l: Limits<nat>, g: Guard<nat>, last: nat, now: nat)
    requires l == LimitsOf(l.ttl, l.max) && Small(l, g, last) && last <= now
    ensures Steady(l, Prune(l, g, now), now) && |Prune(l, g, now).entries| <= l.max
  {
    if g.entries == map[] {
      PruneEmpty(l, g, now);
    } else {
      PruneSteady(l, g, last, now);
      PruneListed(l, g, now);
      ListedSize(Prune(l, g, now));
    }
  }

  lemma SingleKey(m: map<string, nat>, k: string)
    requires k in m && |m| <= 1
    ensures m - {k} == map[]
  {
    assert |m.Keys - {k}| == |m.Keys| - 1 <= 0;
  }

  lemma NextSmall(l: Limits<nat>, g: Guard<nat>, last: nat, e: Event)
    requires l == LimitsOf(l.ttl, l.max) && l.max <= 1 && Small(l, g, last) && last <= e.now
    ensures Small(l, Next(l, g, e), e.now)
  {
    PruneSmall(l, g, last, e.now);
    var p := Prune(l, g, e.now);
    if e.TryMark? && e.hash !in p.entries {
      AppendListed(p, e.hash, e.now);
      AppendInOrder(l, p, e.hash, e.now);
    } else if e.Unmark? {
      if e.hash in p.entries {
        SingleKey(p.entries, e.hash);
      } else {
        assert p.entries - {e.hash} == p.entries;
      }
    }
  }

  lemma StepSmall(l: Limits<nat>, states: seq<Guard<nat>>, events: seq<Event>, i: nat)
    requires l == LimitsOf(l.ttl, l.max) && l.max <= 1 && Run(l, states, events) && Clocked(events) && i < |events|
    requires Small(l, states[i], LastTime(events, i))
    ensures Small(l, states[i + 1], events[i].now)
  {
    RunStep(l, states, events, i);
    NextSmall(l, states[i], LastTime(events, i), events[i]);
  }

  lemma {:induction false} RunSmall(l: Limits<nat>, states: seq<Guard<nat>>, events: seq<Event>, n: nat)
    requires l == LimitsOf(l.ttl, l.max) && l.max <= 1
    requires Run(l, states, events) && Clocked(events) && states[0] == Guard(map[], []) && n <= |events|
    ensures Small(l, states[n], LastTime(events, n))
  {
    if n > 0 {
      RunSmall(l, states, events, n - 1);
      StepSmall(l, states, events, n - 1);
    }
  }

  /** With room for one hash at most, no run drops a hash and keeps one marked before it. */
  lemma SmallDropsOldest(l: Limits<nat>, states: seq<Guard<nat>>, events: seq<Event>, n: nat, now: nat, h: string, a: string)
    requires l == LimitsOf(l.ttl, l.max) && l.max <= 1
    requires Run(l, states, events) && Clocked(events) && states[0] == Guard(map[], []) && n <= |events|
    requires h in states[n].entries && a in states[n].entries && states[n].entries[a] < states[n].entries[h]
    ensures a in Prune(l, states[n], now).entries ==> h in Prune(l, states[n], now).entries
  {
    RunSmall(l, states, events, n);
    SteadyDropsOldest(l, states[n], LastTime(events, n), now, h, a);
  }

  lemma SteadyDropsOldest(l: Limits<nat>, g: Guard<nat>, last: nat, now: nat, h: string, a: string)
    requires Steady(l, g, last) && h in g.entries && a in g.entries && g.entries[a] < g.entries[h]
    ensures a in Prune(l, g, now).entries ==> h in Prune(l, g, now).entries
  {
    assert h in Keys(g.order) && a in Keys(g.order);
    var i :| 0 <= i < |g.order| && g.order[i] == h;
    var j :| 0 <= j < |g.order| && g.order[j] == a;
    assert j < i;
    PruneExact(l, g, now, i);
    PruneExact(l, g, now, j);
  }

  /** A run from the empty table. */
  datatype Trace = Trace(states: seq<Guard<nat>>, events: seq<Event>)

  /** The run follows the clock and leads to the table `g` at the time `now`. */
  ghost predicate Leads(l: Limits<nat>, t: Trace, g: Guard<nat>, now: nat) {
    && Run(l, t.states, t.events) && Clocked(t.events)
    && t.states[0] == Guard(map[], []) && t.states[|t.events|] == g && LastTime(t.events, |t.events|) <= now
  }

  lemma Extend(l: Limits<nat>, t: Trace, g: Guard<nat>, last: nat, e: Event) returns (t': Trace)
    requires Leads(l, t, g, last) && last <= e.now
    ensures Leads(l, t', Next(l, g, e), e.now)
  {
    t' := Trace(t.states + [Next(l, g, e)], t.events + [e]);
    RunSnoc(l, t.states, t.events, e, Next(l, g, e));
    ClockedSnoc(t.events, e);
  }

  lemma RunSnoc(l: Limits<nat>, states: seq<Guard<nat>>, events: seq<Event>, e: Event, g: Guard<nat>)
    requires Run(l, states, events) && g == Next(l, states[|events|], e)
    ensures Run(l, states + [g], events + [e])
  {
    var states', events' := states + [g], events + [e];
    forall i | 0 <= i < |events'| ensures StepsAt(l, states', events', i) {
      if i < |events| { assert StepsAt(l, states, events, i); }
    }
  }

  lemma ClockedSnoc(events: seq<Event>, e: Event)
    requires Clocked(events) && LastTime(events, |events|) <= e.now
    ensures Clocked(events + [e]) && LastTime(events + [e], |events| + 1) == e.now
  {
  }

  /** A mark that prunes nothing. */
  lemma LeadMark(l: Limits<nat>, t: Trace, g: Guard<nat>, last: nat, h: string, now: nat) returns (t': Trace, g': Guard<nat>)
    requires Leads(l, t, g, last) && last <= now && h !in g.entries && |g.entries| <= l.max
    requires g.order == [] || (g.order[0] in g.entries && !l.Expired(g.entries[g.order[0]], now))
    ensures g' == Guard(g.entries[h := now], g.order + [h])
    ensures Leads(l, t', g', now) && |g'.entries| == |g.entries| + 1
  {
    g' := Guard(g.entries[h := now], g.order + [h]);
    assert g' == Next(l, g, TryMark(h, now));
    t' := Extend(l, t, g, last, TryMark(h, now));
  }

  /** A mark that makes room by dropping the front. */
  lemma LeadMarkOver(l: Limits<nat>, t: Trace, g: Guard<nat>, last: nat, h: string, now: nat) returns (t': Trace, g': Guard<nat>)
    requires Leads(l, t, g, last) && last <= now && g.order != [] && g.order[0] in g.entries && h !in g.entries
    requires !l.Expired(g.entries[g.order[0]], now) && |g.entries| == l.max + 1
    ensures g' == Guard(Pop(g).entries[h := now], Pop(g).order + [h])
    ensures Leads(l, t', g', now) && |g'.entries| == l.max + 1
  {
    FrontPruned(l, g, now);
    g' := Guard(Pop(g).entries[h := now], Pop(g).order + [h]);
    assert g' == Next(l, g, TryMark(h, now));
    t' := Extend(l, t, g, last, TryMark(h, now));
  }

  lemma LeadUnmark(l: Limits<nat>, t: Trace, g: Guard<nat>, last: nat, h: string, now: nat) returns (t': Trace, g': Guard<nat>)
    requires Leads(l, t, g, last) && last <= now && |g.entries| <= l.max && h in g.entries
    requires g.order != [] && g.order[0] in g.entries && !l.Expired(g.entries[g.order[0]], now)
    ensures g' == Guard(g.entries - {h}, g.order)
    ensures Leads(l, t', g', now) && |g'.entries| == |g.entries| - 1
  {
    g' := Guard(g.entries - {h}, g.order);
    assert g'.entries.Keys == g.entries.Keys - {h};
    assert g' == Next(l, g, Unmark(h, now));
    t' := Extend(l, t, g, last, Unmark(h, now));
  }

  lemma FrontPruned(l: Limits<nat>, g: Guard<nat>, now: nat)
    requires g.order != [] && g.order[0] in g.entries && !l.Expired(g.entries[g.order[0]], now)
    requires |g.entries| == l.max + 1
    ensures Prune(l, g, now) == Pop(g) && |Pop(g).entries| == l.max
  {
    assert Pop(g).entries.Keys == g.entries.Keys - {g.order[0]};
    assert |Pop(g).entries| == |Pop(g).entries.Keys| == l.max;
    assert DropExpired(l, g, now) == g;
    assert DropOver(l, Pop(g)) == Pop(g);
  }

  /** A hash that is unmarked and marked again keeps its old place in the queue: at any
      capacity of two or more, and with any lifetime longer than this run, there is a
      run after which `h`, marked after `a`, is dropped for lack of room while `a` stays. */
  lemma RemarkedDroppedFirst(ttl: nat, max: nat, x: string, h: string, a: string, b: string, fill: seq<string>)
    returns (states: seq<Guard<nat>>, events: seq<Event>)
    requires max >= 2 && ttl >= 6 && |fill| == max - 2 && NoDup(fill + [x, h, a, b])
    ensures Run(LimitsOf(ttl, max), states, events) && Clocked(events) && states[0] == Guard(map[], [])
    ensures LastTime(events, |events|) <= 6
    ensures var g := states[|events|];
            && a in g.entries && h in g.entries && g.entries[a] < g.entries[h]
            && h !in Prune(LimitsOf(ttl, max), g, 6).entries && a in Prune(LimitsOf(ttl, max), g, 6).entries
  {
    var l, n := LimitsOf(ttl, max), |fill|;
    AllDiffer(x, h, a, b, fill);
    var t4, g4 := RemarkedQueue(l, x, h, a);
    var t5, g5 := FillQueue(l, t4, g4, fill, n);
    assert fill[..n] == fill;
    assert b !in g5.entries;
    var t, g := LeadMarkOver(l, t5, g5, 4, b, 5);
    FrontPruned(l, g, 6);
    states, events := t.states, t.events;
  }

  lemma AllDiffer(x: string, h: string, a: string, b: string, fill: seq<string>)
    requires NoDup(fill + [x, h, a, b])
    ensures NoDup(fill) && x != h && x != a && x != b && h != a && h != b && a != b
    ensures forall i | 0 <= i < |fill| :: fill[i] != x && fill[i] != h && fill[i] != a && fill[i] != b
  {
    var n, all := |fill|, fill + [x, h, a, b];
    assert all[n] == x && all[n + 1] == h && all[n + 2] == a && all[n + 3] == b;
    assert forall i | 0 <= i < n :: all[i] == fill[i];
  }

  /** Further hashes, marked while there is room. */
  lemma {:induction false} FillQueue(l: Limits<nat>, t: Trace, g: Guard<nat>, fill: seq<string>, n: nat)
    returns (t': Trace, g': Guard<nat>)
    requires Leads(l, t, g, 4) && NoDup(fill) && n <= |fill| && |g.entries| + n <= l.max + 1
    requires g.order != [] && g.order[0] in g.entries && !l.Expired(g.entries[g.order[0]], 4)
    requires forall i | 0 <= i < |fill| :: fill[i] !in g.entries
    ensures Leads(l, t', g', 4) && |g'.entries| == |g.entries| + n && g'.order == g.order + fill[..n]
    ensures forall k | k in g'.entries :: k in g.entries || k in fill[..n]
    ensures forall k | k in g.entries :: k in g'.entries && g'.entries[k] == g.entries[k]
  {
    if n == 0 {
      t', g' := t, g;
    } else {
      var before, mid := FillQueue(l, t, g, fill, n - 1);
      assert fill[n - 1] !in mid.entries;
      t', g' := LeadMark(l, before, mid, 4, fill[n - 1], 4);
      assert fill[..n] == fill[..n - 1] + [fill[n - 1]];
    }
  }

  /** Marked `x`, `h`, unmarked `h`, marked `a`, marked `h` again. */
  lemma RemarkedQueue(l: Limits<nat>, x: string, h: string, a: string) returns (t: Trace, g: Guard<nat>)
    requires x != h && x != a && h != a && l == LimitsOf(l.ttl, l.max) && l.ttl >= 6 && l.max >= 2
    ensures Leads(l, t, g, 4) && |g.entries| == 3
    ensures |g.order| == 4 && g.order[0] == x && g.order[1] == h
    ensures x in g.entries && h in g.entries && a in g.entries && g.entries.Keys == {x, h, a}
    ensures g.entries[x] == 0 && g.entries[a] == 3 && g.entries[h] == 4
  {
    var t3, g3 := UnmarkedQueue(l, x, h);
    var t4, g4 := LeadMark(l, t3, g3, 2, a, 3);
    t, g := LeadMark(l, t4, g4, 3, h, 4);
  }

  lemma UnmarkedQueue(l: Limits<nat>, x: string, h: string) returns (t: Trace, g: Guard<nat>)
    requires x != h && l == LimitsOf(l.ttl, l.max) && l.ttl >= 6 && l.max >= 2
    ensures Leads(l, t, g, 2) && g.entries == map[x := 0]
    ensures |g.order| == 2 && g.order[0] == x && g.order[1] == h
  {
    var g0 := Guard(map[], []);
    var t1, g1 := LeadMark(l, Trace([g0], []), g0, 0, x, 0);
    var t2, g2 := LeadMark(l, t1, g1, 0, h, 1);
    t, g := LeadUnmark(l, t2, g2, 1, h, 2);
  }

  /** A hash can be marked if and only if it is not marked, or no unexpired hash stands at or
      before its first queue item, or what is left from there on does not fit. */
  lemma MarksExact(l: Limits<nat>, g: Guard<nat>, h: string, now: nat, i: nat)
    requires Covered(g) && (h in g.entries ==> FirstAt(g, h, i))
    ensures Marks(l, g, TryMark(h, now)) <==>
            (h in g.entries ==>
               || (forall j | 0 <= j <= i && g.order[j] in g.entries :: now > l.ts(g.entries[g.order[j]]) + l.ttl)
               || Left(g, i) > l.max)
    ensures var after := Next(l, g, TryMark(h, now));
            Marks(l, g, TryMark(h, now)) ==> h in after.entries && after.entries[h] == now
  {
    PruneDrops(l, g, now, h);
    if h in g.entries { SurvivesExact(l, g, now, h, i); }
  }

  class BlockSubmitGuard {
    const ttl: nat
    const maxEntries: nat
    var entries: map<string, nat>
    var order: seq<string>

    constructor (ttl: nat, maxEntries: nat)
      ensures this.ttl == ttl && this.maxEntries == maxEntries && View() == Guard(map[], [])
    {
      this.ttl := ttl;
      this.maxEntries := maxEntries;
      entries := map[];
      order := [];
    }

    function View(): Guard<nat>
      reads this
    {
      Guard(entries, order)
    }

    function L(): Limits<nat> {
      LimitsOf(ttl, maxEntries)
    }

    method PruneNow(now: nat)
      modifies this
      ensures View() == Prune(L(), old(View()), now)
    {
      while order != []
        invariant DropExpired(L(), View(), now) == DropExpired(L(), old(View()), now)
        decreases |order|
      {
        var front := order[0];
        var remove := if front in entries then now > entries[front] + ttl else true;
        if !remove { break; }
        order := order[1..];
        entries := entries - {front};
      }
      ghost var mid := View();
      assert mid == DropExpired(L(), old(View()), now);
      while |entries| > maxEntries && order != []
        invariant DropOver(L(), View()) == DropOver(L(), mid)
        decreases |order|
      {
        var front := order[0];
        order := order[1..];
        entries := entries - {front};
      }
    }

    method TryMark(hash: string, now: nat) returns (marked: bool)
      modifies this
      ensures View() == Next(L(), old(View()), Event.TryMark(hash, now))
      ensures marked == Marks(L(), old(View()), Event.TryMark(hash, now))
    {
      PruneNow(now);
      if hash in entries { return false; }
      entries := entries[hash := now];
      order := order + [hash];
      return true;
    }

    method Remove(hash: string, now: nat)
      modifies this
      ensures View() == Next(L(), old(View()), Event.Unmark(hash, now))
    {
      PruneNow(now);
      entries := entries - {hash};
    }
  }
}
