/** The guard that answers repeated share submissions from memory. */
module DuplicateSubmitGuard {
  import opened Bytes
  import opened GuardQueue

  datatype Outcome = InFlight | Accepted | Stale | LowDiff | Bad

  datatype Entry = Entry(ts: nat, outcome: Outcome)

  datatype Event =
    | Get(key: string, now: nat)
    | InsertInFlight(key: string, now: nat)
    | SetOutcome(key: string, now: nat, outcome: Outcome)

  function LimitsOf(ttl: nat, max: nat): Limits<Entry> {
    Limits(ttl, max, (e: Entry) => e.ts)
  }

  function Next(l: Limits<Entry>, g: Guard<Entry>, e: Event): Guard<Entry> {
    var p := Prune(l, g, e.now);
    match e
    case Get(_, _) => p
    case InsertInFlight(k, now) =>
      if k in p.entries then p else Guard(p.entries[k := Entry(now, InFlight)], p.order + [k])
    case SetOutcome(k, now, o) =>
      if k in p.entries then Guard(p.entries[k := Entry(now, o)], p.order) else p
  }

  /** The run takes step `i`. */
  ghost predicate StepsAt(l: Limits<Entry>, states: seq<Guard<Entry>>, events: seq<Event>, i: nat)
    requires |states| == |events| + 1 && i < |events|
  {
    states[i + 1] == Next(l, states[i], events[i])
  }

  ghost predicate Run(l: Limits<Entry>, states: seq<Guard<Entry>>, events: seq<Event>) {
    && |states| == |events| + 1
    && forall i | 0 <= i < |events| :: StepsAt(l, states, events, i)
  }

  lemma RunStep(l: Limits<Entry>, states: seq<Guard<Entry>>, events: seq<Event>, i: nat)
    requires Run(l, states, events) && i < |events|
    ensures states[i + 1] == Next(l, states[i], events[i])
  {
    assert StepsAt(l, states, events, i);
  }

  lemma NextListed(l: Limits<Entry>, g: Guard<Entry>, e: Event)
    requires Listed(g)
    ensures Listed(Next(l, g, e)) && |Next(l, g, e).entries| <= l.max + 1
  {
    PruneListed(l, g, e.now);
    var p := Prune(l, g, e.now);
    ListedSize(p);
    if e.InsertInFlight? && e.key !in p.entries {
      AppendListed(p, e.key, Entry(e.now, InFlight));
    } else if e.SetOutcome? && e.key in p.entries {
      assert Next(l, g, e).entries.Keys == p.entries.Keys;
    }
  }

  /** Every entry after a call was there before it, or is what the call put there. */
  lemma NextEntries(l: Limits<Entry>, g: Guard<Entry>, e: Event, k: string)
    requires Listed(g) && k in Next(l, g, e).entries
    ensures var entry := Next(l, g, e).entries[k];
            || (k in g.entries && g.entries[k] == entry)
            || (e.key == k && e.InsertInFlight? && entry.outcome == InFlight)
            || (e.key == k && e.SetOutcome? && entry.outcome == e.outcome)
  {
    ListedSize(g);
    PruneDrops(l, g, e.now, k);
  }

  /** Over every run `order` is a duplicate-free listing of exactly the entries, of
      which there are never more than `max + 1`. */
  lemma {:induction false} RunListed(l: Limits<Entry>, states: seq<Guard<Entry>>, events: seq<Event>, n: nat)
    requires Run(l, states, events) && Listed(states[0]) && n <= |events|
    ensures Listed(states[n]) && (n > 0 ==> |states[n].entries| <= l.max + 1)
  {
    if n > 0 {
      RunListed(l, states, events, n - 1);
      RunStep(l, states, events, n - 1);
      NextListed(l, states[n - 1], events[n - 1]);
    }
  }

  // ---- How long an outcome is remembered ----

  /** Pruning at `now` drops `k` for lack of room. */
  predicate Evicted(l: Limits<Entry>, g: Guard<Entry>, now: nat, k: string) {
    k in DropExpired(l, g, now).entries && k !in Prune(l, g, now).entries
  }

  /** A key is evicted exactly when it outlives the age loop and at least `max` keys stand behind it. */
  lemma EvictedExact(l: Limits<Entry>, g: Guard<Entry>, now: nat, i: nat)
    requires Listed(g) && i < |g.order|
    ensures Evicted(l, g, now, g.order[i]) <==>
            g.order[i] in DropExpired(l, g, now).entries && i < |g.order| - l.max
  {
    var n := DropExpiredShape(l, g, now);
    var m := SuffixStep(l, g, n);
    var k := g.order[i];
    assert k in Keys(g.order);
    assert k in g.order[..m] <==> i < m by { if i < m { assert g.order[..m][i] == k; } }
    assert k in g.order[..n] <==> i < n by { if i < n { assert g.order[..n][i] == k; } }
  }

  /** The call comes within the lifetime of `k`, does not record it anew and finds room for it. */
  predicate LeavesAlone(l: Limits<Entry>, g: Guard<Entry>, e: Event, k: string, entry: Entry) {
    && !l.Expired(entry, e.now)
    && !(e.SetOutcome? && e.key == k)
    && !Evicted(l, g, e.now, k)
  }

  lemma NextKeeps(l: Limits<Entry>, g: Guard<Entry>, e: Event, k: string, entry: Entry)
    requires k in g.entries && g.entries[k] == entry && LeavesAlone(l, g, e, k, entry) && Listed(g)
    ensures k in Next(l, g, e).entries && Next(l, g, e).entries[k] == entry
  {
    ListedSize(g);
    DropExpiredDrops(l, g, e.now, k);
    PruneDrops(l, g, e.now, k);
  }

  /** A recorded outcome is answered unchanged at every later time within its
      lifetime, through any run that neither overwrites it nor lacks room for it. */
  lemma {:induction false} OutcomeRemembered(l: Limits<Entry>, states: seq<Guard<Entry>>, events: seq<Event>, k: string, n: nat)
    requires Run(l, states, events) && Listed(states[0]) && k in states[0].entries && n <= |events|
    requires forall i | 0 <= i < n :: LeavesAlone(l, states[i], events[i], k, states[0].entries[k])
    ensures k in states[n].entries && states[n].entries[k] == states[0].entries[k]
  {
    if n > 0 {
      var m := n - 1;
      OutcomeRemembered(l, states, events, k, m);
      RunListed(l, states, events, m);
      RunStep(l, states, events, m);
      var g, e, entry := states[m], events[m], states[0].entries[k];
      assert LeavesAlone(l, g, e, k, entry);
      NextKeeps(l, g, e, k, entry);
    }
  }

  /** `SetOutcome` renews a timestamp without moving its key, so an entry can outlive
      its time: an expired key passes the age loop exactly when some key before it
      is not expired. */
  lemma OverdueKept(l: Limits<Entry>, g: Guard<Entry>, now: nat, i: nat)
    requires Listed(g) && i < |g.order|
    ensures g.order[i] in DropExpired(l, g, now).entries <==>
            exists j :: 0 <= j <= i && g.order[j] in g.entries && !l.Expired(g.entries[g.order[j]], now)
  {
    var n := DropExpiredShape(l, g, now);
    var k := g.order[i];
    assert k in Keys(g.order);
    assert k in g.order[..n] <==> i < n by { if i < n { assert g.order[..n][i] == k; } }
    if i >= n { assert g.order[n] in g.entries && !l.Expired(g.entries[g.order[n]], now); }
  }

  /** A call that finds the front unexpired and room for all prunes nothing. */
  predicate Calm(l: Limits<Entry>, g: Guard<Entry>, now: nat) {
    && |g.entries| <= l.max
    && (g.order == [] || (g.order[0] in g.entries && !l.Expired(g.entries[g.order[0]], now)))
  }

  lemma CalmGet(l: Limits<Entry>, g: Guard<Entry>, k: string, now: nat)
    requires Calm(l, g, now)
    ensures Next(l, g, Get(k, now)) == g
  {
  }

  lemma CalmInsert(l: Limits<Entry>, g: Guard<Entry>, k: string, now: nat)
    requires Calm(l, g, now) && k !in g.entries
    ensures Next(l, g, InsertInFlight(k, now)) == Guard(g.entries[k := Entry(now, InFlight)], g.order + [k])
  {
  }

  lemma CalmSet(l: Limits<Entry>, g: Guard<Entry>, k: string, now: nat, o: Outcome)
    requires Calm(l, g, now) && k in g.entries
    ensures Next(l, g, SetOutcome(k, now, o)) == Guard(g.entries[k := Entry(now, o)], g.order)
  {
  }

  lemma Extended(l: Limits<Entry>, states: seq<Guard<Entry>>, events: seq<Event>, e: Event, g: Guard<Entry>)
    returns (states': seq<Guard<Entry>>, events': seq<Event>)
    requires Run(l, states, events) && g == Next(l, states[|events|], e)
    ensures Run(l, states', events') && |events'| == |events| + 1 && states'[0] == states[0]
    ensures events'[|events|] == e && states'[|events'|] == g
  {
    states', events' := states + [g], events + [e];
    forall i | 0 <= i < |events'| ensures StepsAt(l, states', events', i) {
      if i < |events| { assert StepsAt(l, states, events, i); }
    }
  }

  /** A run, at any capacity of two or more, in which `Get` still answers an entry that is
      past its time. */
  lemma OverdueAnswered(max: nat, a: string, b: string) returns (states: seq<Guard<Entry>>, events: seq<Event>)
    requires a != b && max >= 2
    ensures Run(LimitsOf(180, max), states, events) && states[0] == Guard(map[], [])
    ensures |events| == 4 && events[3] == Get(b, 200) && b in states[4].entries
    ensures LimitsOf(180, max).Expired(states[4].entries[b], 200)
  {
    var l := LimitsOf(180, max);
    var g0 := Guard(map[], []);
    var g1 := Guard(g0.entries[a := Entry(0, InFlight)], g0.order + [a]);
    var g2 := Guard(g1.entries[b := Entry(1, InFlight)], g1.order + [b]);
    var g3 := Guard(g2.entries[a := Entry(100, Accepted)], g2.order);
    assert g2.order[0] == a && g3.order[0] == a;
    CalmInsert(l, g0, a, 0);
    CalmInsert(l, g1, b, 1);
    CalmSet(l, g2, a, 100, Accepted);
    CalmGet(l, g3, b, 200);
    states, events := Extended(l, [g0], [], InsertInFlight(a, 0), g1);
    states, events := Extended(l, states, events, InsertInFlight(b, 1), g2);
    states, events := Extended(l, states, events, SetOutcome(a, 100, Accepted), g3);
    states, events := Extended(l, states, events, Get(b, 200), g3);
  }

  class DuplicateSubmitGuard {
    const ttl: nat
    const maxEntries: nat
    var entries: map<string, Entry>
    var order: seq<string>

    constructor (ttl: nat, maxEntries: nat)
      ensures this.ttl == ttl && this.maxEntries == maxEntries && View() == Guard(map[], [])
    {
      this.ttl := ttl;
      this.maxEntries := maxEntries;
      entries := map[];
      order := [];
    }

    function View(): Guard<Entry>
      reads this
    {
      Guard(entries, order)
    }

    function L(): Limits<Entry> {
      LimitsOf(ttl, maxEntries)
    }

    method PruneNow(now: nat)
      modifies this
      ensures View() == Prune(L(), old(View()), now)
    {
      while order != []
        invariant DropExpired(L(), View(), now) == DropExpired(L(), old(View()), now)
        decreases |order|
      {
        var front := order[0];
        var remove := if front in entries then now > entries[front].ts + ttl else true;
        if !remove { break; }
        order := order[1..];
        entries := entries - {front};
      }
      ghost var mid := View();
      assert mid == DropExpired(L(), old(View()), now);
      while |entries| > maxEntries && order != []
        invariant DropOver(L(), View()) == DropOver(L(), mid)
        decreases |order|
      {
        var front := order[0];
        order := order[1..];
        entries := entries - {front};
      }
    }

    method Get(key: string, now: nat) returns (r: Option<Outcome>)
      modifies this
      ensures View() == Next(L(), old(View()), Event.Get(key, now))
      ensures r == if key in entries then Some(entries[key].outcome) else None
    {
      PruneNow(now);
      r := if key in entries then Some(entries[key].outcome) else None;
    }

    method InsertInFlight(key: string, now: nat)
      modifies this
      ensures View() == Next(L(), old(View()), Event.InsertInFlight(key, now))
    {
      PruneNow(now);
      if key in entries { return; }
      entries := entries[key := Entry(now, InFlight)];
      order := order + [key];
    }

    method SetOutcome(key: string, now: nat, outcome: Outcome)
      modifies this
      ensures View() == Next(L(), old(View()), Event.SetOutcome(key, now, outcome))
    {
      PruneNow(now);
      if key in entries { entries := entries[key := Entry(now, outcome)]; }
    }
  }
}
