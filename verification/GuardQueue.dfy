/** The age- and size-bounded key table that both submit guards keep: entries with a
    timestamp, and the order in which keys were inserted. */
module GuardQueue {
  datatype Guard<E> = Guard(entries: map<string, E>, order: seq<string>)

  /** How long entries live, how many there may be, and which timestamp an entry carries. */
  datatype Limits<!E> = Limits(ttl: nat, max: nat, ts: E -> nat)
  {
    predicate Expired(e: E, now: nat) {
      now > ts(e) + ttl
    }
  }

  function Pop<E>(g: Guard<E>): Guard<E>
    requires g.order != []
  {
    Guard(g.entries - {g.order[0]}, g.order[1..])
  }

  predicate FrontGoes<E>(l: Limits<E>, g: Guard<E>, now: nat)
    requires g.order != []
  {
    g.order[0] in g.entries ==> l.Expired(g.entries[g.order[0]], now)
  }

  /** First loop of `prune`: drop from the front while the front is stale or expired. */
  function DropExpired<E>(l: Limits<E>, g: Guard<E>, now: nat): Guard<E>
    decreases |g.order|
  {
    if g.order != [] && FrontGoes(l, g, now) then DropExpired(l, Pop(g), now) else g
  }

  function PopWhile<E>(goes: Guard<E> -> bool, g: Guard<E>): Guard<E>
    decreases |g.order|
  {
    if g.order != [] && goes(g) then PopWhile(goes, Pop(g)) else g
  }

  function Over<E>(l: Limits<E>): Guard<E> -> bool {
    (g: Guard<E>) => |g.entries| > l.max
  }

  /** Second loop of `prune`: drop from the front while there are too many entries. */
  function DropOver<E>(l: Limits<E>, g: Guard<E>): Guard<E> {
    PopWhile(Over(l), g)
  }

  function Prune<E>(l: Limits<E>, g: Guard<E>, now: nat): Guard<E> {
    DropOver(l, DropExpired(l, g, now))
  }

  // ---- The shape of pruning, for any guard ----

  function Keys(order: seq<string>): set<string> {
    set k | k in order
  }

  function Popped<E>(g: Guard<E>, n: nat): Guard<E>
    requires n <= |g.order|
  {
    Guard(g.entries - Keys(g.order[..n]), g.order[n..])
  }

  lemma PoppedOnce<E>(g: Guard<E>, n: nat)
    requires g.order != [] && n < |g.order|
    ensures Popped(Pop(g), n) == Popped(g, n + 1)
  {
    assert g.order[..n + 1] == [g.order[0]] + g.order[1..][..n];
    assert Keys(g.order[..n + 1]) == {g.order[0]} + Keys(g.order[1..][..n]);
  }

  lemma PoppedNone<E>(g: Guard<E>)
    ensures Popped(g, 0) == g
  {
    assert Keys(g.order[..0]) == {};
  }

  /** The age loop pops the longest front stretch whose live keys are all expired. */
  lemma {:induction false} DropExpiredShape<E>(l: Limits<E>, g: Guard<E>, now: nat) returns (n: nat)
    ensures n <= |g.order| && DropExpired(l, g, now) == Popped(g, n)
    ensures forall i | 0 <= i < n :: g.order[i] in g.entries ==> l.Expired(g.entries[g.order[i]], now)
    ensures n < |g.order| ==> g.order[n] in g.entries && !l.Expired(g.entries[g.order[n]], now)
    decreases |g.order|
  {
    if g.order != [] && FrontGoes(l, g, now) {
      var m := DropExpiredShape(l, Pop(g), now);
      PoppedOnce(g, m) by { assert m <= |g.order| - 1; }
      n := m + 1;
      forall i | 0 <= i < n ensures g.order[i] in g.entries ==> l.Expired(g.entries[g.order[i]], now) {
        if i > 0 { assert g.order[i] == Pop(g).order[i - 1]; }
      }
      if n < |g.order| { assert g.order[n] == Pop(g).order[m]; }
    } else {
      PoppedNone(g);
      n := 0;
    }
  }

  // ---- What a prune may drop ----

  predicate Covered<E>(g: Guard<E>) {
    forall k | k in g.entries :: k in g.order
  }

  /** The age loop drops live keys only when they are expired, whatever the order looks like. */
  lemma {:induction false} DropExpiredDrops<E>(l: Limits<E>, g: Guard<E>, now: nat, k: string)
    ensures var h := DropExpired(l, g, now);
            && (Covered(g) ==> Covered(h))
            && (k in h.entries ==> k in g.entries && h.entries[k] == g.entries[k])
            && (k in g.entries && k !in h.entries ==> l.Expired(g.entries[k], now))
    decreases |g.order|
  {
    if g.order != [] && FrontGoes(l, g, now) {
      PopCovered(g);
      DropExpiredDrops(l, Pop(g), now, k);
    }
  }

  lemma PopCovered<E>(g: Guard<E>)
    requires g.order != []
    ensures Covered(g) ==> Covered(Pop(g))
  {
    assert g.order == [g.order[0]] + g.order[1..];
  }

  /** The size loop always reaches the capacity: it cannot run out of queue first. */
  lemma {:induction false} DropOverDrops<E>(l: Limits<E>, g: Guard<E>, k: string)
    requires Covered(g)
    ensures var h := DropOver(l, g);
            && Covered(h) && |h.entries| <= l.max
            && (k in h.entries ==> k in g.entries && h.entries[k] == g.entries[k])
            && (|g.entries| <= l.max ==> h == g)
    decreases |g.order|
  {
    if |g.entries| > l.max {
      assert g.order == [] ==> g.entries == map[];
      PopCovered(g);
      DropOverDrops(l, Pop(g), k);
    }
  }

  /** Pruning drops a key only because it is expired or because the table is over
      capacity, keeps every other entry unchanged, and ends within capacity. */
  lemma PruneDrops<E>(l: Limits<E>, g: Guard<E>, now: nat, k: string)
    requires Covered(g)
    ensures Covered(Prune(l, g, now)) && |Prune(l, g, now).entries| <= l.max
    ensures k in Prune(l, g, now).entries ==> k in g.entries && Prune(l, g, now).entries[k] == g.entries[k]
    ensures k in g.entries && k !in Prune(l, g, now).entries ==>
              l.Expired(g.entries[k], now) || |DropExpired(l, g, now).entries| > l.max
  {
    DropExpiredDrops(l, g, now, k);
    DropOverDrops(l, DropExpired(l, g, now), k);
  }

  // ---- Which key survives, for any covering order ----

  function Pops<E>(g: Guard<E>, n: nat): (h: Guard<E>)
    requires n <= |g.order|
    ensures |h.order| == |g.order| - n
    decreases n
  {
    if n == 0 then g else Pops(Pop(g), n - 1)
  }

  lemma {:induction false} PopsAdd<E>(g: Guard<E>, n: nat, m: nat)
    requires n + m <= |g.order|
    ensures Pops(Pops(g, n), m) == Pops(g, n + m)
    decreases n
  {
    if n > 0 { PopsAdd(Pop(g), n - 1, m); }
  }

  lemma {:induction false} PopsPopped<E>(g: Guard<E>, n: nat)
    requires n <= |g.order|
    ensures Pops(g, n) == Popped(g, n)
    decreases n
  {
    if n == 0 {
      PoppedNone(g);
    } else {
      PopsPopped(Pop(g), n - 1);
      PoppedOnce(g, n - 1);
    }
  }

  /** How many entries are left after `n` pops. */
  function Left<E>(g: Guard<E>, n: nat): nat
    requires n <= |g.order|
  {
    |Pops(g, n).entries|
  }

  /** The size loop finds too many entries before each of the pops `a` to `b`. */
  predicate OverFrom<E>(l: Limits<E>, g: Guard<E>, a: nat, b: nat)
    requires b <= |g.order|
  {
    forall j | a <= j < b :: Left(g, j) > l.max
  }

  /** How many items such a loop pops. */
  function PopCount<E>(goes: Guard<E> -> bool, g: Guard<E>): (n: nat)
    ensures n <= |g.order|
    decreases |g.order|
  {
    if g.order != [] && goes(g) then PopCount(goes, Pop(g)) + 1 else 0
  }

  lemma {:induction false} PopWhilePops<E>(goes: Guard<E> -> bool, g: Guard<E>)
    ensures PopWhile(goes, g) == Pops(g, PopCount(goes, g))
    decreases |g.order|
  {
    if g.order != [] && goes(g) { PopWhilePops(goes, Pop(g)); }
  }

  lemma {:induction false} GoesBefore<E>(goes: Guard<E> -> bool, g: Guard<E>, j: nat)
    requires j < PopCount(goes, g)
    ensures goes(Pops(g, j))
    decreases j
  {
    if j > 0 { GoesBefore(goes, Pop(g), j - 1); }
  }

  /** The same for a loop that starts after `n` pops. */
  lemma PopWhileFrom<E>(goes: Guard<E> -> bool, g: Guard<E>, n: nat) returns (m: nat)
    requires n <= |g.order|
    ensures n <= m <= |g.order| && PopWhile(goes, Pops(g, n)) == Pops(g, m)
    ensures forall j | n <= j < m :: goes(Pops(g, j))
  {
    var d := PopCount(goes, Pops(g, n));
    m := n + d;
    PopWhilePops(goes, Pops(g, n));
    PopsAdd(g, n, d);
    forall j | n <= j < m ensures goes(Pops(g, j)) {
      GoesBefore(goes, Pops(g, n), j - n);
      PopsAdd(g, n, j - n);
    }
  }

  lemma DropOverFits<E>(l: Limits<E>, g: Guard<E>)
    requires Covered(g)
    ensures |DropOver(l, g).entries| <= l.max
  {
    DropOverDrops(l, g, "");
  }

  /** `i` is the first queue item of `k`. */
  predicate FirstAt<E>(g: Guard<E>, k: string, i: nat) {
    i < |g.order| && g.order[i] == k && k !in g.order[..i]
  }

  lemma PoppedKeeps<E>(g: Guard<E>, k: string, i: nat, m: nat)
    requires FirstAt(g, k, i) && k in g.entries && m <= |g.order|
    ensures k in Popped(g, m).entries <==> i >= m
  {
    if i < m {
      assert g.order[..m][i] == k;
    } else {
      assert g.order[..i][..m] == g.order[..m];
    }
  }

  lemma {:induction false} SubsetSize(a: set<string>, b: set<string>)
    requires a <= b
    ensures |a| <= |b|
  {
    if x :| x in a { SubsetSize(a - {x}, b - {x}); }
  }

  lemma LeftShrinks<E>(g: Guard<E>, m: nat, i: nat)
    requires m <= i <= |g.order|
    ensures Left(g, i) <= Left(g, m)
  {
    PopsPopped(g, i);
    PopsPopped(g, m);
    assert g.order[..i][..m] == g.order[..m];
    SubsetSize(Popped(g, i).entries.Keys, Popped(g, m).entries.Keys);
  }

  lemma {:induction false} PopsCovered<E>(g: Guard<E>, n: nat)
    requires Covered(g) && n <= |g.order|
    ensures Covered(Pops(g, n))
    decreases n
  {
    if n > 0 {
      PopCovered(g);
      PopsCovered(Pop(g), n - 1);
    }
  }

  /** The size loop pops until what is left fits, and not further. */
  lemma SizeShape<E>(l: Limits<E>, g: Guard<E>, n: nat) returns (m: nat)
    requires n <= |g.order| && Covered(Pops(g, n))
    ensures n <= m <= |g.order| && DropOver(l, Pops(g, n)) == Pops(g, m)
    ensures Left(g, m) <= l.max && OverFrom(l, g, n, m)
  {
    m := PopWhileFrom(Over(l), g, n);
    DropOverFits(l, Pops(g, n));
    forall j | n <= j < m ensures Left(g, j) > l.max { assert Over(l)(Pops(g, j)); }
  }

  /** After the age loop has popped `n` items, the size loop goes on to `m`. */
  lemma PruneShape<E>(l: Limits<E>, g: Guard<E>, now: nat) returns (n: nat, m: nat)
    requires Covered(g)
    ensures n <= m <= |g.order| && Prune(l, g, now) == Pops(g, m)
    ensures forall i | 0 <= i < n :: g.order[i] in g.entries ==> l.Expired(g.entries[g.order[i]], now)
    ensures n < |g.order| ==> g.order[n] in g.entries && !l.Expired(g.entries[g.order[n]], now)
    ensures Left(g, m) <= l.max && OverFrom(l, g, n, m)
  {
    n := DropExpiredShape(l, g, now);
    PopsPopped(g, n);
    PopsCovered(g, n);
    m := SizeShape(l, g, n);
  }

  /** For any covering queue, stale items included: a key survives a prune if and only if
      some queue item up to its first one is of a live unexpired key, and what is left
      from its first item on fits. */
  lemma SurvivesExact<E>(l: Limits<E>, g: Guard<E>, now: nat, k: string, i: nat)
    requires Covered(g) && k in g.entries && FirstAt(g, k, i)
    ensures k in Prune(l, g, now).entries <==>
            && (exists j | 0 <= j <= i :: g.order[j] in g.entries && now <= l.ts(g.entries[g.order[j]]) + l.ttl)
            && Left(g, i) <= l.max
  {
    var n, m := PruneShape(l, g, now);
    PopsPopped(g, m);
    PoppedKeeps(g, k, i, m);
    if i >= m { LeftShrinks(g, m, i); }
    if i >= n { assert g.order[n] in g.entries && !l.Expired(g.entries[g.order[n]], now); }
  }

  // ---- Guards whose order lists exactly their keys ----

  predicate NoDup(s: seq<string>) {
    forall i, j | 0 <= i < j < |s| :: s[i] != s[j]
  }

  predicate Listed<E>(g: Guard<E>) {
    NoDup(g.order) && Keys(g.order) == g.entries.Keys
  }

  lemma {:induction false} NoDupSize(s: seq<string>)
    requires NoDup(s)
    ensures |Keys(s)| == |s|
  {
    if s != [] {
      var n := |s| - 1;
      NoDupSize(s[..n]);
      assert Keys(s) == Keys(s[..n]) + {s[n]};
    }
  }

  lemma ListedSize<E>(g: Guard<E>)
    requires Listed(g)
    ensures |g.entries| == |g.order| && Covered(g)
  {
    NoDupSize(g.order);
    assert |g.entries| == |g.entries.Keys|;
  }

  lemma PoppedListed<E>(g: Guard<E>, n: nat)
    requires Listed(g) && n <= |g.order|
    ensures Listed(Popped(g, n)) && |Popped(g, n).entries| == |g.order| - n
  {
    var h := Popped(g, n);
    forall k ensures k in h.order <==> k in g.order && k !in g.order[..n] { SuffixKeys(g.order, n, k); }
    assert Keys(h.order) == h.entries.Keys;
    ListedSize(h);
  }

  lemma SuffixKeys(s: seq<string>, n: nat, k: string)
    requires NoDup(s) && n <= |s|
    ensures k in s[n..] <==> k in s && k !in s[..n]
  {
    assert s == s[..n] + s[n..];
  }

  /** `prune` keeps a suffix: what follows the longest expired front stretch, cut
      down to the newest `max` keys. */
  lemma PruneKeepsSuffix<E>(l: Limits<E>, g: Guard<E>, now: nat) returns (n: nat, m: nat)
    requires Listed(g)
    ensures n <= m <= |g.order| && Prune(l, g, now) == Popped(g, m)
    ensures forall i | 0 <= i < n :: g.order[i] in g.entries && l.Expired(g.entries[g.order[i]], now)
    ensures n < |g.order| ==> g.order[n] in g.entries && !l.Expired(g.entries[g.order[n]], now)
    ensures m == if |g.order| - n > l.max then |g.order| - l.max else n
  {
    n := DropExpiredShape(l, g, now);
    forall i | 0 <= i < n ensures g.order[i] in g.entries { assert g.order[i] in Keys(g.order); }
    m := SuffixStep(l, g, n);
  }

  lemma LeftListed<E>(g: Guard<E>, n: nat)
    requires Listed(g) && n <= |g.order|
    ensures Left(g, n) == |g.order| - n
  {
    PopsPopped(g, n);
    PoppedListed(g, n);
  }

  lemma SuffixStep<E>(l: Limits<E>, g: Guard<E>, n: nat) returns (m: nat)
    requires Listed(g) && n <= |g.order|
    ensures m == if |g.order| - n > l.max then |g.order| - l.max else n
    ensures DropOver(l, Popped(g, n)) == Popped(g, m)
  {
    ListedSize(g);
    PopsCovered(g, n);
    m := SizeShape(l, g, n);
    PopsPopped(g, n);
    PopsPopped(g, m);
    LeftListed(g, m);
    if m > n {
      LeftListed(g, m - 1);
      assert Left(g, m - 1) > l.max;
    }
  }

  lemma PruneListed<E>(l: Limits<E>, g: Guard<E>, now: nat)
    requires Listed(g)
    ensures Listed(Prune(l, g, now)) && |Prune(l, g, now).order| <= l.max
  {
    var n, m := PruneKeepsSuffix(l, g, now);
    PoppedListed(g, m);
  }

  lemma AppendListed<E>(g: Guard<E>, k: string, e: E)
    requires Listed(g) && k !in g.entries
    ensures Listed(Guard(g.entries[k := e], g.order + [k]))
  {
    assert k !in Keys(g.order);
    assert Keys(g.order + [k]) == Keys(g.order) + {k};
  }

  /** Timestamps follow the order. */
  ghost predicate InOrder<E>(l: Limits<E>, g: Guard<E>) {
    forall i, j | 0 <= i < j < |g.order| && g.order[i] in g.entries && g.order[j] in g.entries ::
      l.ts(g.entries[g.order[i]]) <= l.ts(g.entries[g.order[j]])
  }

  lemma PoppedInOrder<E>(l: Limits<E>, g: Guard<E>, m: nat)
    requires InOrder(l, g) && m <= |g.order|
    ensures InOrder(l, Popped(g, m))
  {
    var h := Popped(g, m);
    forall a, b | 0 <= a < b < |h.order| && h.order[a] in h.entries && h.order[b] in h.entries
      ensures l.ts(h.entries[h.order[a]]) <= l.ts(h.entries[h.order[b]])
    {
      assert h.order[a] == g.order[m + a] && h.order[b] == g.order[m + b];
    }
  }

  /** When timestamps follow the order, pruning keeps exactly the unexpired entries,
      and of those the newest `max`. */
  lemma PruneExact<E>(l: Limits<E>, g: Guard<E>, now: nat, i: nat)
    requires Listed(g) && InOrder(l, g) && i < |g.order|
    ensures g.order[i] in g.entries
    ensures g.order[i] in Prune(l, g, now).entries <==>
            now <= l.ts(g.entries[g.order[i]]) + l.ttl && i >= |g.order| - l.max
  {
    var n, m := PruneKeepsSuffix(l, g, now);
    assert g.order[i] in Keys(g.order);
    assert g.order[i] in g.order[..m] <==> i < m by {
      if i < m { assert g.order[..m][i] == g.order[i]; }
    }
    if n < |g.order| && n < i { assert l.ts(g.entries[g.order[n]]) <= l.ts(g.entries[g.order[i]]); }
  }

  lemma AppendInOrder<E>(l: Limits<E>, g: Guard<E>, k: string, e: E)
    requires Listed(g) && InOrder(l, g) && k !in g.entries
    requires forall j | j in g.entries :: l.ts(g.entries[j]) <= l.ts(e)
    ensures InOrder(l, Guard(g.entries[k := e], g.order + [k]))
  {
    var h := Guard(g.entries[k := e], g.order + [k]);
    assert k !in Keys(g.order);
    forall a, b | 0 <= a < b < |h.order| && h.order[a] in h.entries && h.order[b] in h.entries
      ensures l.ts(h.entries[h.order[a]]) <= l.ts(h.entries[h.order[b]])
    {
      assert h.order[a] == g.order[a] && h.order[a] in Keys(g.order);
      if b < |g.order| { assert h.order[b] == g.order[b] && h.order[b] in Keys(g.order); }
    }
  }
}
