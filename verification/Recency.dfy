// The least-recently-used policy of `GenerationCache`, as a transition system
// on plain sequences.  `GenerationCache.dfy` proves that the linked structure
// takes exactly these steps; this file proves what whole runs of them do.
module Recency {
  import opened Seqs
  import opened Wrappers

  datatype Pair<+K, +V> = Pair(key: K, value: V)

  // Oldest entry first.
  type Entries<K, V> = seq<Pair<K, V>>

  // The value of the source's `kUnlimitedCapacity`.
  const UNLIMITED_CAPACITY: nat := 0

  datatype Op<+K, +V> =
    | Put(key: K, value: V)
    | Get(key: K)
    | Contains(key: K)
    | Remove(key: K)
    | RemoveOldest
    | Clear

  // `ok` is the boolean of `put` and `contains`, and otherwise whether an
  // entry was found; `notified` lists the pairs handed to the listener.
  datatype Step<K, V> = Step(
    state: Entries<K, V>, ok: bool, result: Option<V>, notified: Entries<K, V>)

  /** Position of the first entry stored under `k`, or `|s|`. */
  function Find<K(==), V>(s: Entries<K, V>, k: K): (i: nat)
    ensures i <= |s|
    ensures i < |s| ==> s[i].key == k
    ensures forall j :: 0 <= j < i ==> s[j].key != k
  {
    if s == [] || s[0].key == k then 0 else 1 + Find(s[1..], k)
  }

  predicate Has<K(==), V>(s: Entries<K, V>, k: K) {
    Find(s, k) < |s|
  }

  predicate IsFull<K, V>(cap: nat, s: Entries<K, V>) {
    cap != UNLIMITED_CAPACITY && |s| >= cap
  }

  function TakeOldest<K, V>(s: Entries<K, V>): Step<K, V> {
    if s == [] then Step(s, false, None, []) else Step(s[1..], true, Some(s[0].value), [s[0]])
  }

  /** `put` drops the oldest entry of a full cache before it looks at the key. */
  function PutStep<K(==), V>(cap: nat, s: Entries<K, V>, k: K, v: V): Step<K, V> {
    var e := if IsFull(cap, s) then TakeOldest(s) else Step(s, false, None, []);
    if Has(e.state, k)
    then Step(e.state, false, None, e.notified)
    else Step(e.state + [Pair(k, v)], true, None, e.notified)
  }

  function Next<K(==), V>(cap: nat, s: Entries<K, V>, op: Op<K, V>): Step<K, V> {
    match op
    case Put(k, v) => PutStep(cap, s, k, v)
    case Get(k) =>
      var i := Find(s, k);
      if i < |s| then Step(Drop(s, i) + [s[i]], true, Some(s[i].value), []) else Step(s, false, None, [])
    case Contains(k) => Step(s, Has(s, k), None, [])
    case Remove(k) =>
      var i := Find(s, k);
      if i < |s| then Step(Drop(s, i), true, Some(s[i].value), [s[i]]) else Step(s, false, None, [])
    case RemoveOldest => TakeOldest(s)
    case Clear => Step([], true, None, s)
  }

  /** `get` and `remove` in terms of where the key is. */
  lemma NextAt<K, V>(cap: nat, s: Entries<K, V>, k: K)
    ensures var at := Find(s, k);
      && Next(cap, s, Get(k)) ==
           (if at < |s| then Step(Drop(s, at) + [s[at]], true, Some(s[at].value), []) else Step(s, false, None, []))
      && Next(cap, s, Remove(k)) ==
           (if at < |s| then Step(Drop(s, at), true, Some(s[at].value), [s[at]]) else Step(s, false, None, []))
  {
  }

  lemma NextPut<K, V>(cap: nat, s: Entries<K, V>, k: K, v: V)
    ensures Next(cap, s, Put(k, v)) == PutStep(cap, s, k, v)
  {
  }

  lemma FirstIsFound<K, V>(s: Entries<K, V>)
    requires s != []
    ensures Has(s, s[0].key)
  {
  }

  lemma NextElsewhere<K, V>(cap: nat, s: Entries<K, V>)
    ensures Next(cap, s, RemoveOldest) == TakeOldest(s)
    ensures s == [] ==> TakeOldest(s) == Step(s, false, None, [])
    ensures s != [] ==> Next(cap, s, Remove(s[0].key)) == TakeOldest(s)
    ensures Next(cap, s, Clear) == Step([], true, None, s)
  {
  }

  ghost predicate DistinctKeys<K, V>(s: Entries<K, V>) {
    forall i, j :: 0 <= i < j < |s| ==> s[i].key != s[j].key
  }

  ghost predicate WithinCapacity<K, V>(cap: nat, s: Entries<K, V>) {
    cap != UNLIMITED_CAPACITY ==> |s| <= cap
  }

  lemma {:induction false} FindUnique<K, V>(s: Entries<K, V>, i: nat)
    requires DistinctKeys(s) && i < |s|
    ensures Find(s, s[i].key) == i
  {
    assert Find(s, s[i].key) <= i;
  }

  // ---------------------------------------------------------------- runs

  datatype Event<K, V> = Event(op: Op<K, V>, step: Step<K, V>)

  // A run is the log of what was called and what each call did.
  type Log<K, V> = seq<Event<K, V>>

  function Final<K, V>(log: Log<K, V>): Entries<K, V> {
    if log == [] then [] else log[|log| - 1].step.state
  }

  /** The same step, but for the order in which several pairs are notified: `clear` follows
      the order of the index, which is not the order of the chain. */
  ghost predicate Agrees<K, V>(a: Step<K, V>, b: Step<K, V>) {
    a.state == b.state && a.ok == b.ok && a.result == b.result && multiset(a.notified) == multiset(b.notified)
  }

  /** A log is a run of a cache that started empty. */
  ghost predicate IsRun<K, V>(cap: nat, log: Log<K, V>) {
    log == [] ||
    (var n := |log| - 1;
     && IsRun(cap, log[..n])
     && Agrees(log[n].step, Next(cap, Final(log[..n]), log[n].op)))
  }

  lemma RunExtends<K, V>(cap: nat, log: Log<K, V>, e: Event<K, V>)
    requires IsRun(cap, log) && Agrees(e.step, Next(cap, Final(log), e.op))
    ensures IsRun(cap, log + [e]) && Final(log + [e]) == e.step.state
  {
    assert (log + [e])[..|log|] == log;
  }

  /** Insertion by `put` and a successful `get` are the only calls that make a key recent. */
  ghost predicate Touches<K, V>(e: Event<K, V>, k: K) {
    e.step.ok && (e.op.Put? || e.op.Get?) && e.op.key == k
  }

  /** When `k` was last touched: the index of the call, or -1. */
  ghost function LastTouch<K, V>(log: Log<K, V>, k: K): (t: int)
    ensures -1 <= t < |log|
    ensures t >= 0 ==> Touches(log[t], k)
    ensures forall u :: t < u < |log| ==> !Touches(log[u], k)
  {
    if log == [] then -1
    else if Touches(log[|log| - 1], k) then |log| - 1
    else LastTouch(log[..|log| - 1], k)
  }

  /** Every entry has been touched, and older entries were touched strictly earlier. */
  ghost predicate OrderedByTouch<K, V>(log: Log<K, V>, s: Entries<K, V>) {
    && (forall i :: 0 <= i < |s| ==> LastTouch(log, s[i].key) >= 0)
    && (forall i, j :: 0 <= i < j < |s| ==> LastTouch(log, s[i].key) < LastTouch(log, s[j].key))
  }

  lemma DistinctAfterDrop<K, V>(s: Entries<K, V>, i: nat)
    requires DistinctKeys(s) && i < |s|
    ensures DistinctKeys(Drop(s, i))
    ensures forall j :: 0 <= j < |s| - 1 ==> Drop(s, i)[j].key != s[i].key
  {
  }

  lemma DistinctAfterAppend<K, V>(s: Entries<K, V>, p: Pair<K, V>)
    requires DistinctKeys(s) && !Has(s, p.key)
    ensures DistinctKeys(s + [p])
  {
    assert forall i :: 0 <= i < |s| ==> s[i].key != p.key;
  }

  lemma HasAfterAppend<K, V>(s: Entries<K, V>, p: Pair<K, V>, k: K)
    ensures Has(s + [p], k) <==> Has(s, k) || k == p.key
  {
    var t := s + [p];
    if Has(s, k) {
      assert t[Find(s, k)].key == k;
    } else if k == p.key {
      assert t[|s|].key == k;
    }
  }

  lemma NextKeepsInvariant<K, V>(cap: nat, s: Entries<K, V>, op: Op<K, V>)
    requires DistinctKeys(s) && WithinCapacity(cap, s)
    ensures DistinctKeys(Next(cap, s, op).state)
    ensures WithinCapacity(cap, Next(cap, s, op).state)
  {
    match op
    case Put(k, v) =>
      if IsFull(cap, s) && s != [] { DistinctAfterDrop(s, 0); }
    case Get(k) =>
      if Has(s, k) { DistinctAfterDrop(s, Find(s, k)); }
    case Contains(k) =>
    case Remove(k) =>
      if Has(s, k) { DistinctAfterDrop(s, Find(s, k)); }
    case RemoveOldest =>
    case Clear =>
  }

  lemma {:induction false} RunKeepsInvariant<K, V>(cap: nat, log: Log<K, V>)
    requires IsRun(cap, log)
    ensures DistinctKeys(Final(log)) && WithinCapacity(cap, Final(log))
  {
    if log != [] {
      var n := |log| - 1;
      RunKeepsInvariant(cap, log[..n]);
      NextKeepsInvariant(cap, Final(log[..n]), log[n].op);
    }
  }

  /** The policy: after any run the chain is strictly ordered by last touch. */
  lemma {:induction false} RunIsOrderedByTouch<K, V>(cap: nat, log: Log<K, V>)
    requires IsRun(cap, log)
    ensures OrderedByTouch(log, Final(log))
  {
    if log != [] {
      var n := |log| - 1;
      RunKeepsInvariant(cap, log[..n]);
      RunIsOrderedByTouch(cap, log[..n]);
      StepKeepsOrder(cap, log);
    }
  }

  /** Entries picked from `s` in order, none of them touched by the last call, stay in order. */
  lemma PickedKeepOrder<K, V>(log: Log<K, V>, s: Entries<K, V>, picked: Entries<K, V>, at: seq<nat>)
    requires log != [] && OrderedByTouch(log[..|log| - 1], s)
    requires |at| == |picked|
    requires forall j :: 0 <= j < |at| ==> at[j] < |s| && picked[j] == s[at[j]]
    requires forall i, j :: 0 <= i < j < |at| ==> at[i] < at[j]
    requires forall j :: 0 <= j < |picked| ==> !Touches(log[|log| - 1], picked[j].key)
    ensures OrderedByTouch(log, picked)
  {
    forall j | 0 <= j < |picked|
      ensures LastTouch(log, picked[j].key) == LastTouch(log[..|log| - 1], s[at[j]].key)
    {
    }
  }

  lemma AppendTouched<K, V>(log: Log<K, V>, s: Entries<K, V>, p: Pair<K, V>)
    requires log != [] && OrderedByTouch(log, s)
    requires Touches(log[|log| - 1], p.key)
    requires forall j :: 0 <= j < |s| ==> !Touches(log[|log| - 1], s[j].key)
    ensures OrderedByTouch(log, s + [p])
  {
    forall j | 0 <= j < |s| ensures LastTouch(log, s[j].key) < LastTouch(log, p.key) {
    }
  }

  /** The entries of `s` that a call leaves in place. */
  function Kept<K(==), V>(cap: nat, s: Entries<K, V>, op: Op<K, V>): Entries<K, V> {
    match op
    case Put(_, _) => if IsFull(cap, s) && s != [] then s[1..] else s
    case Get(k) => if Has(s, k) then Drop(s, Find(s, k)) else s
    case Contains(_) => s
    case Remove(k) => if Has(s, k) then Drop(s, Find(s, k)) else s
    case RemoveOldest => if s == [] then s else s[1..]
    case Clear => []
  }

  /** `kept` is `s` in its order, less `|s| - |kept|` neighbours from position `gap` on. */
  ghost predicate KeepsOrder<K, V>(kept: Entries<K, V>, s: Entries<K, V>, gap: nat) {
    && |kept| <= |s|
    && forall j :: 0 <= j < |kept| ==> kept[j] == s[if j < gap then j else j + |s| - |kept|]
  }

  lemma KeptGap<K, V>(cap: nat, s: Entries<K, V>, op: Op<K, V>) returns (gap: nat)
    ensures KeepsOrder(Kept(cap, s, op), s, gap)
    ensures op.Clear? || |Kept(cap, s, op)| >= |s| - 1
  {
    hide Drop, Find;
    gap := if op.Get? || op.Remove? then Find(s, op.key) else 0;
    if gap < |s| { DropElements(s, gap); }
  }

  /** Every call but `clear` keeps all entries but at most one in their order, and adds at most
      the touched one, behind them. */
  lemma NextIsKeptThenTouched<K, V>(cap: nat, s: Entries<K, V>, op: Op<K, V>)
    requires DistinctKeys(s)
    ensures var r, kept := Next(cap, s, op), Kept(cap, s, op);
      && (if r.ok && (op.Put? || op.Get?)
          then |r.state| > 0 && r.state == kept + [r.state[|r.state| - 1]] && r.state[|r.state| - 1].key == op.key
          else r.state == kept)
      && (op.Put? || op.Get? ==> r.ok ==> forall j :: 0 <= j < |kept| ==> kept[j].key != op.key)
      && (exists gap :: KeepsOrder(kept, s, gap))
      && (op.Clear? || |kept| >= |s| - 1)
      && (op.Contains? || (op.Put? && !r.ok && r.notified == []) ==> r.state == s)
  {
    var gap := KeptGap(cap, s, op);
  }

  lemma KeptPositions<K, V>(cap: nat, s: Entries<K, V>, op: Op<K, V>) returns (at: seq<nat>)
    ensures |at| == |Kept(cap, s, op)|
    ensures forall j :: 0 <= j < |at| ==> at[j] < |s| && Kept(cap, s, op)[j] == s[at[j]]
    ensures forall i, j :: 0 <= i < j < |at| ==> at[i] < at[j]
  {
    var gap := KeptGap(cap, s, op);
    var n := |Kept(cap, s, op)|;
    at := seq(n, j requires 0 <= j < n => if j < gap then j as nat else j + |s| - n);
  }

  lemma StepKeepsOrder<K, V>(cap: nat, log: Log<K, V>)
    requires log != [] && IsRun(cap, log)
    requires DistinctKeys(Final(log[..|log| - 1]))
    requires OrderedByTouch(log[..|log| - 1], Final(log[..|log| - 1]))
    ensures OrderedByTouch(log, Final(log))
  {
    var n := |log| - 1;
    var s, op := Final(log[..n]), log[n].op;
    NextIsKeptThenTouched(cap, s, op);
    var at := KeptPositions(cap, s, op);
    var kept := Kept(cap, s, op);
    PickedKeepOrder(log, s, kept, at);
    if log[n].step.ok && (op.Put? || op.Get?) {
      AppendTouched(log, kept, Final(log)[|kept|]);
    }
  }

  /** Whatever leaves because of age was touched before everything that stays. */
  lemma EvictionTakesLeastRecent<K, V>(cap: nat, log: Log<K, V>, op: Op<K, V>)
    requires IsRun(cap, log) && (op.RemoveOldest? || op.Put?)
    ensures var r := Next(cap, Final(log), op);
      && |r.notified| <= 1
      && (r.notified != [] <==> Final(log) != [] && (op.RemoveOldest? || IsFull(cap, Final(log))))
      && forall p, q :: p in r.notified && q in Final(log) && q != p ==>
           LastTouch(log, p.key) < LastTouch(log, q.key)
  {
    RunIsOrderedByTouch(cap, log);
  }

  // ---------------------------------------------------------------- put

  /** When `put` adds, what it stores, and when it changes nothing at all. */
  lemma PutOutcome<K, V>(cap: nat, s: Entries<K, V>, k: K, v: V)
    requires DistinctKeys(s)
    ensures var r := PutStep(cap, s, k, v);
      && (r.ok <==> !Has(s, k) || (IsFull(cap, s) && s[0].key == k))
      && Has(r.state, k)
      && r.state[Find(r.state, k)] == (if r.ok then Pair(k, v) else s[Find(s, k)])
  {
    var r := PutStep(cap, s, k, v);
    if r.ok { FindLast(r.state, k); }
    if Has(s, k) && IsFull(cap, s) && s[0].key != k { FindUnique(s[1..], Find(s, k) - 1); }
  }

  /** A `put` of a cached key shrinks a full cache: it is harmless exactly when there is
      room, or when the entry it evicts and re-adds is the only one and identical. */
  lemma PutOfCachedKeyUnchanged<K, V>(cap: nat, s: Entries<K, V>, k: K, v: V)
    requires DistinctKeys(s)
    ensures PutStep(cap, s, k, v).state == s
       <==> Has(s, k) && (!IsFull(cap, s) || s == [Pair(k, v)])
  {
    var r := PutStep(cap, s, k, v);
    if r.state == s && IsFull(cap, s) {
      assert r.state == s[1..] + [Pair(k, v)];
      assert s[0].key == k && |s| == 1;
    }
  }

  /** A full cache of two, and a `put` of the key it has just been given: the other entry goes. */
  lemma PutOfCachedKeyEvicts() returns (log: Log<int, int>)
    ensures IsRun(2, log) && Final(log) == [Pair(1, 10), Pair(2, 20)]
    ensures var r := PutStep(2, Final(log), 2, 99);
      !r.ok && r.state == [Pair(2, 20)] && r.notified == [Pair(1, 10)]
  {
    var first := Event(Put(1, 10), PutStep(2, [], 1, 10));
    var second := Event(Put(2, 20), PutStep(2, [Pair(1, 10)], 2, 20));
    RunExtends(2, [], first);
    RunExtends(2, [] + [first], second);
    log := [] + [first] + [second];
  }

  lemma FindLast<K, V>(s: Entries<K, V>, k: K)
    requires s != [] && s[|s| - 1].key == k
    requires forall j :: 0 <= j < |s| - 1 ==> s[j].key != k
    ensures Find(s, k) == |s| - 1
  {
  }

  // ------------------------------------------------------- conservation

  ghost function Added<K, V>(log: Log<K, V>): multiset<Pair<K, V>> {
    if log == [] then multiset{}
    else Added(log[..|log| - 1]) + AddedBy(log[|log| - 1])
  }

  ghost function AddedBy<K, V>(e: Event<K, V>): multiset<Pair<K, V>> {
    if e.op.Put? && e.step.ok then multiset{Pair(e.op.key, e.op.value)} else multiset{}
  }

  ghost function Notified<K, V>(log: Log<K, V>): Entries<K, V> {
    if log == [] then [] else Notified(log[..|log| - 1]) + log[|log| - 1].step.notified
  }

  lemma TakeOldestConserves<K, V>(s: Entries<K, V>)
    ensures multiset(TakeOldest(s).state) + multiset(TakeOldest(s).notified) == multiset(s)
  {
    if s != [] { assert s == [s[0]] + s[1..]; }
  }

  lemma StepConserves<K, V>(cap: nat, s: Entries<K, V>, e: Event<K, V>)
    requires Agrees(e.step, Next(cap, s, e.op))
    ensures multiset(s) + AddedBy(e) == multiset(e.step.state) + multiset(e.step.notified)
  {
    match e.op
    case Put(k, v) => TakeOldestConserves(s);
    case Get(k) => if Has(s, k) { DropMultiset(s, Find(s, k)); }
    case Contains(k) =>
    case Remove(k) => if Has(s, k) { DropMultiset(s, Find(s, k)); }
    case RemoveOldest => TakeOldestConserves(s);
    case Clear =>
  }

  lemma BalanceExtends<T>(added: multiset<T>, cached: multiset<T>, gone: multiset<T>,
                          plus: multiset<T>, cached': multiset<T>, minus: multiset<T>)
    requires added == cached + gone && cached + plus == cached' + minus
    ensures added + plus == cached' + (gone + minus)
  {
    forall x ensures (added + plus)[x] == (cached' + (gone + minus))[x] {
      assert (cached + plus)[x] == (cached' + minus)[x];
    }
  }

  lemma LogUnfolds<K, V>(log: Log<K, V>)
    requires log != []
    ensures var before, e := log[..|log| - 1], log[|log| - 1];
      && Added(log) == Added(before) + AddedBy(e)
      && multiset(Notified(log)) == multiset(Notified(before)) + multiset(e.step.notified)
  {
  }

  /** Every pair ever added is either still cached or has been handed to the listener, once. */
  lemma {:induction false} RunConserves<K, V>(cap: nat, log: Log<K, V>)
    requires IsRun(cap, log)
    ensures Added(log) == multiset(Final(log)) + multiset(Notified(log))
  {
    if log != [] {
      var before := log[..|log| - 1];
      RunConserves(cap, before);
      var e := log[|log| - 1];
      StepConserves(cap, Final(before), e);
      BalanceExtends(Added(before), multiset(Final(before)), multiset(Notified(before)),
                     AddedBy(e), multiset(e.step.state), multiset(e.step.notified));
      LogUnfolds(log);
    }
  }

  // ------------------------------------------------------- observation

  function Lookup<K(==), V>(s: Entries<K, V>, k: K): Option<V> {
    if Has(s, k) then Some(s[Find(s, k)].value) else None
  }

  /** What an observer of additions and notifications alone believes is stored under `k`. */
  ghost function Observed<K, V>(log: Log<K, V>, k: K): Option<V> {
    if log == [] then None else
      var e := log[|log| - 1];
      if e.op.Put? && e.step.ok && e.op.key == k then Some(e.op.value)
      else if Has(e.step.notified, k) then None
      else Observed(log[..|log| - 1], k)
  }

  lemma LookupAfterDrop<K, V>(s: Entries<K, V>, i: nat, k: K)
    requires DistinctKeys(s) && i < |s|
    ensures Lookup(Drop(s, i), k) == if k == s[i].key then None else Lookup(s, k)
  {
    var d := Drop(s, i);
    var j, j' := Find(s, k), Find(d, k);
    if k != s[i].key && j < |s| {
      var at := if j < i then j else j - 1;
      assert d[at] == s[j];
      FindUnique(d, at);
    }
  }

  lemma LookupAfterAppend<K, V>(s: Entries<K, V>, p: Pair<K, V>, k: K)
    requires DistinctKeys(s) && !Has(s, p.key)
    ensures Lookup(s + [p], k) == if k == p.key then Some(p.value) else Lookup(s, k)
  {
    if k == p.key {
      FindLast(s + [p], k);
    } else if Has(s, k) {
      assert forall i, j :: 0 <= i < j < |s + [p]| ==> (s + [p])[i].key != (s + [p])[j].key;
      FindUnique(s + [p], Find(s, k));
    }
  }

  lemma LookupAfterTakeOldest<K, V>(s: Entries<K, V>, k: K)
    requires DistinctKeys(s)
    ensures var r := TakeOldest(s);
      DistinctKeys(r.state) && Lookup(r.state, k) == if Has(r.notified, k) then None else Lookup(s, k)
  {
    if s != [] {
      LookupAfterDrop(s, 0, k);
      assert Drop(s, 0) == s[1..];
    }
  }

  lemma LookupAfterGet<K, V>(s: Entries<K, V>, key: K, k: K)
    requires DistinctKeys(s)
    ensures Lookup(Next(0, s, Get(key)).state, k) == Lookup(s, k)
  {
    var i := Find(s, key);
    if i < |s| {
      LookupAfterDrop(s, i, key);
      LookupAfterDrop(s, i, k);
      LookupAfterAppend(Drop(s, i), s[i], k);
    }
  }

  lemma LookupAfterPut<K, V>(cap: nat, s: Entries<K, V>, key: K, v: V, k: K)
    requires DistinctKeys(s)
    ensures var r := PutStep(cap, s, key, v);
      Lookup(r.state, k) == if r.ok && k == key then Some(v) else if Has(r.notified, k) then None else Lookup(s, k)
  {
    LookupAfterTakeOldest(s, k);
    var kept := if IsFull(cap, s) then TakeOldest(s).state else s;
    if !Has(kept, key) { LookupAfterAppend(kept, Pair(key, v), k); }
  }

  lemma HasInAnyOrder<K, V>(s: Entries<K, V>, t: Entries<K, V>, k: K)
    requires multiset(s) == multiset(t)
    ensures Has(s, k) <==> Has(t, k)
  {
    if Has(s, k) { assert s[Find(s, k)] in multiset(t); }
    if Has(t, k) { assert t[Find(t, k)] in multiset(s); }
  }

  lemma LookupAfterStep<K, V>(cap: nat, s: Entries<K, V>, e: Event<K, V>, k: K)
    requires DistinctKeys(s) && Agrees(e.step, Next(cap, s, e.op))
    ensures Lookup(e.step.state, k) ==
      if e.op.Put? && e.step.ok && e.op.key == k then Some(e.op.value)
      else if Has(e.step.notified, k) then None
      else Lookup(s, k)
  {
    HasInAnyOrder(e.step.notified, Next(cap, s, e.op).notified, k);
    match e.op
    case Put(key, v) => LookupAfterPut(cap, s, key, v, k);
    case Get(key) => LookupAfterGet(s, key, k);
    case Contains(_) =>
    case Remove(key) => if Has(s, key) { LookupAfterDrop(s, Find(s, key), k); }
    case RemoveOldest => LookupAfterTakeOldest(s, k);
    case Clear =>
  }

  /** After every run the observer is right: a key is cached exactly when it was added and not
      notified since, and its value is the one last added. */
  lemma {:induction false} RunIsObserved<K, V>(cap: nat, log: Log<K, V>, k: K)
    requires IsRun(cap, log)
    ensures Observed(log, k) == Lookup(Final(log), k)
  {
    if log != [] {
      var before := log[..|log| - 1];
      RunIsObserved(cap, before, k);
      RunKeepsInvariant(cap, before);
      LookupAfterStep(cap, Final(before), log[|log| - 1], k);
    }
  }

  /** What the calls answer, told from the observer's point of view. */
  lemma AnswersAreObserved<K, V>(cap: nat, log: Log<K, V>, k: K)
    requires IsRun(cap, log)
    ensures Next(cap, Final(log), Get(k)).result == Observed(log, k)
    ensures Next(cap, Final(log), Remove(k)).result == Observed(log, k)
    ensures Next(cap, Final(log), Contains(k)).ok <==> Observed(log, k).Some?
    ensures var oldest := Next(cap, Final(log), RemoveOldest).result;
      if Final(log) == [] then oldest == None else oldest == Observed(log, Final(log)[0].key)
  {
    hide IsRun;
    RunIsObserved(cap, log, k);
    if Final(log) != [] {
      RunIsObserved(cap, log, Final(log)[0].key);
    }
  }

  // ------------------------------------------------------- inclusion

  /** The way a cache is used: look up, and load and `put` on a miss. */
  function Access<K(==), V>(cap: nat, s: Entries<K, V>, load: K -> V, k: K): Entries<K, V> {
    var hit := Next(cap, s, Get(k));
    if hit.ok then hit.state else Next(cap, hit.state, Put(k, load(k))).state
  }

  function Accesses<K(==), V>(cap: nat, load: K -> V, ks: seq<K>): Entries<K, V> {
    if ks == [] then [] else Access(cap, Accesses(cap, load, ks[..|ks| - 1]), load, ks[|ks| - 1])
  }

  function Youngest<T>(s: seq<T>, n: nat): seq<T> {
    if |s| <= n then s else s[|s| - n..]
  }

  ghost predicate Loaded<K, V>(s: Entries<K, V>, load: K -> V) {
    forall i :: 0 <= i < |s| ==> s[i].value == load(s[i].key)
  }

  lemma AccessHit<K, V>(cap: nat, s: Entries<K, V>, load: K -> V, i: nat)
    requires DistinctKeys(s) && i < |s|
    ensures Access(cap, s, load, s[i].key) == Drop(s, i) + [s[i]]
  {
    FindUnique(s, i);
  }

  lemma AccessMiss<K, V>(cap: nat, s: Entries<K, V>, load: K -> V, k: K)
    requires !Has(s, k)
    ensures Access(cap, s, load, k) == (if IsFull(cap, s) && s != [] then s[1..] else s) + [Pair(k, load(k))]
  {
    assert forall j :: 0 <= j < |s| ==> s[j].key != k;
  }

  lemma TruncationOfHit<T>(s: seq<T>, n: nat, i: nat)
    requires i < |s|
    ensures var d := |s| - |Youngest(s, n)|;
      Youngest(Drop(s, i) + [s[i]], n) ==
        if i < d then (if n == 0 then [] else Youngest(s, n)[1..] + [s[i]])
        else Drop(Youngest(s, n), i - d) + [s[i]]
  {
    hide Drop;
    var y, t := Youngest(s, n), Drop(s, i) + [s[i]];
    var d := |s| - |y|;
    DropElements(s, i);
    assert forall j :: 0 <= j < |y| ==> y[j] == s[d + j];
    if d <= i {
      DropElements(y, i - d);
      assert Youngest(t, n) == Drop(y, i - d) + [s[i]];
    } else if n > 0 {
      assert Youngest(t, n) == y[1..] + [s[i]];
    }
  }

  lemma TruncationOfAppend<T>(s: seq<T>, n: nat, p: T)
    requires n > 0
    ensures var y := Youngest(s, n);
      Youngest(s + [p], n) == (if |y| >= n then y[1..] else y) + [p]
  {
  }

  lemma AccessCommutesOnMiss<K, V>(cap: nat, s: Entries<K, V>, load: K -> V, k: K)
    requires cap != UNLIMITED_CAPACITY && !Has(s, k)
    ensures Access(cap, Youngest(s, cap), load, k) == Youngest(Access(UNLIMITED_CAPACITY, s, load, k), cap)
  {
    hide Access;
    var y := Youngest(s, cap);
    assert forall j :: 0 <= j < |s| ==> s[j].key != k;
    AccessMiss(UNLIMITED_CAPACITY, s, load, k);
    AccessMiss(cap, y, load, k);
    TruncationOfAppend(s, cap, Pair(k, load(k)));
  }

  lemma AccessCommutesOnHit<K, V>(cap: nat, s: Entries<K, V>, load: K -> V, i: nat)
    requires cap != UNLIMITED_CAPACITY && DistinctKeys(s) && i < |s| && s[i].value == load(s[i].key)
    ensures Access(cap, Youngest(s, cap), load, s[i].key)
         == Youngest(Access(UNLIMITED_CAPACITY, s, load, s[i].key), cap)
  {
    hide Access;
    var y, k := Youngest(s, cap), s[i].key;
    var d := |s| - |y|;
    AccessHit(UNLIMITED_CAPACITY, s, load, i);
    TruncationOfHit(s, cap, i);
    if d <= i {
      AccessHit(cap, y, load, i - d);
    } else {
      assert forall j :: 0 <= j < |y| ==> y[j] == s[d + j];
      AccessMiss(cap, y, load, k);
    }
  }

  lemma AccessKeepsLoaded<K, V>(s: Entries<K, V>, load: K -> V, k: K)
    requires DistinctKeys(s) && Loaded(s, load)
    ensures var t := Access(UNLIMITED_CAPACITY, s, load, k); DistinctKeys(t) && Loaded(t, load)
  {
    if Has(s, k) {
      AccessHit(UNLIMITED_CAPACITY, s, load, Find(s, k));
    } else {
      AccessMiss(UNLIMITED_CAPACITY, s, load, k);
    }
  }

  /** A cache of capacity `cap` holds exactly the `cap` most recently used distinct keys. */
  lemma {:induction false} BoundedIsSuffixOfUnlimited<K, V>(cap: nat, load: K -> V, ks: seq<K>)
    requires cap != UNLIMITED_CAPACITY
    ensures DistinctKeys(Accesses(UNLIMITED_CAPACITY, load, ks))
    ensures Loaded(Accesses(UNLIMITED_CAPACITY, load, ks), load)
    ensures Accesses(cap, load, ks) == Youngest(Accesses(UNLIMITED_CAPACITY, load, ks), cap)
  {
    if ks != [] {
      var before := ks[..|ks| - 1];
      BoundedIsSuffixOfUnlimited(cap, load, before);
      var s := Accesses(UNLIMITED_CAPACITY, load, before);
      AccessKeepsLoaded(s, load, ks[|ks| - 1]);
      if Has(s, ks[|ks| - 1]) {
        AccessCommutesOnHit(cap, s, load, Find(s, ks[|ks| - 1]));
      } else {
        AccessCommutesOnMiss(cap, s, load, ks[|ks| - 1]);
      }
    }
  }

  /** A larger cache never misses where a smaller one hits. */
  lemma LargerCacheIncludesSmaller<K, V>(small: nat, large: nat, load: K -> V, ks: seq<K>)
    requires UNLIMITED_CAPACITY < small <= large
    ensures Accesses(small, load, ks) == Youngest(Accesses(large, load, ks), small)
  {
    hide Accesses;
    BoundedIsSuffixOfUnlimited(small, load, ks);
    BoundedIsSuffixOfUnlimited(large, load, ks);
  }
}
