// The cache itself: heap entries threaded on a parent/child chain from
// `mOldest` to `mYoungest`, kept in step with the key index `mCache`.
// Each method is proved to take the step of the same name in `Recency`.
module GenerationCache {
  import opened Seqs
  import opened Wrappers
  import opened Recency

  class Entry<K(0), V(0)> {
    var key: K
    var value: V
    var parent: Entry?<K, V>
    var child: Entry?<K, V>

    constructor ()
      ensures parent == null && child == null
    {
      parent, child := null, null;
    }
  }

  /** A listener that does not call back into the cache; `calls` is what it has been told. */
  class OnEntryRemoved<K, V> {
    var calls: Entries<K, V>

    constructor ()
      ensures calls == []
    {
      calls := [];
    }

    method Call(key: K, value: V)
      modifies this
      ensures calls == old(calls) + [Pair(key, value)]
    {
      calls := calls + [Pair(key, value)];
    }
  }

  class GenerationCache<K(==,0), V(0)> {
    var mCache: map<K, Entry<K, V>>
    const mMaxCapacity: nat
    var mListener: OnEntryRemoved?<K, V>
    var mOldest: Entry?<K, V>
    var mYoungest: Entry?<K, V>

    // The entries in chain order, oldest first, and what they store.
    ghost var chain: seq<Entry<K, V>>
    ghost var contents: Entries<K, V>

    // Entries this cache may write.
    ghost var repr: set<Entry<K, V>>

    // Every `get`, `put`, `remove`, `removeOldest` and `clear` so far and what it did.
    ghost var log: Log<K, V>

    static ghost predicate LinkedAt(c: seq<Entry<K, V>>, i: nat)
      requires i < |c|
      reads c`parent, c`child
    {
      && c[i].parent == (if i == 0 then null else c[i - 1])
      && c[i].child == (if i == |c| - 1 then null else c[i + 1])
    }

    /** `mOldest`, `child`, ..., `mYoungest` and back through `parent` is exactly `chain`. */
    ghost predicate Linked()
      reads `mOldest, `mYoungest, `chain, `repr, repr`parent, repr`child
    {
      && (forall i :: 0 <= i < |chain| ==> chain[i] in repr)
      && (forall i :: 0 <= i < |chain| ==> LinkedAt(chain, i))
      && mOldest == (if chain == [] then null else chain[0])
      && mYoungest == (if chain == [] then null else chain[|chain| - 1])
    }

    /** The entries of `c` store the pairs of `s`. */
    static ghost predicate Stores(c: seq<Entry<K, V>>, s: Entries<K, V>)
      reads c`key, c`value
    {
      && |c| == |s|
      && (forall i :: 0 <= i < |c| ==> c[i].key == s[i].key && c[i].value == s[i].value)
    }

    /** The index `m` holds exactly the entries of `c`, each under its key in `s`. */
    static ghost predicate Indexed(m: map<K, Entry<K, V>>, c: seq<Entry<K, V>>, s: Entries<K, V>) {
      && |m| == |c| == |s|
      && DistinctKeys(s)
      && (forall i :: 0 <= i < |c| ==> s[i].key in m && m[s[i].key] == c[i])
      && (forall k :: k in m ==> Has(s, k))
    }

    ghost predicate Valid()
      reads `mCache, `mOldest, `mYoungest, `chain, `contents, `repr, repr
    {
      Linked() && Stores(chain, contents) && Indexed(mCache, chain, contents)
    }

    /** `Valid`, and in a state that a run from the empty cache reaches. */
    ghost predicate Reached()
      reads this, repr
    {
      Valid() && IsRun(mMaxCapacity, log) && Final(log) == contents
    }

    constructor (maxCapacity: nat)
      ensures Reached() && contents == [] && log == []
      ensures mMaxCapacity == maxCapacity && mListener == null
    {
      mMaxCapacity := maxCapacity;
      repr := {};
      mListener := null;
      mCache := map[];
      mOldest, mYoungest := null, null;
      chain, contents, log := [], [], [];
    }

    /** A linked chain is acyclic: following `parent` from a repeated entry would pass the oldest. */
    lemma {:induction false} LinkedIsInjective(i: nat, j: nat)
      requires Linked() && i < j < |chain|
      ensures chain[i] != chain[j]
    {
      assert LinkedAt(chain, i) && LinkedAt(chain, j);
      if i > 0 {
        LinkedIsInjective(i - 1, j - 1);
      }
    }

    lemma OccursOnce(k: nat)
      requires Linked() && k < |chain|
      ensures forall i :: 0 <= i < |chain| && i != k ==> chain[i] != chain[k]
    {
      forall i | 0 <= i < |chain| && i != k ensures chain[i] != chain[k] {
        if i < k { LinkedIsInjective(i, k); } else { LinkedIsInjective(k, i); }
      }
    }

    lemma AllDistinct()
      requires Linked()
      ensures forall i, j :: 0 <= i < j < |chain| ==> chain[i] != chain[j]
    {
      forall i, j | 0 <= i < j < |chain| ensures chain[i] != chain[j] {
        OccursOnce(i);
      }
    }

    static lemma StoresDrop(c: seq<Entry<K, V>>, s: Entries<K, V>, at: nat)
      requires Stores(c, s) && at < |c|
      ensures at < |s| && Stores(Drop(c, at), Drop(s, at))
    {
      DropElements(c, at);
      DropElements(s, at);
    }

    ghost predicate OnChain(entry: Entry<K, V>)
      reads `chain
    {
      exists i :: 0 <= i < |chain| && chain[i] == entry
    }

    /** `attachToCache` sets no link of a first entry, and never the `child` of the one it attaches. */
    ghost predicate Attachable(entry: Entry<K, V>)
      reads `chain, entry`parent, entry`child
    {
      !OnChain(entry) && entry.child == null && (chain == [] ==> entry.parent == null)
    }

    /** Any entry may be attached; the chain stays linked exactly when it is `Attachable`. */
    method AttachToCache(entry: Entry<K, V>)
      requires Linked()
      modifies `mOldest, `mYoungest, `chain, `contents, `repr, entry`parent, repr`child
      ensures chain == old(chain) + [entry] && contents == old(contents) + [Pair(entry.key, entry.value)]
      ensures repr == old(repr) + {entry}
      ensures mYoungest == entry && mOldest == if old(chain) == [] then entry else old(mOldest)
      ensures entry.parent == if old(chain) == [] then old(entry.parent) else old(mYoungest)
      ensures old(chain) != [] ==> old(mYoungest).child == entry
      ensures forall e :: e in old(repr) && e != old(mYoungest) ==> e.child == old(e.child)
      ensures Linked() <==> old(Attachable(entry))
      ensures old(Stores(chain, contents)) ==> Stores(chain, contents)
    {
      if chain != [] {
        OccursOnce(|chain| - 1);
        assert LinkedAt(chain, |chain| - 1);
      }
      if mYoungest == null {
        mYoungest, mOldest := entry, entry;
      } else {
        entry.parent := mYoungest;
        mYoungest.child := entry;
        mYoungest := entry;
      }
      chain := chain + [entry];
      repr := repr + {entry};
      contents := contents + [Pair(entry.key, entry.value)];
      if old(Attachable(entry)) {
        forall i | 0 <= i < |chain| ensures LinkedAt(chain, i) {
          assert i < |chain| - 1 ==> old(LinkedAt(chain, i));
        }
      }
      if Linked() {
        OccursOnce(|chain| - 1);
        assert LinkedAt(chain, |chain| - 1);
        assert forall i :: 0 <= i < |old(chain)| ==> chain[i] == old(chain)[i];
      }
    }

    /** `c[j]` is linked as if `c[at]` were not there. */
    static ghost predicate BypassedAt(c: seq<Entry<K, V>>, at: nat, j: nat)
      requires j < |c| && at < |c| && j != at
      reads c`parent, c`child
    {
      var before := if j == at + 1 then at - 1 else j - 1;
      var after := if j + 1 == at then at + 1 else j + 1;
      && c[j].parent == (if before == -1 then null else c[before])
      && c[j].child == (if after == |c| then null else c[after])
    }

    static lemma BypassedIsLinked(c: seq<Entry<K, V>>, at: nat)
      requires at < |c| && forall j :: 0 <= j < |c| && j != at ==> BypassedAt(c, at, j)
      ensures forall i :: 0 <= i < |c| - 1 ==> LinkedAt(Drop(c, at), i)
    {
      hide Drop;
      DropElements(c, at);
      forall i | 0 <= i < |c| - 1 ensures LinkedAt(Drop(c, at), i) {
        assert BypassedAt(c, at, if i < at then i else i + 1);
      }
    }

    static ghost function ToSet(entry: Entry?<K, V>): set<Entry<K, V>> {
      if entry == null then {} else {entry}
    }

    lemma NeighboursAreOwned(at: nat)
      requires Linked() && at < |chain|
      ensures chain[at] in repr && ToSet(chain[at].parent) <= repr && ToSet(chain[at].child) <= repr
    {
      assert LinkedAt(chain, at);
    }

    /** The neighbours `p` and `c` of `entry` are linked to each other, and nothing else is. */
    twostate predicate Bridged(entry: Entry<K, V>, new p: Entry?<K, V>, new c: Entry?<K, V>)
      reads `mOldest, `mYoungest, `repr, repr`parent, repr`child, entry`parent, entry`child
      reads ToSet(p)`child, ToSet(c)`parent
    {
      && p == old(entry.parent) && c == old(entry.child)
      && entry.parent == null && entry.child == null
      && mOldest == (if old(mOldest) == entry then c else old(mOldest))
      && mYoungest == (if old(mYoungest) == entry then p else old(mYoungest))
      && (p != null && p != entry ==> p.child == c)
      && (c != null && c != entry ==> c.parent == p)
      && repr == old(repr)
      && (forall e :: e in repr && e != entry ==>
            && (e != p ==> e.child == old(e.child))
            && (e != c ==> e.parent == old(e.parent)))
    }

    /** The links of an entry that is not on the chain do not cut through the chain. */
    ghost predicate Beside(entry: Entry<K, V>)
      reads this, entry, entry.parent, entry.child
    {
      && (entry.parent != null && OnChain(entry.parent) ==> entry.parent.child == entry.child)
      && (entry.child != null && OnChain(entry.child) ==> entry.child.parent == entry.parent)
    }

    twostate lemma BridgedOnChain(entry: Entry<K, V>, new p: Entry?<K, V>, new c: Entry?<K, V>, new at: nat)
      requires old(Linked()) && Bridged(entry, p, c)
      requires at < |old(chain)| && old(chain)[at] == entry && chain == Drop(old(chain), at)
      requires forall i, j :: 0 <= i < j < |old(chain)| ==> old(chain)[i] != old(chain)[j]
      ensures Linked() && !OnChain(entry)
    {
      hide Drop;
      var was := old(chain);
      assert old(LinkedAt(was, at));
      forall j | 0 <= j < |was| && j != at ensures BypassedAt(was, at, j) {
        assert old(LinkedAt(was, j));
      }
      BypassedIsLinked(was, at);
      DropElements(was, at);
    }

    twostate lemma BridgedBeside(entry: Entry<K, V>, new p: Entry?<K, V>, new c: Entry?<K, V>)
      requires old(Linked()) && Bridged(entry, p, c) && chain == old(chain) && old(!OnChain(entry))
      ensures Linked() <==> old(Beside(entry))
    {
      if old(Beside(entry)) {
        forall i | 0 <= i < |chain| ensures LinkedAt(chain, i) {
          assert old(LinkedAt(chain, i));
        }
      } else {
        var i :|
          0 <= i < |chain| && ((chain[i] == p && old(p.child) != c) || (chain[i] == c && old(c.parent) != p));
        assert old(LinkedAt(chain, i)) && !LinkedAt(chain, i);
      }
    }

    /** What `DetachFromCache` does to the links, of any entry whatever. */
    method Unlink(entry: Entry<K, V>)
      modifies `mOldest, `mYoungest, entry`parent, entry`child
      modifies ToSet(entry.parent)`child, ToSet(entry.child)`parent
      ensures Bridged(entry, old(entry.parent), old(entry.child))
    {
      ghost var p, c := entry.parent, entry.child;
      if entry.parent != null {
        entry.parent.child := entry.child;
      }
      assert entry.parent == p && entry.child == c;
      if entry.child != null {
        entry.child.parent := entry.parent;
      }
      assert entry.parent == p && entry.child == c;
      if mOldest == entry {
        mOldest := entry.child;
      }
      if mYoungest == entry {
        mYoungest := entry.parent;
      }
      entry.parent := null;
      entry.child := null;
    }

    /** Any entry may be detached; `at` is its place, or the end of the chain if it is not on it.
        The chain stays linked unless an entry from elsewhere has links that cut through it. */
    method DetachFromCache(entry: Entry<K, V>, ghost at: nat)
      requires Linked() && Stores(chain, contents)
      requires if at < |chain| then chain[at] == entry else at == |chain| && !OnChain(entry)
      modifies `mOldest, `mYoungest, `chain, `contents, entry`parent, entry`child
      modifies ToSet(entry.parent)`child, ToSet(entry.child)`parent
      ensures Bridged(entry, old(entry.parent), old(entry.child))
      ensures Linked() <==> at < |old(chain)| || old(Beside(entry))
      ensures Stores(chain, contents)
      ensures chain == (if at < |old(chain)| then Drop(old(chain), at) else old(chain))
      ensures contents == (if at < |old(chain)| then Drop(old(contents), at) else old(contents))
      ensures !OnChain(entry) && entry.parent == null && entry.child == null
    {
      hide Drop, Stores, Linked, OnChain, Bridged, Beside;
      AllDistinct();
      ghost var p, c := entry.parent, entry.child;
      Unlink(entry);
      if at < |chain| {
        StoresDrop(chain, contents, at);
        chain, contents := Drop(chain, at), Drop(contents, at);
        BridgedOnChain(entry, p, c, at);
      } else {
        BridgedBeside(entry, p, c);
      }
    }

    /** From the old state to the new one the cache took the step `st`, and told its listener so. */
    twostate predicate Stepped(new st: Step<K, V>)
      reads this, repr, mListener
    {
      && Valid()
      && contents == st.state
      && mListener == old(mListener)
      && (mListener != null ==> mListener.calls == old(mListener.calls) + st.notified)
      && fresh(repr - old(repr))
    }

    /** The step is the one of the call `op`, and it extends the run. */
    twostate predicate Took(op: Op<K, V>, new st: Step<K, V>)
      reads this, repr, mListener
    {
      Stepped(st) && Reached() && log == old(log) + [Event(op, st)]
    }

    /** Logs a call that has just been carried out. */
    ghost method Record(op: Op<K, V>, before: Entries<K, V>)
      requires Valid() && IsRun(mMaxCapacity, log) && Final(log) == before
      requires contents == Next(mMaxCapacity, before, op).state
      modifies `log
      ensures Reached() && log == old(log) + [Event(op, Next(mMaxCapacity, before, op))]
    {
      hide Next, Indexed, Linked, Stores, IsRun;
      RecordAs(op, Next(mMaxCapacity, before, op));
    }

    /** As `Record`, where several pairs were notified in an order of their own. */
    ghost method RecordAs(op: Op<K, V>, st: Step<K, V>)
      requires Valid() && IsRun(mMaxCapacity, log)
      requires contents == st.state && Agrees(st, Next(mMaxCapacity, Final(log), op))
      modifies `log
      ensures Reached() && log == old(log) + [Event(op, st)]
    {
      hide Next, Indexed, Linked, Stores, Agrees;
      RunExtends(mMaxCapacity, log, Event(op, st));
      log := log + [Event(op, st)];
    }

    /** What holds of every cache that its public methods can produce. */
    lemma ReachedFacts()
      requires Reached()
      ensures WithinCapacity(mMaxCapacity, contents)
      ensures OrderedByTouch(log, contents)
      ensures Added(log) == multiset(contents) + multiset(Notified(log))
      ensures forall k :: k in mCache ==> Observed(log, k) == Some(mCache[k].value)
    {
      RunKeepsInvariant(mMaxCapacity, log);
      RunIsOrderedByTouch(mMaxCapacity, log);
      RunConserves(mMaxCapacity, log);
      forall k | k in mCache ensures Observed(log, k) == Some(mCache[k].value) {
        RunIsObserved(mMaxCapacity, log, k);
      }
    }

    /** A listener attached to an empty cache has heard exactly what the log says was notified. */
    ghost predicate HeardAll()
      reads this, mListener
    {
      mListener != null && mListener.calls == Notified(log)
    }

    twostate lemma HearingContinues(op: Op<K, V>, new st: Step<K, V>)
      requires Took(op, st) && old(HeardAll())
      ensures HeardAll()
    {
      assert log[..|log| - 1] == old(log);
    }

    /** Conservation: every pair ever added is cached or was told to the listener, once. */
    lemma ListenerConserves()
      requires Reached() && HeardAll()
      ensures Added(log) == multiset(contents) + multiset(mListener.calls)
    {
      RunConserves(mMaxCapacity, log);
    }

    /** The index finds `k` exactly when the chain has it, and finds the same entry. */
    lemma Located(k: K)
      requires Valid()
      ensures |mCache| == |chain| == |contents|
      ensures k in mCache <==> Has(contents, k)
      ensures k in mCache ==>
        var at := Find(contents, k);
        && mCache[k] == chain[at] && mCache[k] in repr
        && mCache[k].key == k && mCache[k].value == contents[at].value
    {
    }

    static lemma IndexedAppend(m: map<K, Entry<K, V>>, c: seq<Entry<K, V>>, s: Entries<K, V>,
                               e: Entry<K, V>, p: Pair<K, V>)
      requires Indexed(m, c, s) && !Has(s, p.key)
      ensures Indexed(m[p.key := e], c + [e], s + [p])
    {
      hide DistinctKeys, Find, Has;
      DistinctAfterAppend(s, p);
      AbsentKeys(s, p.key);
      AppendedEntries(m, c, s, e, p);
      forall k | k in m[p.key := e] ensures Has(s + [p], k) {
        HasAfterAppend(s, p, k);
      }
    }

    static lemma AbsentKeys(s: Entries<K, V>, k: K)
      requires !Has(s, k)
      ensures forall i :: 0 <= i < |s| ==> s[i].key != k
    {
    }

    /** The look-ups of `IndexedAppend`. */
    static lemma AppendedEntries(m: map<K, Entry<K, V>>, c: seq<Entry<K, V>>, s: Entries<K, V>,
                                 e: Entry<K, V>, p: Pair<K, V>)
      requires |c| == |s| && forall i :: 0 <= i < |s| ==> s[i].key in m && m[s[i].key] == c[i]
      requires forall i :: 0 <= i < |s| ==> s[i].key != p.key
      ensures var m', c', s' := m[p.key := e], c + [e], s + [p];
        forall i :: 0 <= i < |s'| ==> s'[i].key in m' && m'[s'[i].key] == c'[i]
    {
    }

    static lemma RemovedKeySize(m: map<K, Entry<K, V>>, k: K)
      requires k in m
      ensures |m - {k}| == |m| - 1
    {
      assert m == (m - {k})[k := m[k]];
    }

    static lemma IndexedDrop(m: map<K, Entry<K, V>>, c: seq<Entry<K, V>>, s: Entries<K, V>, at: nat)
      requires Indexed(m, c, s) && at < |c|
      ensures Indexed(m - {s[at].key}, Drop(c, at), Drop(s, at))
      ensures !Has(Drop(s, at), s[at].key)
    {
      hide Drop, DistinctKeys, Find;
      DropElements(c, at);
      DropElements(s, at);
      DistinctAfterDrop(s, at);
      var m', s' := m - {s[at].key}, Drop(s, at);
      RemovedKeySize(m, s[at].key);
      forall k | k in m' ensures Has(s', k) {
        LookupAfterDrop(s, at, k);
      }
    }

    method SetOnEntryRemovedListener(listener: OnEntryRemoved?<K, V>)
      requires Reached()
      modifies `mListener
      ensures Reached() && mListener == listener
    {
      mListener := listener;
    }

    method Size() returns (n: nat)
      requires Valid()
      ensures n == |contents|
    {
      n := |mCache|;
    }

    lemma StartTelling()
      requires Valid()
      ensures Telling([], contents, mCache.Keys, contents)
    {
    }

    lemma EntryOf(p: Pair<K, V>)
      requires Valid() && p in multiset(contents)
      ensures p.key in mCache && mCache[p.key].key == p.key && mCache[p.key].value == p.value
    {
    }

    /** Half way through `Clear`: `told` has been notified, `left` and its keys `rest` have not. */
    static ghost predicate Telling(told: Entries<K, V>, left: Entries<K, V>, rest: set<K>, all: Entries<K, V>) {
      && multiset(told) + multiset(left) == multiset(all)
      && DistinctKeys(left)
      && (forall k :: k in rest ==> Has(left, k))
      && (forall i :: 0 <= i < |left| ==> left[i].key in rest)
    }

    static lemma TellNext(told: Entries<K, V>, left: Entries<K, V>, rest: set<K>, all: Entries<K, V>, k: K)
      returns (p: Pair<K, V>, left': Entries<K, V>)
      requires Telling(told, left, rest, all) && k in rest
      ensures p.key == k && p in multiset(all)
      ensures Telling(told + [p], left', rest - {k}, all)
    {
      hide Drop;
      var at := Find(left, k);
      p, left' := left[at], Drop(left, at);
      assert p in multiset(left);
      DropMultiset(left, at);
      DistinctAfterDrop(left, at);
      DropElements(left, at);
      forall j | j in rest - {k} ensures Has(left', j) {
        LookupAfterDrop(left, at, j);
      }
    }

    static lemma ToldAll(told: Entries<K, V>, left: Entries<K, V>, all: Entries<K, V>)
      requires Telling(told, left, {}, all)
      ensures multiset(told) == multiset(all)
    {
    }

    /** The loop of `Clear`: the listener hears of every entry once, in the order the index
        keeps its keys in. */
    method NotifyAll() returns (ghost told: Entries<K, V>)
      requires Valid() && mListener != null
      modifies mListener
      ensures mListener.calls == old(mListener.calls) + told
      ensures multiset(told) == multiset(contents)
    {
      hide Indexed, Linked, Stores, Telling;
      told := [];
      var rest := mCache.Keys;
      ghost var left := contents;
      StartTelling();
      while rest != {}
        invariant Valid()
        invariant mListener.calls == old(mListener.calls) + told
        invariant Telling(told, left, rest, contents)
      {
        var k :| k in rest;
        ghost var p, left' := TellNext(told, left, rest, contents, k);
        EntryOf(p);
        var entry := mCache[k];
        mListener.Call(entry.key, entry.value);
        told, left := told + [p], left';
        rest := rest - {k};
      }
      ToldAll(told, left, contents);
    }

    method Clear() returns (ghost told: Entries<K, V>)
      requires Reached()
      modifies this, mListener
      ensures multiset(told) == multiset(old(contents))
      ensures Took(Op.Clear, Step([], true, None, told))
    {
      hide IsRun, Final, Next, Indexed, Agrees;
      IndexedEmpty();
      told := contents;
      if mListener != null {
        told := NotifyAll();
      }
      mCache := map[];
      mYoungest := null;
      mOldest := null;
      chain, contents := [], [];
      ClearAgrees(told, old(contents));
      RecordAs(Op.Clear, Step([], true, None, told));
    }

    lemma ClearAgrees(told: Entries<K, V>, s: Entries<K, V>)
      requires multiset(told) == multiset(s)
      ensures Agrees(Step([], true, None, told), Next(mMaxCapacity, s, Op.Clear))
    {
    }

    static lemma IndexedEmpty()
      ensures Indexed(map[], [], [])
    {
    }

    method Contains(key: K) returns (found: bool)
      requires Valid()
      ensures found == Next(mMaxCapacity, contents, Op.Contains(key)).ok
    {
      Located(key);
      found := key in mCache;
    }

    /** Stores and links the entry and puts it under its key in the index, whatever was there.
        That leaves the cache valid exactly when the entry could be attached and the key was
        absent: otherwise the entry it displaces stays on the chain without being indexed. */
    method AddToCache(entry: Entry<K, V>, key: K, value: V)
      requires Valid()
      modifies `mCache, `mOldest, `mYoungest, `chain, `contents, `repr, entry`key, entry`value, entry`parent, repr`child
      ensures mCache == old(mCache)[key := entry]
      ensures chain == old(chain) + [entry] && contents == old(contents) + [Pair(key, value)]
      ensures repr == old(repr) + {entry}
      ensures old(Attachable(entry)) ==> Linked() && Stores(chain, contents)
      ensures Valid() <==> old(Attachable(entry)) && key !in old(mCache)
    {
      hide Indexed;
      Located(key);
      entry.key := key;
      entry.value := value;
      if key !in mCache {
        IndexedAppend(mCache, chain, contents, entry, Pair(key, value));
      }
      mCache := mCache[key := entry];
      AttachToCache(entry);
      if |mCache| != |chain| {
        NotIndexed(mCache, chain, contents);
      }
    }

    static lemma NotIndexed(m: map<K, Entry<K, V>>, c: seq<Entry<K, V>>, s: Entries<K, V>)
      requires |m| != |c|
      ensures !Indexed(m, c, s)
    {
    }

    /** The miss branch of `Put`. */
    method PutNew(key: K, value: V)
      requires Valid() && key !in mCache
      modifies `mCache, `mOldest, `mYoungest, `chain, `contents, `repr, repr`child
      ensures Valid() && contents == old(contents) + [Pair(key, value)]
      ensures fresh(repr - old(repr))
    {
      hide Indexed, Stores;
      var entry := new Entry<K, V>();
      AddToCache(entry, key, value);
    }

    method Get(key: K) returns (value: Option<V>)
      requires Reached()
      modifies this, repr
      ensures Took(Op.Get(key), Next(mMaxCapacity, old(contents), Op.Get(key)))
      ensures value == Next(mMaxCapacity, old(contents), Op.Get(key)).result
    {
      hide IsRun, Final, Next, Indexed, Linked, Stores, Bridged, Beside, OnChain, Drop, Find;
      Located(key);
      NextAt(mMaxCapacity, contents, key);
      if key in mCache {
        var entry := mCache[key];
        ghost var at := Find(contents, key);
        DropElements(chain, at);
        ghost var pair := contents[at];
        IndexedDrop(mCache, chain, contents, at);
        NeighboursAreOwned(at);
        DetachFromCache(entry, at);
        IndexedAppend(mCache - {key}, chain, contents, entry, pair);
        AttachToCache(entry);
        assert mCache == (mCache - {key})[key := entry];
        assert repr == old(repr);
        assert mListener != null ==> mListener.calls == old(mListener.calls) + [];
        Record(Op.Get(key), old(contents));
        return Some(entry.value);
      }
      Record(Op.Get(key), old(contents));
      return None;
    }

    /** Removes the entry the index has under `key`. */
    method RemoveAt(key: K) returns (value: V)
      requires Valid() && key in mCache
      modifies this, repr, mListener
      ensures Stepped(Next(mMaxCapacity, old(contents), Op.Remove(key)))
      ensures Next(mMaxCapacity, old(contents), Op.Remove(key)).result == Some(value)
      ensures log == old(log)
      ensures repr == old(repr)
    {
      hide Next, Indexed, Linked, Stores, Bridged, Beside, OnChain, Drop;
      Located(key);
      DropElements(chain, Find(contents, key));
      NextAt(mMaxCapacity, contents, key);
      ghost var at := Find(contents, key);
      var entry := mCache[key];
      if mListener != null {
        mListener.Call(entry.key, entry.value);
      }
      IndexedDrop(mCache, chain, contents, at);
      mCache := mCache - {key};
      NeighboursAreOwned(at);
      DetachFromCache(entry, at);
      return entry.value;
    }

    method Remove(key: K) returns (value: Option<V>)
      requires Reached()
      modifies this, repr, mListener
      ensures Took(Op.Remove(key), Next(mMaxCapacity, old(contents), Op.Remove(key)))
      ensures value == Next(mMaxCapacity, old(contents), Op.Remove(key)).result
    {
      hide IsRun, Final, Next, Indexed, Linked, Stores;
      Located(key);
      NextAt(mMaxCapacity, contents, key);
      if key in mCache {
        var v := RemoveAt(key);
        Record(Op.Remove(key), old(contents));
        return Some(v);
      }
      Record(Op.Remove(key), old(contents));
      return None;
    }

    method RemoveOldest() returns (value: Option<V>)
      requires Reached()
      modifies this, repr, mListener
      ensures Took(Op.RemoveOldest, TakeOldest(old(contents)))
      ensures value == TakeOldest(old(contents)).result
      ensures repr == old(repr)
    {
      hide IsRun, Final, Next, Indexed, TakeOldest, Find;
      NextElsewhere(mMaxCapacity, contents);
      assert if contents == [] then mOldest == null else mOldest != null && mOldest.key == contents[0].key;
      hide Linked, Stores;
      if mOldest != null {
        Located(mOldest.key);
        assert Has(contents, mOldest.key) by { FirstIsFound(contents); }
        if mOldest.key in mCache {
          var v := RemoveAt(mOldest.key);
          Record(Op.RemoveOldest, old(contents));
          return Some(v);
        }
      }
      Record(Op.RemoveOldest, old(contents));
      return None;
    }

    method Put(key: K, value: V) returns (added: bool)
      requires Reached()
      modifies this, repr, mListener
      ensures Took(Op.Put(key, value), PutStep(mMaxCapacity, old(contents), key, value))
      ensures added == PutStep(mMaxCapacity, old(contents), key, value).ok
    {
      hide IsRun, Final, Next, Indexed, Linked, Stores, Find;
      NextPut(mMaxCapacity, contents, key, value);
      Located(key);
      if mMaxCapacity != UNLIMITED_CAPACITY && |mCache| >= mMaxCapacity {
        var _ := RemoveOldest();
      }
      Located(key);
      added := key !in mCache;
      if added {
        PutNew(key, value);
      }
      log := old(log);
      Record(Op.Put(key, value), old(contents));
    }
  }
}
