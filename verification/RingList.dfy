// The circular doubly linked list: nodes on a ring through a sentinel.
// Ghost fields name the nodes in order and what they hold; each operation is
// proved to be the sequence operation it stands for, on the same node objects.
module RingList {
  import opened Seqs

  class Node<T(0)> {
    var val: T
    var prev: Node<T>
    var next: Node<T>

    // Cleared by `Delete`; the links of a deleted node may not be followed.
    ghost var live: bool

    // The sentinel is raw storage: its value is whatever was there.
    constructor Raw()
      ensures prev == this && next == this && live
    {
      prev, next, live := this, this, true;
      val := *;
    }

    constructor (v: T, before: Node<T>, after: Node<T>)
      ensures val == v && prev == before && next == after && live
    {
      val, prev, next, live := v, before, after, true;
    }

    function GetNext(): Node<T>
      requires live
      reads this
    {
      next
    }

    function GetPrev(): Node<T>
      requires live
      reads this
    {
      prev
    }

    method Delete()
      requires live
      modifies `live
      ensures !live
    {
      live := false;
    }
  }

  function Succ(n: nat, i: nat): nat
    requires i < n
  {
    if i == n - 1 then 0 else i + 1
  }

  function Pred(n: nat, i: nat): nat
    requires i < n
  {
    if i == 0 then n - 1 else i - 1
  }

  // ------------------------------------------ a range insert on its own list

  /** Ring positions of the insertion point and of the two iterators. */
  datatype Cursors = Cursors(posn: nat, first: nat, last: nat)

  /** Where the node at position `i` is after an insertion at `p`. */
  function Moved(p: nat, i: nat): nat {
    if i < p then i else i + 1
  }

  lemma InsertMoves<T>(s: seq<T>, p: nat, x: T, i: nat)
    requires p <= |s| && i < |s|
    ensures |Insert(s, p, x)| == |s| + 1 && Insert(s, p, x)[Moved(p, i)] == s[i]
  {
  }

  /** The cursors after `k` rounds of inserting in front of `posn` and advancing `first`. */
  function OwnRounds(c: Cursors, k: nat): Cursors {
    if k == 0 then c else
      var d := OwnRounds(c, k - 1);
      Cursors(Moved(d.posn, d.posn), Moved(d.posn, d.first) + 1, Moved(d.posn, d.last))
  }

  lemma {:induction false} OwnRoundsGap(c: Cursors, k: nat)
    requires c.first <= c.last
    ensures var d := OwnRounds(c, k);
      if c.first < c.posn <= c.last
      then d.last - d.first == c.last - c.first && d.posn - d.first == c.posn - c.first
      else k <= c.last - c.first ==>
        d.last - d.first == c.last - c.first - k && (d.posn <= d.first || d.last < d.posn)
  {
    if k > 0 {
      OwnRoundsGap(c, k - 1);
    }
  }

  /** The cursors of a range insert on the list itself meet exactly when the insertion point
      does not lie behind the first element and up to the end of the range.  `InsertOwnRange`
      and `InsertOwnRounds` follow them on the nodes in the two cases. */
  lemma OwnRangeEnds(c: Cursors)
    requires c.first <= c.last
    ensures (exists k: nat :: OwnRounds(c, k).first == OwnRounds(c, k).last)
       <==> c.posn <= c.first || c.last < c.posn
  {
    if c.first < c.posn <= c.last {
      forall k: nat ensures OwnRounds(c, k).first != OwnRounds(c, k).last {
        OwnRoundsGap(c, k);
      }
    } else {
      OwnRoundsGap(c, c.last - c.first);
    }
  }

  // ------------------------------------------------------------- the list

  class List<T(0)> {
    var middle: Node<T>

    // The nodes once around, the sentinel `middle` last; and the values of the others.
    ghost var ring: seq<Node<T>>
    ghost var contents: seq<T>
    ghost var repr: set<Node<T>>

    static ghost predicate LinkedAt(r: seq<Node<T>>, i: nat)
      requires i < |r|
      reads r`prev, r`next
    {
      r[i].next == r[Succ(|r|, i)] && r[i].prev == r[Pred(|r|, i)]
    }

    /** The sentinel closes the ring `r` and occurs in it once; all nodes are in `owned`. */
    static ghost predicate Shaped(r: seq<Node<T>>, m: Node<T>, owned: set<Node<T>>) {
      && |r| > 0 && m == r[|r| - 1]
      && (forall i :: 0 <= i < |r| ==> r[i] in owned)
      && (forall i :: 0 <= i < |r| - 1 ==> r[i] != m)
    }

    ghost predicate Ring()
      reads `ring, `middle, `repr, repr`prev, repr`next
    {
      && Shaped(ring, middle, repr)
      && (forall i :: 0 <= i < |ring| ==> LinkedAt(ring, i))
    }

    /** Nothing but the ring is held on to, and nothing held on to has been deleted. */
    static ghost predicate Owned(r: seq<Node<T>>, owned: set<Node<T>>)
      reads owned`live
    {
      && |owned| == |r|
      && (forall n :: n in owned ==> n.live)
    }

    /** The nodes of the ring `r`, all but the sentinel, hold `s`. */
    static ghost predicate Stores(r: seq<Node<T>>, s: seq<T>)
      reads r`val
    {
      && |s| == |r| - 1
      && (forall i :: 0 <= i < |s| ==> r[i].val == s[i])
    }

    ghost predicate Valid()
      reads `ring, `contents, `middle, `repr, repr
    {
      Ring() && Owned(ring, repr) && Stores(ring, contents)
    }

    lemma {:induction false} RingIsInjective(i: nat, j: nat)
      requires Ring() && i < j < |ring|
      ensures ring[i] != ring[j]
    {
      assert LinkedAt(ring, i) && LinkedAt(ring, j);
      if j < |ring| - 1 && i > 0 {
        RingIsInjective(i - 1, j - 1);
      }
    }

    lemma OccursOnce(k: nat)
      requires Valid() && k < |ring|
      ensures forall i :: 0 <= i < |ring| && i != k ==> ring[i] != ring[k]
    {
      forall i | 0 <= i < |ring| && i != k ensures ring[i] != ring[k] {
        if i < k { RingIsInjective(i, k); } else { RingIsInjective(k, i); }
      }
    }

    lemma Sizes()
      requires Valid()
      ensures |ring| == |contents| + 1 && ring[|ring| - 1] == middle
    {
    }

    lemma LiveAt(i: nat)
      requires Valid() && i < |ring|
      ensures ring[i].live && ring[i] in repr
      ensures ring[i].next == ring[Succ(|ring|, i)] && ring[i].prev == ring[Pred(|ring|, i)]
      ensures |contents| == |ring| - 1 && (i < |contents| ==> ring[i].val == contents[i])
    {
      assert LinkedAt(ring, i);
    }

    constructor ()
      ensures Valid() && contents == [] && fresh(repr)
    {
      middle := new Node<T>.Raw();
      contents := [];
      new;
      ring, repr := [middle], {middle};
    }

    /** `r[j]` is linked as in the ring `r`, with `x` in front of `r[at]`. */
    static ghost predicate SplicedAt(r: seq<Node<T>>, at: nat, x: Node<T>, j: nat)
      requires at < |r| && j < |r|
      reads r`prev, r`next
    {
      && r[j].next == (if Succ(|r|, j) == at then x else r[Succ(|r|, j)])
      && r[j].prev == (if j == at then x else r[Pred(|r|, j)])
    }

    static lemma SplicedIsLinked(r: seq<Node<T>>, at: nat, x: Node<T>)
      requires at < |r| && forall j :: 0 <= j < |r| ==> SplicedAt(r, at, x, j)
      requires x.next == r[at] && x.prev == r[Pred(|r|, at)]
      ensures forall i :: 0 <= i < |Insert(r, at, x)| ==> LinkedAt(Insert(r, at, x), i)
    {
      hide Insert;
      InsertElements(r, at, x);
      forall i | 0 <= i <= |r| ensures LinkedAt(Insert(r, at, x), i) {
        assert i < at ==> SplicedAt(r, at, x, i);
        assert i > at ==> SplicedAt(r, at, x, i - 1);
      }
    }

    /** What `InsertNode` has to show apart from the links. */
    static lemma InsertKeeps(r: seq<Node<T>>, m: Node<T>, owned: set<Node<T>>, s: seq<T>, at: nat, x: Node<T>)
      requires Shaped(r, m, owned) && Owned(r, owned) && Stores(r, s) && at < |r|
      requires x !in owned && x.live
      ensures Shaped(Insert(r, at, x), m, owned + {x}) && Owned(Insert(r, at, x), owned + {x})
      ensures at <= |s| && Stores(Insert(r, at, x), Insert(s, at, x.val))
    {
      hide Insert;
      InsertElements(r, at, x);
      InsertElements(s, at, x.val);
    }

    method InsertNode(posn: Node<T>, val: T, ghost at: nat) returns (newNode: Node<T>)
      requires Valid() && at < |ring| && posn == ring[at]
      modifies `ring, `contents, `repr, repr`prev, repr`next
      ensures Valid() && fresh(newNode) && repr == old(repr) + {newNode}
      ensures ring == Insert(old(ring), at, newNode)
      ensures contents == Insert(old(contents), at, val)
    {
      hide Insert, Shaped, Owned, Stores;
      LiveAt(at);
      LiveAt(Pred(|ring|, at));
      OccursOnce(at);
      OccursOnce(Pred(|ring|, at));
      newNode := new Node<T>(val, posn.GetPrev(), posn);
      InsertKeeps(ring, middle, repr, contents, at, newNode);
      posn.GetPrev().next := newNode;
      posn.prev := newNode;
      forall j | 0 <= j < |ring| ensures SplicedAt(ring, at, newNode, j) {
        assert old(LinkedAt(ring, j));
      }
      SplicedIsLinked(ring, at, newNode);
      ring := Insert(ring, at, newNode);
      contents := Insert(contents, at, val);
      repr := repr + {newNode};
    }

    /** `r[j]` is linked as in the ring `r` without `r[at]`. */
    static ghost predicate BypassedAt(r: seq<Node<T>>, at: nat, j: nat)
      requires at < |r| && j < |r|
      reads r`prev, r`next
    {
      && r[j].next == (if Succ(|r|, j) == at then r[Succ(|r|, at)] else r[Succ(|r|, j)])
      && r[j].prev == (if Pred(|r|, j) == at then r[Pred(|r|, at)] else r[Pred(|r|, j)])
    }

    static lemma BypassedIsLinked(r: seq<Node<T>>, at: nat)
      requires at < |r| - 1 && forall j :: 0 <= j < |r| && j != at ==> BypassedAt(r, at, j)
      ensures forall i :: 0 <= i < |Drop(r, at)| ==> LinkedAt(Drop(r, at), i)
    {
      hide Drop;
      DropElements(r, at);
      forall i | 0 <= i < |r| - 1 ensures LinkedAt(Drop(r, at), i) {
        assert BypassedAt(r, at, if i < at then i else i + 1);
      }
    }

    static lemma EraseKeeps(r: seq<Node<T>>, m: Node<T>, owned: set<Node<T>>, s: seq<T>, at: nat, x: Node<T>)
      requires Shaped(r, m, owned) && Owned(r, owned) && Stores(r, s) && at < |s| && x == r[at]
      requires forall i :: 0 <= i < |r| && i != at ==> r[i] != r[at]
      ensures Shaped(Drop(r, at), m, owned - {x}) && Owned(Drop(r, at), owned - {x})
      ensures Stores(Drop(r, at), Drop(s, at))
    {
      hide Drop;
      DropElements(r, at);
      DropElements(s, at);
    }

    method EraseNode(posn: Node<T>, ghost at: nat) returns (next: Node<T>)
      requires Valid() && at < |contents| && posn == ring[at]
      modifies `ring, `contents, `repr, repr`prev, repr`next, posn`live
      ensures Valid() && repr == old(repr) - {posn} && !posn.live
      ensures ring == Drop(old(ring), at)
      ensures contents == Drop(old(contents), at)
      ensures next == old(ring)[at + 1]
    {
      hide Drop, Shaped, Owned, Stores;
      Sizes();
      LiveAt(at);
      LiveAt(Pred(|ring|, at));
      LiveAt(Succ(|ring|, at));
      OccursOnce(at);
      OccursOnce(Pred(|ring|, at));
      OccursOnce(Succ(|ring|, at));
      EraseKeeps(ring, middle, repr, contents, at, posn);
      var pNext := posn.GetNext();
      var pPrev := posn.GetPrev();
      pPrev.next := pNext;
      pNext.prev := pPrev;
      forall j | 0 <= j < |ring| && j != at ensures BypassedAt(ring, at, j) {
        assert old(LinkedAt(ring, j));
      }
      BypassedIsLinked(ring, at);
      assert Owned(Drop(ring, at), repr - {posn});
      posn.Delete();
      ring := Drop(ring, at);
      contents := Drop(contents, at);
      repr := repr - {posn};
      return pNext;
    }

    /** Steps from `first` to `last`, once around the ring if `last` comes first. */
    method Distance(first: Node<T>, last: Node<T>, ghost f: nat, ghost l: nat) returns (count: nat)
      requires Valid() && f < |ring| && l < |ring| && first == ring[f] && last == ring[l]
      ensures count == if f <= l then l - f else |ring| - f + l
    {
      count := 0;
      var it := first;
      ghost var k: nat := f;
      OccursOnce(l);
      while it != last
        invariant 0 <= k < |ring| && it == ring[k]
        invariant count == if f <= k then k - f else |ring| - f + k
        invariant f <= l ==> f <= k <= l
        invariant l < f ==> f <= k || k <= l
        decreases if k <= l then l - k else |ring| + l - k
      {
        assert LinkedAt(ring, k) && it.live;
        it := it.GetNext();
        k := Succ(|ring|, k);
        count := count + 1;
      }
    }

    method Size() returns (n: nat)
      requires Valid()
      ensures n == |contents|
    {
      assert LinkedAt(ring, |ring| - 1) && middle.live;
      n := Distance(middle.GetNext(), middle, 0, |ring| - 1);
    }

    /** Erases from `first` up to `last`; each node is stepped over before it is deleted. */
    method EraseRange(first: Node<T>, last: Node<T>, ghost f: nat, ghost l: nat) returns (next: Node<T>)
      requires Valid() && f <= l < |ring| && first == ring[f] && last == ring[l]
      modifies `ring, `contents, `repr, repr`prev, repr`next, repr`live
      ensures Valid() && repr <= old(repr) && next == last
      ensures ring == Cut(old(ring), f, l)
      ensures contents == Cut(old(contents), f, l)
      ensures forall n :: n in old(repr) && n !in repr ==> !n.live
    {
      hide Cut, Drop, Valid;
      Sizes();
      OccursOnce(l);
      CutNothing(ring, f);
      CutNothing(contents, f);
      var it := first;
      ghost var k := f;
      while it != last
        invariant f <= k <= l && it == old(ring)[k]
        invariant Valid() && repr <= old(repr)
        invariant ring == Cut(old(ring), f, k)
        invariant contents == Cut(old(contents), f, k)
        invariant forall n :: n in old(repr) && n !in repr ==> !n.live
        decreases l - k
      {
        CutOneMore(old(ring), f, k);
        CutOneMore(old(contents), f, k);
        LiveAt(f);
        var erased := it;
        it := it.GetNext();
        var _ := EraseNode(erased, f);
        k := k + 1;
      }
      return last;
    }

    /** Copies the values from `first` up to `last` of another list in front of `posn`. */
    method InsertRange(posn: Node<T>, src: List<T>, first: Node<T>, last: Node<T>,
                       ghost p: nat, ghost f: nat, ghost l: nat) returns (ghost added: seq<Node<T>>)
      requires Valid() && src.Valid() && src != this && src.repr !! repr
      requires p < |ring| && posn == ring[p]
      requires f <= l < |src.ring| && first == src.ring[f] && last == src.ring[l]
      modifies `ring, `contents, `repr, repr`prev, repr`next
      ensures Valid() && old(repr) <= repr && fresh(repr - old(repr))
      ensures |added| == l - f && ring == Splice(old(ring), p, added)
      ensures p <= |old(contents)| && l <= |src.contents|
      ensures contents == Splice(old(contents), p, src.contents[f..l])
    {
      hide Insert, Splice, Valid;
      Sizes();
      src.Sizes();
      src.OccursOnce(l);
      src.LiveAt(l);
      LiveAt(p);
      added := [];
      var it := first;
      ghost var k := f;
      SpliceNothing(ring, p);
      SpliceNothing(contents, p);
      assert src.contents[f..f] == [];
      while it != last
        invariant f <= k <= l && it == src.ring[k]
        invariant Valid() && old(repr) <= repr && fresh(repr - old(repr)) && src.Valid()
        invariant |added| == k - f && ring == Splice(old(ring), p, added)
        invariant contents == Splice(old(contents), p, src.contents[f..k])
        decreases l - k
      {
        SpliceOneMore(old(contents), p, src.contents[f..k], src.contents[k]);
        assert src.contents[f..k] + [src.contents[k]] == src.contents[f..k + 1];
        ghost var at := p + |added|;
        SpliceAt(old(ring), p, added, p);
        src.LiveAt(k);
        var node := InsertNode(posn, it.val, at);
        SpliceOneMore(old(ring), p, added, node);
        added := added + [node];
        it := it.GetNext();
        k := k + 1;
      }
    }

    /** The same call on the list's own range.  It ends only when `posn` does not lie
        behind `first` and up to `last`: see `OwnRangeEnds`. */
    method InsertOwnRange(posn: Node<T>, first: Node<T>, last: Node<T>,
                          ghost p: nat, ghost f: nat, ghost l: nat) returns (ghost added: seq<Node<T>>)
      requires Valid() && p < |ring| && posn == ring[p]
      requires f <= l < |ring| && first == ring[f] && last == ring[l]
      requires p <= f || l < p
      modifies `ring, `contents, `repr, repr`prev, repr`next
      ensures Valid() && old(repr) <= repr && fresh(repr - old(repr))
      ensures |added| == l - f && ring == Splice(old(ring), p, added)
      ensures p <= |old(contents)| && l <= |old(contents)|
      ensures contents == Splice(old(contents), p, old(contents)[f..l])
    {
      hide Insert, Splice, Valid;
      Sizes();
      OccursOnce(l);
      LiveAt(l);
      added := [];
      var it := first;
      ghost var k := f;
      ghost var r0, c0 := ring, contents;
      SpliceNothing(ring, p);
      SpliceNothing(contents, p);
      assert c0[f..f] == [];
      while it != last
        invariant f <= k <= l && it == r0[k]
        invariant Valid() && old(repr) <= repr && fresh(repr - old(repr))
        invariant |added| == k - f && ring == Splice(r0, p, added)
        invariant contents == Splice(c0, p, c0[f..k])
        decreases l - k
      {
        SpliceOneMore(c0, p, c0[f..k], c0[k]);
        assert c0[f..k] + [c0[k]] == c0[f..k + 1];
        SpliceAt(r0, p, added, p);
        SpliceAt(r0, p, added, k);
        SpliceAt(c0, p, c0[f..k], k);
        LiveAt(if k < p then k else k + |added|);
        var node := InsertNode(posn, it.val, p + |added|);
        SpliceOneMore(r0, p, added, node);
        added := added + [node];
        SpliceAt(r0, p, added, k);
        SpliceAt(r0, p, added, k + 1);
        LiveAt(if k < p then k else k + |added|);
        it := it.GetNext();
        k := k + 1;
      }
    }

    /** The same loop where it does not end: after any number of rounds `it` has not reached
        `last`, the list has grown by a node a round, and the cursors are where `OwnRounds`
        says they are. */
    method InsertOwnRounds(posn: Node<T>, first: Node<T>, last: Node<T>, ghost c: Cursors, rounds: nat)
      returns (it: Node<T>)
      requires Valid() && c.first < c.posn <= c.last < |ring|
      requires posn == ring[c.posn] && first == ring[c.first] && last == ring[c.last]
      modifies `ring, `contents, `repr, repr`prev, repr`next
      ensures Valid() && it != last && |ring| == |old(ring)| + rounds
      ensures var d := OwnRounds(c, rounds);
        && d.first < d.posn <= d.last < |ring|
        && posn == ring[d.posn] && it == ring[d.first] && last == ring[d.last]
    {
      hide Insert, Valid;
      it := first;
      var i := 0;
      while i < rounds
        invariant 0 <= i <= rounds && Valid() && fresh(repr - old(repr))
        invariant |ring| == |old(ring)| + i
        invariant var d := OwnRounds(c, i);
          && d.first < d.posn <= d.last < |ring|
          && posn == ring[d.posn] && it == ring[d.first] && last == ring[d.last]
      {
        ghost var d, r := OwnRounds(c, i), ring;
        OwnRoundsGap(c, i + 1);
        LiveAt(d.first);
        var node := InsertNode(posn, it.val, d.posn);
        InsertMoves(r, d.posn, node, d.posn);
        InsertMoves(r, d.posn, node, d.first);
        InsertMoves(r, d.posn, node, d.last);
        LiveAt(d.first);
        it := it.GetNext();
        i := i + 1;
      }
      OccursOnce(OwnRounds(c, rounds).last);
    }

    lemma AllDistinct()
      requires Valid()
      ensures forall i, j :: 0 <= i < j < |ring| ==> ring[i] != ring[j]
    {
      forall i, j | 0 <= i < j < |ring| ensures ring[i] != ring[j] {
        OccursOnce(i);
      }
    }

    /** Deletes every node but the sentinel without mending the links in between. */
    method Clear()
      requires Valid()
      modifies `ring, `contents, `repr, repr`prev, repr`next, repr`live
      ensures Valid() && contents == [] && middle == old(middle) && repr == {middle}
      ensures forall n :: n in old(repr) && n != middle ==> !n.live
    {
      Sizes();
      AllDistinct();
      LiveAt(|ring| - 1);
      var pCurrent := middle.GetNext();
      ghost var k: nat := 0;
      ghost var left := repr;
      while pCurrent != middle
        invariant 0 <= k < |ring| && pCurrent == ring[k]
        invariant left <= repr && |left| == |ring| - k
        invariant forall i :: k <= i < |ring| ==> ring[i] in left
        invariant forall n :: n in repr ==> n.live == (n in left)
        decreases |ring| - k
        modifies repr`live
      {
        assert LinkedAt(ring, k);
        var pNext := pCurrent.GetNext();
        pCurrent.Delete();
        left := left - {pCurrent};
        pCurrent := pNext;
        k := k + 1;
      }
      assert |left - {middle}| == 0;
      assert left == {middle};
      middle.prev := middle;
      middle.next := middle;
      ring, contents, repr := [middle], [], {middle};
    }

    /** The destructor leaves nothing allocated. */
    method Destroy()
      requires Valid()
      modifies `ring, `contents, `repr, repr`prev, repr`next, repr`live
      ensures forall n :: n in old(repr) ==> !n.live
    {
      Clear();
      middle.Delete();
    }

    constructor Copy(src: List<T>)
      requires src.Valid()
      ensures Valid() && fresh(repr) && contents == src.contents
    {
      middle := new Node<T>.Raw();
      contents := [];
      new;
      ring, repr := [middle], {middle};
      src.Sizes();
      src.LiveAt(|src.ring| - 1);
      var _ := InsertRange(middle, src, src.middle.GetNext(), src.middle, 0, 0, |src.ring| - 1);
      assert src.contents[0..|src.contents|] == src.contents;
    }

    /** Assignment through an iterator. */
    method SetAt(posn: Node<T>, val: T, ghost at: nat)
      requires Valid() && at < |contents| && posn == ring[at]
      modifies `contents, repr`val
      ensures Valid() && contents == old(contents)[at := val]
    {
      Sizes();
      OccursOnce(at);
      posn.val := val;
      contents := contents[at := val];
    }

    /** The loop of `operator=`: overwrites values until either list ends. */
    method OverwritePrefix(right: List<T>, firstDst: Node<T>, firstSrc: Node<T>)
      returns (dst: Node<T>, src: Node<T>, ghost k: nat)
      requires Valid() && right.Valid() && right != this && right.repr !! repr
      requires firstDst == ring[0] && firstSrc == right.ring[0]
      modifies `contents, repr`val
      ensures Valid() && right.Valid()
      ensures k <= |right.contents| && k <= |old(contents)|
      ensures k == |right.contents| || k == |old(contents)|
      ensures dst == ring[k] && src == right.ring[k]
      ensures contents == Overwrite(old(contents), right.contents, k)
    {
      hide Valid, Overwrite;
      OverwriteNothing(contents, right.contents);
      Sizes();
      right.Sizes();
      OccursOnce(|ring| - 1);
      right.OccursOnce(|right.ring| - 1);
      dst, src, k := firstDst, firstSrc, 0;
      while src != right.middle && dst != middle
        invariant k < |ring| && k < |right.ring|
        invariant dst == ring[k] && src == right.ring[k]
        invariant Valid() && right.Valid()
        invariant contents == Overwrite(old(contents), right.contents, k)
        decreases |ring| - k
      {
        LiveAt(k);
        right.LiveAt(k);
        OverwriteOneMore(old(contents), right.contents, k);
        SetAt(dst, src.val, k);
        LiveAt(k);
        dst := dst.GetNext();
        src := src.GetNext();
        k := k + 1;
      }
    }

    /** `operator=`: overwrites the common prefix in place, then erases or appends the rest. */
    method Assign(right: List<T>)
      requires Valid() && right.Valid() && (right == this || right.repr !! repr)
      modifies `ring, `contents, `repr, repr
      ensures Valid() && contents == old(right.contents) && middle == old(middle)
      ensures right != this ==> right.Valid()
      ensures forall i :: 0 <= i < |contents| && i < |old(contents)| ==> ring[i] == old(ring)[i]
      ensures fresh(repr - old(repr))
      ensures forall n :: n in old(repr) && n !in repr ==> !n.live
    {
      hide Valid, Cut, Splice;
      if this == right {
        return;
      }
      Sizes();
      right.Sizes();
      LiveAt(|ring| - 1);
      right.LiveAt(|right.ring| - 1);
      var dst, src, k := OverwritePrefix(right, middle.GetNext(), right.middle.GetNext());
      OccursOnce(|ring| - 1);
      right.OccursOnce(|right.ring| - 1);
      ghost var r, c := ring, contents;
      if src == right.middle {
        CutEnd(r, k, |c|);
        CutEnd(c, k, |c|);
        var _ := EraseRange(dst, middle, k, |c|);
        assert c[..k] == right.contents;
      } else {
        ghost var added := InsertRange(middle, right, src, right.middle, k, k, |right.contents|);
        SpliceEnd(r, k, added);
        SpliceEnd(c, k, right.contents[k..]);
        assert c == right.contents[..k];
        assert c + right.contents[k..] == right.contents;
        assert right.contents[k..] == right.contents[k..|right.contents|];
      }
      forall i | 0 <= i < |contents| && i < |old(contents)| ensures ring[i] == old(ring)[i] {
        assert ring[i] == ring[..k][i];
      }
    }
  }
}
