// `BitSet32`, and the positions that `Movement` packs by rank in such a set.
// A 32-bit word is its bits, most significant first; the bitwise operators and
// the logical shift act on them one by one.
module BitSet {

  const WIDTH: nat := 32

  type Word = w: seq<bool> | |w| == WIDTH witness Repeat(false, WIDTH)

  function Repeat(b: bool, n: nat): (s: seq<bool>)
    ensures |s| == n && forall i :: 0 <= i < n ==> s[i] == b
  {
    if n == 0 then [] else [b] + Repeat(b, n - 1)
  }

  // 0, 0xffffffff and 0x80000000.
  const ZERO: Word := Repeat(false, WIDTH)
  const ONES: Word := Repeat(true, WIDTH)
  const TOP: Word := [true] + Repeat(false, WIDTH - 1)

  function And(a: Word, b: Word): Word {
    seq(WIDTH, i requires 0 <= i < WIDTH => a[i] && b[i])
  }

  function Or(a: Word, b: Word): Word {
    seq(WIDTH, i requires 0 <= i < WIDTH => a[i] || b[i])
  }

  function Not(a: Word): Word {
    seq(WIDTH, i requires 0 <= i < WIDTH => !a[i])
  }

  function ShiftRight(a: Word, n: nat): Word
    requires n < WIDTH
  {
    seq(WIDTH, i requires 0 <= i < WIDTH => i >= n && a[i - n])
  }

  // ------------------------------------------------------------- builtins

  // `__builtin_popcount`.
  function Popcount(bits: seq<bool>): nat {
    if bits == [] then 0 else Popcount(bits[..|bits| - 1]) + if bits[|bits| - 1] then 1 else 0
  }

  // `__builtin_clz`: the zero bits in front of the first one bit.
  function Clz(bits: seq<bool>): (n: nat)
    requires true in bits
    ensures n < |bits| && bits[n] && forall i :: 0 <= i < n ==> !bits[i]
  {
    if bits[0] then 0 else 1 + Clz(bits[1..])
  }

  // `__builtin_ctz`: the zero bits behind the last one bit.
  function Ctz(bits: seq<bool>): (n: nat)
    requires true in bits
    ensures n < |bits| && bits[|bits| - 1 - n] && forall i :: |bits| - 1 - n < i < |bits| ==> !bits[i]
  {
    if bits[|bits| - 1] then 0 else 1 + Ctz(bits[..|bits| - 1])
  }

  // ------------------------------------------------------------- the set

  function Members(bits: seq<bool>): set<nat> {
    set n: nat | n < |bits| && bits[n]
  }

  function ValueForBit(n: nat): Word
    requires n < WIDTH
  {
    ShiftRight(TOP, n)
  }

  lemma OnlyBit(n: nat)
    requires n < WIDTH
    ensures Members(ValueForBit(n)) == {n}
    ensures forall i :: 0 <= i < WIDTH ==> ValueForBit(n)[i] == (i == n)
  {
    assert ValueForBit(n)[n];
  }

  lemma {:induction false} PopcountIsSize(bits: seq<bool>)
    ensures Popcount(bits) == |Members(bits)|
  {
    if bits != [] {
      var front := bits[..|bits| - 1];
      PopcountIsSize(front);
      if bits[|bits| - 1] {
        assert Members(bits) == Members(front) + {|bits| - 1};
      } else {
        assert Members(bits) == Members(front);
      }
    }
  }

  lemma SomeMember(v: Word)
    ensures true in v <==> v != ZERO
    ensures v != ZERO <==> Members(v) != {}
    ensures v != ONES <==> true in Not(v)
  {
    if v != ZERO {
      var n :| 0 <= n < WIDTH && v[n] != ZERO[n];
      assert n in Members(v);
    }
    if v != ONES {
      var n :| 0 <= n < WIDTH && v[n] != ONES[n];
      assert Not(v)[n];
    }
    if true in Not(v) {
      var n :| 0 <= n < WIDTH && Not(v)[n];
      assert v[n] != ONES[n];
    }
  }

  /** The marked bits in front of `n`, as the source counts them. */
  function Rank(v: Word, n: nat): nat
    requires n < WIDTH
  {
    Popcount(And(v, Not(ShiftRight(ONES, n))))
  }

  function Below(s: set<nat>, n: nat): set<nat> {
    set m | m in s && m < n
  }

  lemma RankIsCountBefore(v: Word, n: nat)
    requires n < WIDTH
    ensures Rank(v, n) == |Below(Members(v), n)|
  {
    var w := And(v, Not(ShiftRight(ONES, n)));
    PopcountIsSize(w);
    assert Members(w) == Below(Members(v), n);
  }

  lemma TestBit(v: Word, n: nat)
    requires n < WIDTH
    ensures And(v, ValueForBit(n)) != ZERO <==> v[n]
  {
    hide ValueForBit;
    OnlyBit(n);
    var w := And(v, ValueForBit(n));
    assert w[n] == v[n];
    if !v[n] {
      assert forall i :: 0 <= i < WIDTH ==> w[i] == ZERO[i];
    }
  }

  class BitSet32 {
    var value: Word

    ghost function Marked(): set<nat>
      reads this
    {
      Members(value)
    }

    constructor ()
      ensures Marked() == {}
    {
      value := ZERO;
    }

    method Clear()
      modifies this
      ensures Marked() == {}
    {
      value := ZERO;
    }

    method Count() returns (n: nat)
      ensures n == |Marked()|
    {
      PopcountIsSize(value);
      n := Popcount(value);
    }

    method IsEmpty() returns (b: bool)
      ensures b == (Marked() == {})
    {
      SomeMember(value);
      b := value == ZERO;
    }

    method IsFull() returns (b: bool)
      ensures b == (forall n: nat :: n < WIDTH ==> n in Marked())
    {
      b := value == ONES;
      if !b {
        SomeMember(value);
        assert Clz(Not(value)) !in Marked();
      }
    }

    method HasBit(n: nat) returns (b: bool)
      requires n < WIDTH
      ensures b == (n in Marked())
    {
      TestBit(value, n);
      b := And(value, ValueForBit(n)) != ZERO;
    }

    method MarkBit(n: nat)
      requires n < WIDTH
      modifies this
      ensures Marked() == old(Marked()) + {n}
    {
      OnlyBit(n);
      value := Or(value, ValueForBit(n));
    }

    method ClearBit(n: nat)
      requires n < WIDTH
      modifies this
      ensures Marked() == old(Marked()) - {n}
    {
      OnlyBit(n);
      value := And(value, Not(ValueForBit(n)));
    }

    method FirstMarkedBit() returns (n: nat)
      requires Marked() != {}
      ensures n in Marked() && forall m :: m in Marked() ==> n <= m
    {
      SomeMember(value);
      n := Clz(value);
    }

    method FirstUnmarkedBit() returns (n: nat)
      requires exists m: nat :: m < WIDTH && m !in Marked()
      ensures n < WIDTH && n !in Marked() && forall m: nat :: m < n ==> m in Marked()
    {
      SomeMember(value);
      n := Clz(Not(value));
      forall m: nat | m < n ensures m in Marked() {
        assert !Not(value)[m];
      }
    }

    method LastMarkedBit() returns (n: nat)
      requires Marked() != {}
      ensures n in Marked() && forall m :: m in Marked() ==> m <= n
    {
      SomeMember(value);
      n := 31 - Ctz(value);
    }

    method ClearFirstMarkedBit() returns (n: nat)
      requires Marked() != {}
      modifies this
      ensures n in old(Marked()) && (forall m :: m in old(Marked()) ==> n <= m)
      ensures Marked() == old(Marked()) - {n}
    {
      n := FirstMarkedBit();
      ClearBit(n);
    }

    /** Allocates the least free index. */
    method MarkFirstUnmarkedBit() returns (n: nat)
      requires exists m: nat :: m < WIDTH && m !in Marked()
      modifies this
      ensures n < WIDTH && n !in old(Marked()) && (forall m: nat :: m < n ==> m in old(Marked()))
      ensures Marked() == old(Marked()) + {n}
    {
      n := FirstUnmarkedBit();
      MarkBit(n);
    }

    method ClearLastMarkedBit() returns (n: nat)
      requires Marked() != {}
      modifies this
      ensures n in old(Marked()) && (forall m :: m in old(Marked()) ==> m <= n)
      ensures Marked() == old(Marked()) - {n}
    {
      n := LastMarkedBit();
      ClearBit(n);
    }

    method GetIndexOfBit(n: nat) returns (index: nat)
      requires n < WIDTH
      ensures index == Rank(value, n) == |Below(Marked(), n)|
    {
      RankIsCountBefore(value, n);
      index := Popcount(And(value, Not(ShiftRight(ONES, n))));
    }
  }

  // ------------------------------------------------------------- select

  function Elements(s: seq<nat>): set<nat> {
    set n | n in s
  }

  /** What clearing the first marked bit until none is left returns. */
  function Enumerate(v: Word): seq<nat>
    decreases Popcount(v)
  {
    if v == ZERO then []
    else
      FirstLeaves(v);
      [Clz(v)] + Enumerate(And(v, Not(ValueForBit(Clz(v)))))
  }

  lemma FirstLeaves(v: Word)
    requires v != ZERO
    ensures true in v
    ensures var n, w := Clz(v), And(v, Not(ValueForBit(Clz(v))));
      && Members(w) == Members(v) - {n} && n in Members(v)
      && Popcount(w) == Popcount(v) - 1
  {
    SomeMember(v);
    var n, w := Clz(v), And(v, Not(ValueForBit(Clz(v))));
    OnlyBit(n);
    assert Members(w) == Members(v) - {n};
    PopcountIsSize(v);
    PopcountIsSize(w);
  }

  lemma FirstIsLeast(v: Word)
    requires true in v
    ensures forall m :: m in Members(v) ==> Clz(v) <= m
  {
  }

  ghost predicate Increasing(s: seq<nat>) {
    forall i, j :: 0 <= i < j < |s| ==> s[i] < s[j]
  }

  lemma IncreasingCons(n: nat, s: seq<nat>)
    requires Increasing(s) && forall m :: m in Elements(s) ==> n < m
    ensures Increasing([n] + s) && Elements([n] + s) == {n} + Elements(s)
  {
    assert forall i :: 0 <= i < |s| ==> s[i] in Elements(s);
  }

  /** One round: the first marked index, and then the rest without it. */
  lemma EnumerateUnfolds(v: Word) returns (n: nat, w: Word)
    requires v != ZERO
    ensures Enumerate(v) == [n] + Enumerate(w) && Popcount(w) == Popcount(v) - 1
    ensures n in Members(v) && Members(w) == Members(v) - {n}
    ensures forall m :: m in Members(w) ==> n < m
  {
    FirstLeaves(v);
    FirstIsLeast(v);
    n, w := Clz(v), And(v, Not(ValueForBit(Clz(v))));
  }

  /** The loop visits the marked indices in increasing order, in `count()` rounds. */
  lemma {:induction false} EnumerateIsSorted(v: Word)
    ensures |Enumerate(v)| == Popcount(v) == |Members(v)|
    ensures Elements(Enumerate(v)) == Members(v) && Increasing(Enumerate(v))
    decreases Popcount(v)
  {
    hide Clz, Enumerate, Popcount, Members, Elements, Increasing;
    PopcountIsSize(v);
    if v == ZERO {
      NothingToEnumerate();
    } else {
      var n, w := EnumerateUnfolds(v);
      EnumerateIsSorted(w);
      IncreasingCons(n, Enumerate(w));
      assert {n} + (Members(v) - {n}) == Members(v);
    }
  }

  lemma NothingToEnumerate()
    ensures Enumerate(ZERO) == [] && Members(ZERO) == Elements([]) == {} && Increasing([])
  {
  }

  /** The loop itself: clear the first marked bit until the set is empty. */
  method Drain(b: BitSet32) returns (ids: seq<nat>)
    modifies b
    ensures b.Marked() == {}
    ensures ids == Enumerate(old(b.value))
    ensures Increasing(ids) && Elements(ids) == old(b.Marked()) && |ids| == |old(b.Marked())|
  {
    hide Enumerate, Members, Increasing, Elements;
    ids := [];
    EnumerateIsSorted(b.value);
    var empty := b.IsEmpty();
    while !empty
      invariant empty == (b.Marked() == {})
      invariant Enumerate(old(b.value)) == ids + Enumerate(b.value)
      decreases |b.Marked()|
    {
      SomeMember(b.value);
      ghost var n, w := EnumerateUnfolds(b.value);
      ghost var before := b.Marked();
      var first := b.ClearFirstMarkedBit();
      LeastIsUnique(before, n, first);
      SameMembers(b.value, w);
      assert ids + ([first] + Enumerate(w)) == ids + [first] + Enumerate(w);
      ids := ids + [first];
      empty := b.IsEmpty();
    }
    SomeMember(b.value);
    NothingToEnumerate();
  }

  lemma LeastIsUnique(s: set<nat>, n: nat, first: nat)
    requires n in s && forall m :: m in s - {n} ==> n < m
    requires first in s && forall m :: m in s ==> first <= m
    ensures first == n
  {
    assert first == n || first in s - {n};
  }

  lemma SameMembers(v: Word, w: Word)
    ensures Members(v) == Members(w) ==> v == w
  {
    if Members(v) == Members(w) {
      forall i | 0 <= i < WIDTH ensures v[i] == w[i] {
        assert v[i] <==> i in Members(v);
        assert w[i] <==> i in Members(w);
      }
    }
  }

  /** Rank never falls, and rises behind a marked index. */
  lemma RankGrows(v: Word, a: nat, b: nat)
    requires a < b < WIDTH
    ensures Rank(v, a) <= Rank(v, b)
    ensures a in Members(v) <==> Rank(v, a) < Rank(v, a + 1)
    ensures a in Members(v) ==> Rank(v, a) < Rank(v, b)
  {
    hide Rank;
    RankIsCountBefore(v, a);
    RankIsCountBefore(v, a + 1);
    RankIsCountBefore(v, b);
    var s := Members(v);
    assert Below(s, a + 1) == if a in s then Below(s, a) + {a} else Below(s, a);
    assert Below(s, b) == Below(s, a + 1) + (Below(s, b) - Below(s, a + 1));
  }

  /** Rank inverts the enumeration. */
  lemma RankInvertsEnumerate(v: Word, k: nat)
    requires k < |Enumerate(v)|
    ensures Enumerate(v)[k] < WIDTH && Rank(v, Enumerate(v)[k]) == k
  {
    hide Enumerate, Rank, Members, Elements, Below;
    var e := Enumerate(v);
    EnumerateIsSorted(v);
    ElementOf(e, k);
    MemberBound(v, e[k]);
    RankIsCountBefore(v, e[k]);
    BelowIsPrefix(e, e[k], k);
    SortedSize(e[..k]);
  }

  lemma MemberBound(v: Word, n: nat)
    requires n in Members(v)
    ensures n < WIDTH
  {
  }

  lemma {:induction false} SortedSize(s: seq<nat>)
    requires Increasing(s)
    ensures |Elements(s)| == |s|
  {
    if s != [] {
      var n := |s| - 1;
      SortedSize(s[..n]);
      assert Elements(s) == Elements(s[..n]) + {s[n]};
      assert s[n] !in s[..n];
    }
  }

  // ------------------------------------------------------------- movement

  const MAX_POINTERS: nat := 16

  datatype Movement<P> = Movement(idBits: Word, positions: seq<P>)

  /** The caller of `addMovement` passes the positions in order of increasing id. */
  ghost predicate Packed<P>(m: Movement<P>, positionOf: map<nat, P>) {
    var e := Enumerate(m.idBits);
    && |e| <= MAX_POINTERS && |m.positions| == MAX_POINTERS
    && positionOf.Keys == Members(m.idBits)
    && forall k :: 0 <= k < |e| ==> e[k] in positionOf && m.positions[k] == positionOf[e[k]]
  }

  /** For a marked id, `getPosition` stays in bounds and finds that pointer's position. */
  lemma PositionFound<P>(m: Movement<P>, positionOf: map<nat, P>, id: nat)
    requires Packed(m, positionOf) && id in Members(m.idBits)
    ensures id < WIDTH && Rank(m.idBits, id) < |Members(m.idBits)| <= |m.positions|
    ensures m.positions[Rank(m.idBits, id)] == positionOf[id]
  {
    EnumerateIsSorted(m.idBits);
    PopcountIsSize(m.idBits);
    var e := Enumerate(m.idBits);
    var k :| 0 <= k < |e| && e[k] == id;
    RankInvertsEnumerate(m.idBits, k);
  }

  /** For an id that is not marked, the index is the number of smaller marked ids. It is out of
      bounds exactly when all 16 places are taken by smaller ids; in bounds, the answer is the
      position of the next larger marked id if there is one, and else an unused place. */
  lemma PositionOfUnmarked<P>(m: Movement<P>, positionOf: map<nat, P>, id: nat)
    requires Packed(m, positionOf) && id < WIDTH && id !in Members(m.idBits)
    ensures var e, r := Enumerate(m.idBits), Rank(m.idBits, id);
      && r <= |e|
      && (r < |e| ==> id < e[r] && m.positions[r] == positionOf[e[r]])
      && (r > 0 ==> e[r - 1] < id)
      && (r >= |m.positions| <==> |e| == 16 && e[|e| - 1] < id)
  {
    hide Enumerate, Rank, Members, Elements, Below;
    EnumerateIsSorted(m.idBits);
    RankIsCountBefore(m.idBits, id);
    var e := Enumerate(m.idBits);
    var r := CountBelow(e, id);
    BelowIsPrefix(e, id, r);
    SortedSize(e[..r]);
    if r < |e| { ElementOf(e, r); }
  }

  /** Some movement and id do read out of bounds: ids 0 to 15 are marked, and 16 is asked for. */
  lemma PositionOutOfBounds() returns (m: Movement<nat>, positionOf: map<nat, nat>)
    ensures Packed(m, positionOf) && |m.positions| == 16
    ensures (forall id: nat :: id in Members(m.idBits) <==> id < 16) && Rank(m.idBits, 16) == 16
  {
    hide Enumerate, Rank, Increasing, Members, Elements, Popcount;
    var ids := FirstSixteen();
    EnumerateIsSorted(ids);
    var e := Enumerate(ids);
    forall k | 0 <= k < |e| ensures e[k] in Members(ids) { ElementOf(e, k); }
    m := Movement(ids, e);
    positionOf := map id | id in Members(ids) :: id;
  }

  lemma FirstSixteen() returns (ids: Word)
    ensures (forall id: nat :: id in Members(ids) <==> id < 16) && |Members(ids)| == 16 && Rank(ids, 16) == 16
  {
    hide Rank;
    var marks := Repeat(true, 16);
    ids := marks + Repeat(false, WIDTH - 16);
    PopcountOfOnes(16);
    PopcountIsSize(marks);
    RankIsCountBefore(ids, 16);
    assert Members(ids) == Members(marks) == Below(Members(ids), 16);
  }

  lemma {:induction false} PopcountOfOnes(n: nat)
    ensures Popcount(Repeat(true, n)) == n
  {
    if n > 0 {
      PopcountOfOnes(n - 1);
      assert Repeat(true, n)[..n - 1] == Repeat(true, n - 1);
    }
  }

  lemma ElementOf(s: seq<nat>, i: nat)
    requires i < |s|
    ensures s[i] in Elements(s)
  {
  }

  lemma BelowIsPrefix(s: seq<nat>, x: nat, r: nat)
    requires r <= |s| && forall i :: 0 <= i < |s| ==> (s[i] < x <==> i < r)
    ensures Below(Elements(s), x) == Elements(s[..r])
  {
    forall n | n in Below(Elements(s), x) ensures n in Elements(s[..r]) {
      var i :| 0 <= i < |s| && s[i] == n;
      assert s[..r][i] == n;
    }
  }

  /** How many elements of a sorted sequence are below `x`. */
  function CountBelow(s: seq<nat>, x: nat): (r: nat)
    requires Increasing(s)
    ensures r <= |s|
    ensures forall i :: 0 <= i < |s| ==> (s[i] < x <==> i < r)
  {
    if s == [] then 0
    else if s[|s| - 1] < x then |s|
    else CountBelow(s[..|s| - 1], x)
  }
}
