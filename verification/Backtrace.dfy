// The address buffer that the crash handler fills while unwinding.
module Backtrace {

  // `ip &= ~1` on Thumb builds.
  function Masked(thumb: bool, ip: nat): nat {
    if thumb then ip - ip % 2 else ip
  }

  /** `r` is `ip` with its lowest bit cleared on a Thumb build, and else `ip` itself. */
  ghost predicate BitCleared(thumb: bool, ip: nat, r: nat) {
    if thumb then r % 2 == 0 && (r == ip || r + 1 == ip) else r == ip
  }

  /** One more address behind the ones kept: nulls and repeats are ignored once there is one. */
  function Append(kept: seq<nat>, ip: nat): seq<nat> {
    if kept != [] && (ip == 0 || ip == kept[|kept| - 1]) then kept else kept + [ip]
  }

  /** What an unbounded buffer keeps of a stream. */
  function Kept(ips: seq<nat>): seq<nat> {
    if ips == [] then [] else Append(Kept(ips[..|ips| - 1]), ips[|ips| - 1])
  }

  function MaskAll(thumb: bool, ips: seq<nat>): (r: seq<nat>)
    ensures |r| == |ips|
    ensures forall i :: 0 <= i < |r| ==> r[i] == Masked(thumb, ips[i])
    ensures forall i :: 0 <= i < |r| ==> BitCleared(thumb, ips[i], r[i])
  {
    if ips == [] then [] else MaskAll(thumb, ips[..|ips| - 1]) + [Masked(thumb, ips[|ips| - 1])]
  }

  function Take(s: seq<nat>, n: nat): seq<nat> {
    if |s| <= n then s else s[..n]
  }

  class BacktraceState {
    const addresses: array<nat>
    const thumb: bool
    var count: nat

    ghost predicate Valid()
      reads this
    {
      count <= addresses.Length
    }

    ghost function Contents(): seq<nat>
      requires Valid()
      reads this, addresses
    {
      addresses[..count]
    }

    constructor (capacity: nat, thumb: bool)
      ensures Valid() && Contents() == [] && addresses.Length == capacity && this.thumb == thumb
      ensures fresh(addresses)
    {
      addresses := new nat[capacity];
      this.thumb := thumb;
      count := 0;
    }

    method AddAddress(address: nat) returns (ok: bool)
      requires Valid()
      modifies this, addresses
      ensures Valid() && ok == (|old(Contents())| < addresses.Length)
      ensures Contents() == if ok then Append(old(Contents()), Masked(thumb, address)) else old(Contents())
      ensures old(Contents()) <= Contents() && |Contents()| <= |old(Contents())| + 1
      ensures |Contents()| > |old(Contents())| ==> BitCleared(thumb, address, Contents()[|Contents()| - 1])
    {
      if count >= addresses.Length {
        return false;
      }
      var ip := Masked(thumb, address);
      if count > 0 {
        if ip == 0 {
          return true;
        }
        if ip == addresses[count - 1] {
          return true;
        }
      }
      addresses[count] := ip;
      count := count + 1;
      return true;
    }

    /** The program counter first, then the frames, until the buffer refuses one. */
    method Collect(pc: nat, frames: seq<nat>)
      requires Valid() && count == 0
      modifies this, addresses
      ensures Valid()
      ensures Contents() == Take(Kept(MaskAll(thumb, [pc] + frames)), addresses.Length)
    {
      hide Append, Kept, Take;
      ghost var all := MaskAll(thumb, [pc] + frames);
      Nothing(all, addresses.Length);
      CollectStep(all, 0, addresses.Length);
      var ok := AddAddress(pc);
      var i := 0;
      while i < |frames|
        invariant 0 <= i <= |frames| && Valid()
        invariant Contents() == Take(Kept(all[..i + 1]), addresses.Length)
      {
        CollectStep(all, i + 1, addresses.Length);
        ok := AddAddress(frames[i]);
        if !ok {
          return;
        }
        i := i + 1;
      }
      assert all[..i + 1] == all;
    }
  }

  lemma Nothing(all: seq<nat>, capacity: nat)
    ensures Take(Kept(all[..0]), capacity) == []
  {
  }

  /** One `AddAddress`, seen from the whole stream: once it is refused, the buffer holds all it ever will. */
  lemma CollectStep(all: seq<nat>, n: nat, capacity: nat)
    requires n < |all|
    ensures var c := Take(Kept(all[..n]), capacity);
      if |c| < capacity then Append(c, all[n]) == Take(Kept(all[..n + 1]), capacity)
      else c == Take(Kept(all), capacity) && c == Take(Kept(all[..n + 1]), capacity)
  {
    KeptGrows(all, n);
    KeptIsPrefix(all, n);
  }

  lemma KeptGrows(ips: seq<nat>, n: nat)
    requires n < |ips|
    ensures Kept(ips[..n + 1]) == Append(Kept(ips[..n]), ips[n])
  {
    assert ips[..n + 1][..n] == ips[..n];
  }

  /** What is kept of a prefix is a prefix of what is kept. */
  lemma {:induction false} KeptIsPrefix(ips: seq<nat>, n: nat)
    requires n <= |ips|
    ensures Kept(ips[..n]) <= Kept(ips)
    decreases |ips|
  {
    if n < |ips| {
      KeptIsPrefix(ips[..|ips| - 1], n);
      assert ips[..|ips| - 1][..n] == ips[..n];
    } else {
      assert ips[..n] == ips;
    }
  }

  // ------------------------------------------------------------- two phases

  /** Drops null addresses, but not a leading one. */
  function DropNulls(ips: seq<nat>): seq<nat> {
    if ips == [] then []
    else
      var n := |ips| - 1;
      DropNulls(ips[..n]) + if n == 0 || ips[n] != 0 then [ips[n]] else []
  }

  /** Collapses runs of equal addresses. */
  function Collapse(ips: seq<nat>): seq<nat> {
    if ips == [] then []
    else
      var n := |ips| - 1;
      Collapse(ips[..n]) + if n == 0 || ips[n] != ips[n - 1] then [ips[n]] else []
  }

  lemma {:induction false} CollapseKeepsEnds(ips: seq<nat>)
    requires ips != []
    ensures var c := Collapse(ips); c != [] && c[|c| - 1] == ips[|ips| - 1]
  {
    if |ips| > 1 {
      CollapseKeepsEnds(ips[..|ips| - 1]);
    }
  }

  lemma CollapseAppend(ips: seq<nat>, x: nat)
    ensures Collapse(ips + [x]) == Collapse(ips) + if ips == [] || x != ips[|ips| - 1] then [x] else []
  {
    var s := ips + [x];
    assert s[..|ips|] == ips && s[|ips|] == x;
  }

  /** The online filter is the composition of the two, also where a dropped null stood
      between two equal addresses. */
  lemma {:induction false} KeptIsDropThenCollapse(ips: seq<nat>)
    ensures Kept(ips) == Collapse(DropNulls(ips))
    ensures DropNulls(ips) == [] <==> ips == []
  {
    if ips != [] {
      var n := |ips| - 1;
      KeptIsDropThenCollapse(ips[..n]);
      var d := DropNulls(ips[..n]);
      CollapseAppend(d, ips[n]);
      assert d + [] == d && Collapse(d) + [] == Collapse(d);
      if n > 0 {
        CollapseKeepsEnds(d);
        DropNullsTail(ips[..n]);
      }
    }
  }

  lemma {:induction false} DropNullsTail(ips: seq<nat>)
    requires ips != []
    ensures DropNulls(ips) != []
  {
    if |ips| > 1 { DropNullsTail(ips[..|ips| - 1]); }
  }

  /** Every non-null address of the stream survives filtering, and nothing is made up. */
  lemma {:induction false} KeptElements(ips: seq<nat>)
    ensures forall x :: x in Kept(ips) ==> x in ips
    ensures forall x :: x in ips && x != 0 ==> x in Kept(ips)
  {
    if ips != [] {
      var n := |ips| - 1;
      KeptElements(ips[..n]);
      assert ips == ips[..n] + [ips[n]];
    }
  }
}
