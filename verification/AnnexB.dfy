// The two Annex-B start-code scanners of the capture tools, against the byte
// stream format of Annex B of ITU-T H.264.
module AnnexB {
  import opened Bytes
  import opened Framing

  // `length` is 3 or 4; `nal` is the type field of the byte after the code.
  datatype StartCode = StartCode(offset: nat, length: nat, nal: nat)

  predicate ShortAt(d: seq<byte>, i: nat) {
    i + 2 < |d| && d[i] == 0 && d[i + 1] == 0 && d[i + 2] == 1
  }

  predicate LongAt(d: seq<byte>, i: nat) {
    i + 3 < |d| && d[i] == 0 && d[i + 1] == 0 && d[i + 2] == 0 && d[i + 3] == 1
  }

  predicate CodeAt(d: seq<byte>, i: nat) {
    ShortAt(d, i) || LongAt(d, i)
  }

  /** A code that a scan looks at: the last four bytes are never taken for the start of one. */
  predicate SeenAt(d: seq<byte>, p: nat) {
    p + 4 < |d| && CodeAt(d, p)
  }

  function CodeLength(d: seq<byte>, i: nat): nat {
    if ShortAt(d, i) then 3 else 4
  }

  // `x & 0x1F`.
  function LowFive(x: byte): nat {
    x % 32
  }

  /** The scan from position `i` on: a code is reported and skipped with the byte after it. */
  function Scan(d: seq<byte>, i: nat, limit: int): seq<StartCode>
    decreases |d| - i
  {
    if i + 4 >= |d| || limit <= 0 then []
    else if CodeAt(d, i) then
      var n := CodeLength(d, i);
      [StartCode(i, n, LowFive(d[i + n]))] + Scan(d, i + n + 1, limit - 1)
    else Scan(d, i + 1, limit)
  }

  method FindStartCodes(data: seq<byte>, limit: int) returns (found: seq<StartCode>)
    ensures found == Scan(data, 0, limit)
  {
    found := [];
    var i := 0;
    while i < |data| - 4 && |found| < limit
      invariant 0 <= i
      invariant Scan(data, 0, limit) == found + Scan(data, i, limit - |found|)
      decreases |data| - i
    {
      if data[i] == 0 && data[i + 1] == 0 {
        if data[i + 2] == 1 {
          found := found + [StartCode(i, 3, LowFive(data[i + 3]))];
          i := i + 4;
          continue;
        }
        if data[i + 2] == 0 && data[i + 3] == 1 && i + 4 < |data| {
          found := found + [StartCode(i, 4, LowFive(data[i + 4]))];
          i := i + 5;
          continue;
        }
      }
      i := i + 1;
    }
  }

  /** The second scanner, without the first one's extra bound: it never reads past the end,
      and finds the same codes. */
  method StartCodes(data: seq<byte>, limit: int) returns (out: seq<StartCode>)
    ensures out == Scan(data, 0, limit)
  {
    out := [];
    var i := 0;
    while i < |data| - 4 && |out| < limit
      invariant 0 <= i
      invariant Scan(data, 0, limit) == out + Scan(data, i, limit - |out|)
      decreases |data| - i
    {
      if data[i] == 0 && data[i + 1] == 0 {
        if data[i + 2] == 1 {
          out := out + [StartCode(i, 3, LowFive(data[i + 3]))];
          i := i + 4;
          continue;
        }
        if data[i + 2] == 0 && data[i + 3] == 1 {
          out := out + [StartCode(i, 4, LowFive(data[i + 4]))];
          i := i + 5;
          continue;
        }
      }
      i := i + 1;
    }
  }

  // ------------------------------------------------------------- any bytes

  /** `v` is the number that the five low bits of `x` make. */
  predicate IsLowFive(x: byte, v: int) {
    0 <= v < 32 && v <= x && (x - v) % 32 == 0
  }

  function End(c: StartCode): nat {
    c.offset + c.length + 1
  }

  /** Every result is a code that is really there, and they do not overlap. */
  lemma {:induction false} ScanIsSound(d: seq<byte>, i: nat, limit: int)
    ensures var found := Scan(d, i, limit);
      && |found| <= (if limit > 0 then limit else 0)
      && (forall k :: 0 <= k < |found| ==>
            var c := found[k];
            && i <= c.offset && c.offset + 4 < |d| && End(c) <= |d|
            && (if c.length == 3 then ShortAt(d, c.offset) else c.length == 4 && LongAt(d, c.offset))
            && IsLowFive(d[c.offset + c.length], c.nal))
      && (forall k :: 0 <= k < |found| - 1 ==> End(found[k]) <= found[k + 1].offset)
    decreases |d| - i
  {
    if i + 4 >= |d| || limit <= 0 {
    } else if CodeAt(d, i) {
      ScanIsSound(d, i + CodeLength(d, i) + 1, limit - 1);
    } else {
      ScanIsSound(d, i + 1, limit);
    }
  }

  /** If the limit was not reached, every code that starts before the last four bytes is
      reported, or lies inside a reported code and the byte after it. */
  lemma {:induction false} ScanIsComplete(d: seq<byte>, i: nat, limit: int, p: nat)
    requires |Scan(d, i, limit)| < limit
    requires i <= p && SeenAt(d, p)
    ensures var found := Scan(d, i, limit);
      exists k :: (0 <= k < |found| && found[k].offset <= p < End(found[k]))
    decreases |d| - i
  {
    var found := Scan(d, i, limit);
    if CodeAt(d, i) {
      var n := CodeLength(d, i);
      if p <= i + n {
        assert found[0].offset <= p < End(found[0]);
      } else {
        var others := Scan(d, i + n + 1, limit - 1);
        ScanIsComplete(d, i + n + 1, limit - 1, p);
        var k :| 0 <= k < |others| && others[k].offset <= p < End(others[k]);
        assert found[k + 1] == others[k];
      }
    } else {
      ScanIsComplete(d, i + 1, limit, p);
    }
  }

  /** A smaller limit returns the first of the same results. */
  lemma {:induction false} SmallerLimitIsPrefix(d: seq<byte>, i: nat, small: int, large: int)
    requires 0 <= small <= large
    ensures var all := Scan(d, i, large);
      Scan(d, i, small) == if |all| <= small then all else all[..small]
    decreases |d| - i
  {
    if i + 4 >= |d| || small <= 0 {
    } else if CodeAt(d, i) {
      SmallerLimitIsPrefix(d, i + CodeLength(d, i) + 1, small - 1, large - 1);
    } else {
      SmallerLimitIsPrefix(d, i + 1, small, large);
    }
  }

  // ------------------------------------------------------------- NAL units

  /** A NAL unit that obeys section 7.4.1: no 00 00 00, 00 00 01 or 00 00 02, last byte not 00. */
  predicate LegalUnit(u: seq<byte>) {
    && u != [] && u[|u| - 1] != 0
    && forall i :: 0 <= i < |u| - 2 ==> !(u[i] == 0 && u[i + 1] == 0 && u[i + 2] <= 2)
  }

  /** Emulation prevention, as an encoder does it: behind two zeros a byte of at most 3 is led by a 3. */
  function Escaped(s: seq<byte>, zeros: nat): seq<byte>
    decreases |s|, zeros
  {
    if s == [] then []
    else if zeros >= 2 && s[0] <= 3 then [3] + Escaped(s, 0)
    else [s[0]] + Escaped(s[1..], if s[0] == 0 then zeros + 1 else 0)
  }

  /** What an encoder escapes is legal, so it is among the units of `ScannerFindsUnits`. */
  lemma EscapedIsLegal(s: seq<byte>)
    requires s != [] && s[|s| - 1] != 0
    ensures LegalUnit(Escaped(s, 0))
  {
    EscapedBehindZeros(s, 0);
    NoZeros(Escaped(s, 0));
  }

  lemma {:induction false} EscapedBehindZeros(s: seq<byte>, zeros: nat)
    requires s != [] && s[|s| - 1] != 0 && zeros <= 2
    ensures Escaped(s, zeros) != [] && LegalUnit(Zeros(zeros) + Escaped(s, zeros))
    decreases |s|, zeros
  {
    hide LegalUnit, Escaped, Zeros;
    EscapedUnfolds(s, zeros);
    if zeros == 2 && s[0] <= 3 {
      EscapedBehindZeros(s, 0);
      NoZeros(Escaped(s, 0));
      LegalBehind(zeros, 3, Escaped(s, 0));
    } else if s[0] == 0 {
      EscapedBehindZeros(s[1..], zeros + 1);
      OneMoreZero(zeros, Escaped(s[1..], zeros + 1));
    } else {
      if |s| > 1 {
        EscapedBehindZeros(s[1..], 0);
        NoZeros(Escaped(s[1..], 0));
      }
      LegalBehind(zeros, s[0], Escaped(s[1..], 0));
    }
  }

  lemma EscapedUnfolds(s: seq<byte>, zeros: nat)
    requires s != []
    ensures Escaped([], 0) == []
    ensures Escaped(s, zeros) ==
      if zeros >= 2 && s[0] <= 3 then [3] + Escaped(s, 0)
      else [s[0]] + Escaped(s[1..], if s[0] == 0 then zeros + 1 else 0)
  {
  }

  lemma NoZeros(u: seq<byte>)
    ensures Zeros(0) + u == u
  {
  }

  lemma OneMoreZero(zeros: nat, u: seq<byte>)
    ensures Zeros(zeros) + ([0] + u) == Zeros(zeros + 1) + u
  {
    var l, r := Zeros(zeros) + ([0] + u), Zeros(zeros + 1) + u;
    assert |l| == |r| && forall i :: 0 <= i < |l| ==> l[i] == r[i];
  }

  lemma LegalBehind(zeros: nat, x: byte, u: seq<byte>)
    requires zeros <= 2 && x != 0 && (zeros == 2 ==> x >= 3)
    requires u == [] || LegalUnit(u)
    ensures LegalUnit(Zeros(zeros) + ([x] + u))
  {
  }

  // A unit in the byte stream: two or more zero bytes, a one, the unit.
  datatype Unit = Unit(zeros: nat, bytes: seq<byte>)

  predicate Legal(u: Unit) {
    u.zeros >= 2 && LegalUnit(u.bytes)
  }

  function Zeros(n: nat): (s: seq<byte>)
    ensures |s| == n && forall i :: 0 <= i < n ==> s[i] == 0
  {
    if n == 0 then [] else [0] + Zeros(n - 1)
  }

  function Coded(u: Unit): (s: seq<byte>)
    ensures |s| == u.zeros + 1 + |u.bytes|
  {
    Zeros(u.zeros) + [1] + u.bytes
  }

  /** The units one after the other, and the stream's trailing zero bytes. */
  function Stream(us: seq<Unit>, trailing: nat): seq<byte> {
    if us == [] then Zeros(trailing) else Coded(us[0]) + Stream(us[1..], trailing)
  }

  /** Where the scanner should report the code of a unit that begins at `start`: of three or
      more zeros the last three belong to the code. */
  function ExpectedCode(u: Unit, start: nat): StartCode
    requires Legal(u)
  {
    var n := if u.zeros == 2 then 3 else 4;
    StartCode(start + u.zeros + 1 - n, n, LowFive(u.bytes[0]))
  }

  function Expected(us: seq<Unit>, start: nat): seq<StartCode>
    requires forall i :: 0 <= i < |us| ==> Legal(us[i])
  {
    if us == [] then [] else [ExpectedCode(us[0], start)] + Expected(us[1..], start + |Coded(us[0])|)
  }

  lemma {:induction false} ScanSkips(d: seq<byte>, i: nat, j: nat, limit: int)
    requires i <= j <= |d| && forall p :: i <= p < j ==> !CodeAt(d, p)
    ensures Scan(d, i, limit) == Scan(d, j, limit)
    decreases j - i
  {
    if i < j {
      ScanSkips(d, i + 1, j, limit);
    }
  }

  lemma UnitBytes(u: Unit, rest: seq<byte>)
    ensures var c := Coded(u) + rest;
      && (forall i :: 0 <= i < u.zeros ==> c[i] == 0)
      && c[u.zeros] == 1
      && (forall i :: 0 <= i < |u.bytes| ==> c[u.zeros + 1 + i] == u.bytes[i])
  {
  }

  /** `d` holds the unit `u` from `start` on. */
  ghost predicate HoldsUnit(d: seq<byte>, start: nat, u: Unit) {
    var first := start + u.zeros + 1;
    && first + |u.bytes| <= |d|
    && (forall q :: start <= q < start + u.zeros ==> d[q] == 0)
    && d[start + u.zeros] == 1
    && HoldsBytes(d, first, u.bytes)
  }

  ghost predicate HoldsBytes(d: seq<byte>, first: nat, u: seq<byte>) {
    first + |u| <= |d| && forall q :: first <= q < first + |u| ==> d[q] == u[q - first]
  }

  lemma UnitIsHeld(d: seq<byte>, start: nat, u: Unit, rest: seq<byte>)
    requires start <= |d| && d[start..] == Coded(u) + rest
    ensures HoldsUnit(d, start, u) && |d| == start + |Coded(u)| + |rest|
  {
    hide Coded;
    var c := Coded(u) + rest;
    UnitBytes(u, rest);
    assert forall q :: start <= q < |d| ==> d[q] == c[q - start];
  }

  /** No code starts inside a legal unit, not even across its end. */
  lemma NoCodeInUnit(d: seq<byte>, first: nat, u: seq<byte>, p: nat)
    requires LegalUnit(u) && HoldsBytes(d, first, u)
    requires first <= p < first + |u|
    ensures !CodeAt(d, p)
  {
    var k := p - first;
    assert d[p] == u[k];
    if k + 1 < |u| { assert d[p + 1] == u[k + 1]; }
    if k + 2 < |u| { assert d[p + 2] == u[k + 2]; }
  }

  lemma SkipRestOfUnit(d: seq<byte>, first: nat, u: seq<byte>, limit: int)
    requires LegalUnit(u) && HoldsBytes(d, first, u)
    ensures Scan(d, first + 1, limit) == Scan(d, first + |u|, limit)
  {
    hide Scan, LegalUnit, HoldsBytes, CodeAt;
    UnitNotEmpty(d, first, u);
    forall p | first + 1 <= p < first + |u| ensures !CodeAt(d, p) {
      NoCodeInUnit(d, first, u, p);
    }
    ScanSkips(d, first + 1, first + |u|, limit);
  }

  lemma UnitNotEmpty(d: seq<byte>, first: nat, u: seq<byte>)
    requires LegalUnit(u) && HoldsBytes(d, first, u)
    ensures |u| > 0 && first + |u| <= |d|
  {
  }

  lemma SkipLeadingZeros(d: seq<byte>, start: nat, u: Unit, limit: int)
    requires Legal(u) && HoldsUnit(d, start, u)
    ensures Scan(d, start, limit) == Scan(d, ExpectedCode(u, start).offset, limit)
  {
    hide Scan, HoldsBytes;
    ScanSkips(d, start, ExpectedCode(u, start).offset, limit);
  }

  lemma CodeIsThere(d: seq<byte>, start: nat, u: Unit)
    requires Legal(u) && HoldsUnit(d, start, u)
    ensures var c := ExpectedCode(u, start);
      && CodeAt(d, c.offset) && CodeLength(d, c.offset) == c.length
      && c.offset + c.length == start + u.zeros + 1
      && c.nal == LowFive(d[c.offset + c.length])
  {
  }

  /** One unit: its code is found unless the stream ends too soon after it. */
  lemma ScanUnit(d: seq<byte>, start: nat, u: Unit, rest: seq<byte>, limit: int)
    requires Legal(u) && start <= |d| && d[start..] == Coded(u) + rest && limit > 0
    ensures Scan(d, start, limit) ==
      if u.zeros == 2 && |u.bytes| == 1 && rest == [] then []
      else [ExpectedCode(u, start)] + Scan(d, start + |Coded(u)|, limit - 1)
  {
    hide LegalUnit, Coded, Scan, HoldsUnit, HoldsBytes, CodeAt, CodeLength;
    CodedLength(u);
    UnitIsHeld(d, start, u, rest);
    SkipLeadingZeros(d, start, u, limit);
    CodeIsThere(d, start, u);
    var c := ExpectedCode(u, start);
    ScanHere(d, c.offset, limit);
    RestOfUnit(d, start, u, limit - 1);
  }

  lemma RestOfUnit(d: seq<byte>, start: nat, u: Unit, limit: int)
    requires Legal(u) && HoldsUnit(d, start, u)
    ensures Scan(d, start + u.zeros + 2, limit) == Scan(d, start + u.zeros + 1 + |u.bytes|, limit)
  {
    SkipRestOfUnit(d, start + u.zeros + 1, u.bytes, limit);
  }

  lemma CodedLength(u: Unit)
    requires Legal(u)
    ensures |Coded(u)| == u.zeros + 1 + |u.bytes| && |u.bytes| > 0
  {
  }

  lemma ScanHere(d: seq<byte>, i: nat, limit: int)
    requires limit > 0 && CodeAt(d, i)
    ensures Scan(d, i, limit) ==
      if i + 4 >= |d| then [] else
        var n := CodeLength(d, i);
        [StartCode(i, n, LowFive(d[i + n]))] + Scan(d, i + n + 1, limit - 1)
  {
  }

  /** The one shape the scanner misses: a stream that ends in a one-byte unit behind a 3-byte code. */
  predicate EndsTooSoon(us: seq<Unit>, trailing: nat) {
    us != [] && us[|us| - 1].zeros == 2 && |us[|us| - 1].bytes| == 1 && trailing == 0
  }

  /** The units the scanner reports. */
  function Seen(us: seq<Unit>, trailing: nat): seq<Unit> {
    if EndsTooSoon(us, trailing) then us[..|us| - 1] else us
  }

  /** Streams and results, one unit at a time. */
  lemma OneUnit(us: seq<Unit>, trailing: nat, start: nat)
    requires us != [] && forall i :: 0 <= i < |us| ==> Legal(us[i])
    ensures var u, rest := us[0], Stream(us[1..], trailing);
      && Stream(us, trailing) == Coded(u) + rest
      && (rest == [] <==> us[1..] == [] && trailing == 0)
      && Expected(Seen(us, trailing), start) ==
           (if u.zeros == 2 && |u.bytes| == 1 && rest == [] then []
            else [ExpectedCode(u, start)] + Expected(Seen(us[1..], trailing), start + |Coded(u)|))
  {
    hide Legal, ExpectedCode, Coded, Seen, EndsTooSoon;
    RestIsEmpty(us[1..], trailing);
    SeenTail(us, trailing);
  }

  lemma SeenTail(us: seq<Unit>, trailing: nat)
    requires us != []
    ensures var seen := Seen(us, trailing);
      if us[1..] == [] && EndsTooSoon(us, trailing) then seen == []
      else seen != [] && seen[0] == us[0] && seen[1..] == Seen(us[1..], trailing)
    ensures us[1..] == [] ==>
      (EndsTooSoon(us, trailing) <==> us[0].zeros == 2 && |us[0].bytes| == 1 && trailing == 0)
  {
    if us[1..] == [] {
      assert us == [us[0]];
    } else {
      assert us[1..][|us| - 2] == us[|us| - 1];
      assert us[..|us| - 1][1..] == us[1..][..|us| - 2];
    }
  }

  lemma {:induction false} ScanUnits(d: seq<byte>, start: nat, us: seq<Unit>, trailing: nat, limit: int)
    requires forall i :: 0 <= i < |us| ==> Legal(us[i])
    requires start <= |d| && d[start..] == Stream(us, trailing) && limit >= |us|
    ensures Scan(d, start, limit) == Expected(Seen(us, trailing), start)
    decreases |us|
  {
    hide Scan, Legal, Coded, ExpectedCode, Stream, Expected, Seen;
    if us == [] {
      NoUnits(d, start, trailing, limit);
    } else {
      var u, rest := us[0], Stream(us[1..], trailing);
      OneUnit(us, trailing, start);
      ScanUnit(d, start, u, rest, limit);
      if rest != [] || u.zeros != 2 || |u.bytes| != 1 {
        var next := start + |Coded(u)|;
        assert d[next..] == rest by { assert d[start..][|Coded(u)|..] == rest; }
        ScanUnits(d, next, us[1..], trailing, limit - 1);
      }
    }
  }

  lemma NoUnits(d: seq<byte>, start: nat, trailing: nat, limit: int)
    requires start <= |d| && d[start..] == Stream([], trailing)
    ensures Scan(d, start, limit) == Expected(Seen([], trailing), start)
  {
    assert forall p :: start <= p < |d| ==> d[p] == d[start..][p - start] == 0;
    ScanSkips(d, start, |d|, limit);
    ScanAtEnd(d, limit);
  }

  lemma ScanAtEnd(d: seq<byte>, limit: int)
    ensures Scan(d, |d|, limit) == []
  {
  }

  lemma RestIsEmpty(us: seq<Unit>, trailing: nat)
    ensures Stream(us, trailing) == [] <==> us == [] && trailing == 0
  {
  }

  lemma {:induction false} ExpectedLength(us: seq<Unit>, start: nat)
    requires forall i :: 0 <= i < |us| ==> Legal(us[i])
    ensures |Expected(us, start)| == |us|
    decreases |us|
  {
    if us != [] { ExpectedLength(us[1..], start + |Coded(us[0])|); }
  }

  /** Round trip: on a legal byte stream, with a large enough limit, the scanner reports each
      unit's offset, code length and type, exactly when the stream does not end too soon. */
  lemma ScannerFindsUnits(us: seq<Unit>, trailing: nat, limit: int)
    requires forall i :: 0 <= i < |us| ==> Legal(us[i])
    requires limit >= |us|
    ensures Scan(Stream(us, trailing), 0, limit) == Expected(us, 0) <==> !EndsTooSoon(us, trailing)
    ensures Scan(Stream(us, trailing), 0, limit) == Expected(Seen(us, trailing), 0)
  {
    var d := Stream(us, trailing);
    assert d[0..] == d;
    ScanUnits(d, 0, us, trailing, limit);
    ExpectedLength(us, 0);
    if EndsTooSoon(us, trailing) { ExpectedLength(us[..|us| - 1], 0); }
  }

  /** A stream of one legal one-byte unit, an IDR slice header, in which nothing is found. */
  lemma ShortEndingIsMissed()
    ensures var us, d: seq<byte> := [Unit(2, [0x65])], [0, 0, 1, 0x65];
      && Legal(us[0]) && Stream(us, 0) == d
      && Expected(us, 0) == [StartCode(0, 3, 5)]
      && Scan(d, 0, 6) == []
  {
    var u := Unit(2, [0x65]);
    assert Zeros(2) == [0, 0] && Stream([], 0) == [];
    assert Coded(u) == [0, 0, 1, 0x65];
    assert Stream([u], 0) == Coded(u) + Stream([], 0);
  }

  // ------------------------------------------------------------- metadata

  /** The offset from which `capture_video` writes a video payload. */
  function WriteOffset(payload: seq<byte>): nat {
    var sc := Scan(payload, 0, 1);
    if sc != [] then sc[0].offset else VIDEO_METADATA
  }

  /** It is where the first code stands that is looked at, and 20 if there is none. */
  lemma WriteOffsetIsFirst(payload: seq<byte>)
    ensures var o := WriteOffset(payload);
      if exists p: nat :: SeenAt(payload, p)
      then SeenAt(payload, o) && forall p: nat :: p < o ==> !SeenAt(payload, p)
      else o == 20
  {
    ScanIsSound(payload, 0, 1);
    var sc := Scan(payload, 0, 1);
    forall p: nat | SeenAt(payload, p) ensures sc != [] && sc[0].offset <= p {
      FirstIsEarliest(payload, 0, p);
    }
    if sc != [] {
      assert SeenAt(payload, sc[0].offset);
    }
  }

  /** `payload[n:]`, which is empty beyond the end. */
  function From(payload: seq<byte>, n: nat): seq<byte> {
    if n <= |payload| then payload[n..] else []
  }

  /** The tool that searches for the code and the tool that skips 20 bytes write the same,
      exactly when no code is looked at inside the metadata, and there is one right behind it
      or none anywhere. */
  lemma MetadataStripped(payload: seq<byte>)
    ensures From(payload, WriteOffset(payload)) == From(payload, VIDEO_METADATA)
       <==> (forall p :: 0 <= p < VIDEO_METADATA ==> !SeenAt(payload, p))
            && (SeenAt(payload, VIDEO_METADATA) || forall p: nat :: !SeenAt(payload, p))
  {
    WriteOffsetIsFirst(payload);
    var o := WriteOffset(payload);
    if SeenAt(payload, o) {
      assert |From(payload, o)| == |payload| - o > 4;
    }
  }

  /** If the stream does begin with a 4-byte code behind the metadata, only a 3-byte code inside
      the metadata can make a difference, whatever zeros the metadata ends in. */
  lemma MetadataBeforeLongCode(payload: seq<byte>)
    requires LongAt(payload, VIDEO_METADATA)
    ensures From(payload, WriteOffset(payload)) == From(payload, VIDEO_METADATA)
       <==> forall p :: 0 <= p <= VIDEO_METADATA - 3 ==> !ShortAt(payload, p)
  {
    MetadataStripped(payload);
    if forall p :: 0 <= p <= VIDEO_METADATA - 3 ==> !ShortAt(payload, p) {
      forall q: nat | q < VIDEO_METADATA ensures !SeenAt(payload, q) {
        assert q + 1 <= VIDEO_METADATA - 3 ==> !ShortAt(payload, q + 1);
      }
      if p: nat :| SeenAt(payload, p) {
        assert SeenAt(payload, VIDEO_METADATA);
      }
    } else {
      var p :| 0 <= p <= VIDEO_METADATA - 3 && ShortAt(payload, p);
      assert SeenAt(payload, p);
    }
  }

  /** Metadata that begins with a 3-byte code: one tool writes it all, the other skips it. */
  lemma CodeInMetadataIsWritten()
    ensures var payload: seq<byte> := [0, 0, 1] + Zeros(17) + [0, 0, 0, 1, 0x65];
      && LongAt(payload, VIDEO_METADATA)
      && WriteOffset(payload) == 0
      && From(payload, WriteOffset(payload)) == payload != From(payload, VIDEO_METADATA)
  {
    var payload: seq<byte> := [0, 0, 1] + Zeros(17) + [0, 0, 0, 1, 0x65];
    assert ShortAt(payload, 0);
    assert payload[20..] == [0, 0, 0, 1, 0x65];
    ScanHere(payload, 0, 1);
    assert payload[0..] == payload;
  }

  /** The first result is no later than any code the scan looks at. */
  lemma {:induction false} FirstIsEarliest(d: seq<byte>, i: nat, p: nat)
    requires i <= p && SeenAt(d, p)
    ensures Scan(d, i, 1) != [] && Scan(d, i, 1)[0].offset <= p
    decreases p - i
  {
    if !CodeAt(d, i) {
      FirstIsEarliest(d, i + 1, p);
    }
  }
}
