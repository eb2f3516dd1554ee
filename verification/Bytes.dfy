// Little-endian 32-bit words and decimal text, as `struct` and `%d` produce them.
module Bytes {
  type byte = b: int | 0 <= b < 256
  const TWO_32: nat := 0x1_0000_0000
  type u32 = w: int | 0 <= w < TWO_32

  // `struct.pack("<I", w)`.
  function Pack(w: u32): (s: seq<byte>)
    ensures |s| == 4
  {
    [w % 256, w / 256 % 256, w / 65536 % 256, w / 16777216]
  }

  // `struct.unpack("<I", s)[0]`.
  function Unpack(s: seq<byte>): u32
    requires |s| == 4
  {
    var a: int, b: int, c: int, d: int := s[0], s[1], s[2], s[3];
    a + 256 * b + 65536 * c + 16777216 * d
  }

  /** `s` is the word `w`, low byte first. */
  predicate IsWord(s: seq<byte>, w: int) {
    |s| == 4 && w == (s[0] as int) + 0x100 * (s[1] as int) + 0x1_0000 * (s[2] as int) + 0x100_0000 * (s[3] as int)
  }

  lemma WordsAreLittleEndian(s: seq<byte>, w: u32)
    requires |s| == 4
    ensures IsWord(Pack(w), w)
    ensures Unpack(s) == w <==> IsWord(s, w)
  {
    UnpackPack(w);
  }

  lemma UnpackPack(w: u32)
    ensures Unpack(Pack(w)) == w
  {
    DivisionsCompose(w);
  }

  lemma PackUnpack(s: seq<byte>)
    requires |s| == 4
    ensures Pack(Unpack(s)) == s
  {
    var a: int, b: int, c: int, d: int := s[0], s[1], s[2], s[3];
    LowByte(d, 0);
    LowByte(c, d);
    LowByte(b, c + 256 * d);
    LowByte(a, b + 256 * (c + 256 * d));
    assert Unpack(s) == a + 256 * (b + 256 * (c + 256 * d));
    DivisionsCompose(Unpack(s));
  }

  lemma LowByte(low: byte, high: nat)
    ensures (low + 256 * high) % 256 == low && (low + 256 * high) / 256 == high
  {
  }

  lemma DivisionsCompose(w: nat)
    ensures w / 65536 == w / 256 / 256 && w / 16777216 == w / 256 / 256 / 256
  {
    assert w / 16777216 == w / 65536 / 256;
  }

  // ------------------------------------------------------------- decimal

  predicate IsDigit(c: char) {
    '0' <= c <= '9'
  }

  // `str(n)` for a natural number.
  function Decimal(n: nat): (s: string)
    ensures s != [] && forall i :: 0 <= i < |s| ==> IsDigit(s[i])
  {
    var d := ['0' + (n % 10) as char];
    if n < 10 then d else Decimal(n / 10) + d
  }

  function DigitValue(c: char): nat
    requires IsDigit(c)
  {
    c as int - '0' as int
  }

  function Pow10(k: nat): (p: nat)
    ensures p > 0
  {
    if k == 0 then 1 else 10 * Pow10(k - 1)
  }

  /** The digit of weight `10^k` is the one the number has there, and the first is not a zero
      that could be left out. */
  lemma {:induction false} DecimalIsPositional(n: nat, k: nat)
    ensures var s := Decimal(n);
      && (k < |s| ==> s[|s| - 1 - k] as int - '0' as int == n / Pow10(k) % 10)
      && n < Pow10(|s|) && (|s| > 1 ==> Pow10(|s| - 1) <= n)
  {
    hide Pow10;
    var d := ['0' + (n % 10) as char];
    PowersOfTen(|Decimal(n)|);
    PowersOfTen(k);
    if n < 10 {
      assert Decimal(n) == d && |Decimal(n)| == 1;
    } else {
      var front := Decimal(n / 10);
      assert Decimal(n) == front + d;
      DecimalIsPositional(n / 10, if k > 0 then k - 1 else 0);
      PowersOfTen(|front|);
      if k > 0 {
        DivideAgain(n, Pow10(k - 1));
        assert k < |Decimal(n)| ==> Decimal(n)[|front| - k] == front[|front| - 1 - (k - 1)];
      }
    }
  }

  lemma PowersOfTen(k: nat)
    ensures Pow10(0) == 1 && (k > 0 ==> Pow10(k) == 10 * Pow10(k - 1))
  {
  }

  lemma DivideAgain(n: nat, p: nat)
    requires p > 0
    ensures n / (10 * p) == n / 10 / p
  {
    var q, r := n / 10 / p, n / 10 % p;
    assert n == 10 * (q * p + r) + n % 10;
    assert n == q * (10 * p) + (10 * r + n % 10);
    QuotientIs(n, 10 * p, q, 10 * r + n % 10);
  }

  lemma QuotientIs(n: nat, d: nat, q: nat, r: nat)
    requires r < d && n == q * d + r
    ensures n / d == q
  {
    var q' := n / d;
    assert n == q' * d + n % d;
    MultiplesGrow(q' + 1, q, d);
    MultiplesGrow(q + 1, q', d);
  }

  lemma MultiplesGrow(a: nat, b: nat, d: nat)
    ensures a <= b ==> a * d <= b * d
  {
  }

  // `int(s)` for a string of digits.
  function ParseDecimal(s: string): nat
    requires forall i :: 0 <= i < |s| ==> IsDigit(s[i])
  {
    if s == [] then 0 else 10 * ParseDecimal(s[..|s| - 1]) + DigitValue(s[|s| - 1])
  }

  lemma {:induction false} ParseDecimalOfDecimal(n: nat)
    ensures ParseDecimal(Decimal(n)) == n
  {
    var s := Decimal(n);
    if n >= 10 {
      ParseDecimalOfDecimal(n / 10);
      assert s[..|s| - 1] == Decimal(n / 10);
    }
  }
}
