/** Rust `String`s as the UTF-8 bytes they hold, and the decimal rendering
    that `to_string()` gives the integers of a date. */
module Text {
  import opened Wrappers

  newtype byte = x: int | 0 <= x < 256

  type Bytes = seq<byte>

  const Slash: byte := 47
  const Minus: byte := 45
  const Zero: byte := 48

  /** The bytes of an ASCII literal: each character is its own code. */
  function Ascii(s: string): (r: Bytes)
    requires forall i | 0 <= i < |s| :: s[i] as int < 128
    ensures |r| == |s|
    ensures forall i | 0 <= i < |s| :: r[i] as int == s[i] as int
  {
    seq(|s|, i requires 0 <= i < |s| => s[i] as int as byte)
  }

  /** Index of the first occurrence of `b` in `s`, if any. */
  function FirstIndexOf(s: Bytes, b: byte): (r: Option<nat>)
    ensures r.None? <==> b !in s
    ensures r.Some? ==> r.value < |s| && s[r.value] == b && b !in s[..r.value]
  {
    if s == [] then None
    else if s[0] == b then Some(0)
    else match FirstIndexOf(s[1..], b)
      case None => None
      case Some(k) =>
        assert s[..k + 1] == [s[0]] + s[1..][..k];
        Some(k + 1)
  }

  /** Rust's `str::split_once` with a one-byte pattern: the text before and
      after the first occurrence of `sep`. */
  function SplitOnce(s: Bytes, sep: byte): (r: Option<(Bytes, Bytes)>)
    ensures r.None? <==> sep !in s
    ensures r.Some? ==> s == r.value.0 + [sep] + r.value.1 && sep !in r.value.0
  {
    match FirstIndexOf(s, sep)
    case None => None
    case Some(k) =>
      assert s == s[..k] + [sep] + s[k + 1..];
      Some((s[..k], s[k + 1..]))
  }

  /** Splitting is determined by where the first separator sits: any
      decomposition around a separator-free prefix is the one found. */
  lemma SplitOnceUnique(s: Bytes, sep: byte, a: Bytes, b: Bytes)
    requires s == a + [sep] + b && sep !in a
    ensures SplitOnce(s, sep) == Some((a, b))
  {
    var r := SplitOnce(s, sep);
    assert s[|a|] == sep;
    assert r.Some?;
    var (a', b') := r.value;
    assert a' == s[..|a|] == a;
    assert b' == s[|a| + 1..] == b;
  }

  predicate IsDigit(b: byte) {
    Zero <= b < Zero + 10
  }

  predicate AllDigits(s: Bytes) {
    forall i | 0 <= i < |s| :: IsDigit(s[i])
  }

  function Digit(d: nat): (r: byte)
    requires d < 10
    ensures IsDigit(r) && (r - Zero) as int == d
  {
    Zero + d as byte
  }

  /** `to_string()` of an unsigned integer: its decimal digits, most
      significant first, with no leading zero. */
  function NatToDecimal(n: nat): (r: Bytes)
    ensures 1 <= |r| && AllDigits(r)
    ensures r[0] == Zero ==> r == [Zero]
    decreases n
  {
    if n < 10 then [Digit(n)] else NatToDecimal(n / 10) + [Digit(n % 10)]
  }

  /** `to_string()` of a signed integer: a minus sign before the digits of
      the magnitude when negative. */
  function IntToDecimal(n: int): (r: Bytes)
    ensures 1 <= |r|
    ensures Slash !in r
  {
    if n < 0 then [Minus] + NatToDecimal(-n) else NatToDecimal(n)
  }

  /** The value of a string of decimal digits (the reading of `parse`). */
  function DecimalValue(s: Bytes): nat
    requires AllDigits(s)
  {
    if s == [] then 0 else DecimalValue(s[..|s| - 1]) * 10 + (s[|s| - 1] - Zero) as int
  }

  /** The value of an optionally signed decimal string. */
  function SignedValue(s: Bytes): int
    requires s != [] && (s[0] == Minus ==> AllDigits(s[1..])) && (s[0] != Minus ==> AllDigits(s))
  {
    if s[0] == Minus then 0 - DecimalValue(s[1..]) else DecimalValue(s)
  }

  lemma {:induction false} NatToDecimalRoundTrip(n: nat)
    ensures DecimalValue(NatToDecimal(n)) == n
    decreases n
  {
    if n >= 10 {
      var s := NatToDecimal(n);
      assert s[..|s| - 1] == NatToDecimal(n / 10);
      NatToDecimalRoundTrip(n / 10);
    }
  }

  lemma IntToDecimalRoundTrip(n: int)
    ensures var s := IntToDecimal(n);
      s != [] && (s[0] == Minus ==> AllDigits(s[1..])) && (s[0] != Minus ==> AllDigits(s))
      && SignedValue(s) == n
  {
    var s := IntToDecimal(n);
    if n < 0 {
      assert s[1..] == NatToDecimal(-n);
      NatToDecimalRoundTrip(-n);
    } else {
      NatToDecimalRoundTrip(n);
    }
  }

  /** The number of digits `to_string()` writes: one below ten, one more for
      each factor of ten. */
  lemma {:induction false} NatToDecimalLength(n: nat)
    ensures n < 10 ==> |NatToDecimal(n)| == 1
    ensures 10 <= n < 100 ==> |NatToDecimal(n)| == 2
    ensures 100 <= n < 1000 ==> |NatToDecimal(n)| == 3
    ensures 1000 <= n < 10000 ==> |NatToDecimal(n)| == 4
    decreases n
  {
    if n >= 10 {
      NatToDecimalLength(n / 10);
    }
  }
}
