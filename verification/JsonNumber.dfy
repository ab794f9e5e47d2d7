/** Integers in JSON text: `valueToString` writes them backwards into a scratch buffer,
    `OurReader::decodeNumber` reads them back and decides what still fits 64 bits. */
module JsonNumber {
  import opened Bytes

  const MAX_INT64: int := 0x7FFF_FFFF_FFFF_FFFF
  const MIN_INT64: int := -0x8000_0000_0000_0000
  const MAX_UINT64: int := 0xFFFF_FFFF_FFFF_FFFF

  /** The machine integers of the digit loop: leaving their range is an error, not a wrap-around. */
  newtype uint64 = x: int | 0 <= x <= 0xFFFF_FFFF_FFFF_FFFF
  newtype int64 = x: int | -0x8000_0000_0000_0000 <= x <= 0x7FFF_FFFF_FFFF_FFFF

  /** `uintToStringBufferSize`. */
  const BUFFER_SIZE: nat := 3 * 8 + 1

  const MINUS: byte := '-' as int
  const ZERO: byte := '0' as int

  predicate IsDigit(c: byte) {
    '0' as int <= c <= '9' as int
  }

  /** The decimal numeral of `n`. */
  function Decimal(n: nat): (s: Bytes)
    ensures s != [] && forall c <- s :: IsDigit(c)
  {
    if n < 10 then [ZERO + n] else Decimal(n / 10) + [ZERO + n % 10]
  }

  /** The value of a string of digits, on top of `acc`. */
  function Horner(acc: nat, s: Bytes): (n: nat)
    requires forall c <- s :: IsDigit(c)
    decreases |s|
  {
    if s == [] then acc else assert IsDigit(s[0]); Horner(10 * acc + (s[0] - ZERO), s[1..])
  }

  lemma {:induction false} HornerSnoc(acc: nat, s: Bytes, c: byte)
    requires IsDigit(c) && forall d <- s :: IsDigit(d)
    ensures forall d <- s + [c] :: IsDigit(d)
    ensures Horner(acc, s + [c]) == 10 * Horner(acc, s) + (c - ZERO)
    decreases |s|
  {
    if s == [] {
      assert s + [c] == [c];
    } else {
      assert IsDigit(s[0]);
      HornerSnoc(10 * acc + (s[0] - ZERO), s[1..], c);
      assert (s + [c])[1..] == s[1..] + [c];
    }
  }

  lemma {:induction false} HornerOfDecimal(n: nat)
    ensures Horner(0, Decimal(n)) == n
  {
    if n < 10 {
    } else {
      HornerOfDecimal(n / 10);
      HornerSnoc(0, Decimal(n / 10), ZERO + n % 10);
    }
  }

  /** A numeral has no leading zero. */
  lemma {:induction false} DecimalStart(n: nat)
    ensures n > 0 ==> Decimal(n)[0] != ZERO
  {
    if n < 10 {
    } else {
      DecimalStart(n / 10);
    }
  }

  function Pow10(k: nat): (p: nat)
    ensures p > 0
  {
    if k == 0 then 1 else 10 * Pow10(k - 1)
  }

  lemma {:induction false} DecimalLength(n: nat, k: nat)
    requires 0 < k && n < Pow10(k)
    ensures |Decimal(n)| <= k
  {
    if n < 10 {
    } else {
      assert k > 1;
      DecimalLength(n / 10, k - 1);
    }
  }

  lemma {:induction false} UInt64Length(n: nat)
    requires n <= MAX_UINT64
    ensures |Decimal(n)| <= 20
  {
    assert Pow10(10) == 10_000_000_000;
    assert Pow10(20) == 100_000_000_000_000_000_000;
    DecimalLength(n, 20);
  }

  /** `uintToString`: digits go in from the back, behind them a NUL. */
  method UIntToString(value: nat, buf: array<byte>, end: nat) returns (current: nat)
    requires value <= MAX_UINT64 && 21 <= end <= buf.Length
    modifies buf
    ensures end - 21 <= current < end && buf[end - 1] == 0
    ensures buf[current..end - 1] == Decimal(value)
  {
    UInt64Length(value);
    current := end - 1;
    buf[current] := 0;
    var v: nat := value;
    assert Decimal(value) == Decimal(v) + buf[end - 1..end - 1];
    while true
      invariant end - 21 < current < end && |Decimal(v)| <= current - (end - 21) && buf[end - 1] == 0
      invariant Decimal(value) == Decimal(v) + buf[current..end - 1]
      decreases v
    {
      ghost var tail := buf[current..end - 1];
      current := current - 1;
      buf[current] := v % 10 + ZERO;
      assert buf[current..end - 1] == [v % 10 + ZERO] + tail;
      if v / 10 == 0 {
        break;
      }
      assert Decimal(v) == Decimal(v / 10) + [v % 10 + ZERO];
      Assoc(Decimal(v / 10), [v % 10 + ZERO], tail);
      v := v / 10;
    }
  }

  /** The text of an integer. */
  function IntText(v: int): (s: Bytes) {
    if v < 0 then [MINUS] + Decimal(-v) else Decimal(v)
  }

  /** `valueToString(LargestInt)` and `valueToString(LargestUInt)`: every 64-bit value fits the buffer. */
  method ValueToString(v: int) returns (s: Bytes)
    requires MIN_INT64 <= v <= MAX_UINT64
    ensures s == IntText(v)
  {
    var buf := new byte[BUFFER_SIZE](_ => 0);
    var current;
    if v < 0 {
      current := UIntToString(-v, buf, BUFFER_SIZE);
      ghost var digits := buf[current..BUFFER_SIZE - 1];
      current := current - 1;
      buf[current] := MINUS;
      assert buf[current..BUFFER_SIZE - 1] == [MINUS] + digits;
    } else {
      current := UIntToString(v, buf, BUFFER_SIZE);
    }
    s := buf[current..BUFFER_SIZE - 1];
  }

  /** What the reader makes of a number token: an `Int64` or `UInt64` value, or a double. */
  datatype Number = Int(value: int) | UInt(value: int) | Double

  ghost predicate AllDigits(s: Bytes) {
    forall c <- s :: IsDigit(c)
  }

  ghost function DigitsOf(token: Bytes): (s: Bytes) {
    if token != [] && token[0] == MINUS then token[1..] else token
  }

  /** The number a token of digits with an optional minus denotes. */
  ghost function Denotes(token: Bytes): (v: int)
    requires AllDigits(DigitsOf(token))
  {
    if token != [] && token[0] == MINUS then -(Horner(0, DigitsOf(token)) as int) else Horner(0, DigitsOf(token))
  }

  /** The token is read as an integer exactly when it is all digits and its value fits. */
  ghost function Decoded(token: Bytes): (n: Number) {
    if AllDigits(DigitsOf(token)) && MIN_INT64 <= Denotes(token) <= MAX_UINT64 then
      if Denotes(token) <= MAX_INT64 then Int(Denotes(token)) else UInt(Denotes(token))
    else Double
  }

  lemma {:induction false} HornerSplit(acc: nat, s: Bytes, at: nat)
    requires AllDigits(s) && at <= |s|
    ensures Horner(acc, s) == Horner(Horner(acc, s[..at]), s[at..])
    decreases |s|
  {
    if at == 0 {
      assert s[..0] == [] && s[0..] == s;
    } else {
      assert IsDigit(s[0]) && s[..at][1..] == s[1..][..at - 1] && s[1..][at - 1..] == s[at..];
      HornerSplit(10 * acc + (s[0] - ZERO), s[1..], at - 1);
    }
  }

  lemma {:induction false} HornerAtLeast(acc: nat, s: Bytes)
    requires AllDigits(s)
    ensures Horner(acc, s) >= acc && (s != [] ==> Horner(acc, s) >= 10 * acc)
    decreases |s|
  {
    if s == [] {
    } else {
      assert IsDigit(s[0]);
      HornerAtLeast(10 * acc + (s[0] - ZERO), s[1..]);
    }
  }

  /** Giving up at digit `at` is right: the whole is above the limit whatever follows. */
  lemma {:induction false} TooLarge(s: Bytes, at: nat, threshold: nat, lastDigit: nat)
    requires 0 < at <= |s| && AllDigits(s[..at]) && 0 <= lastDigit <= 9 && threshold > 0
    requires var value := Horner(0, s[..at - 1]);
             value >= threshold && (value > threshold || at != |s| || s[at - 1] - ZERO > lastDigit)
    ensures AllDigits(s) ==> Horner(0, s) > 10 * threshold + lastDigit
  {
    var value := Horner(0, s[..at - 1]);
    assert s[..at] == s[..at - 1] + [s[at - 1]];
    assert IsDigit(s[..at][at - 1]);
    HornerSnoc(0, s[..at - 1], s[at - 1]);
    if AllDigits(s) {
      HornerSplit(0, s, at);
      HornerAtLeast(Horner(0, s[..at]), s[at..]);
    }
  }

  /** Every 64-bit integer reads back as itself. */
  lemma IntRoundTrip(v: int)
    requires MIN_INT64 <= v <= MAX_UINT64
    ensures Decoded(IntText(v)) == if v <= MAX_INT64 then Int(v) else UInt(v)
  {
    if v < 0 {
      assert IntText(v)[1..] == Decimal(-v);
      HornerOfDecimal(-v);
    } else {
      assert IsDigit(IntText(v)[0]);
      HornerOfDecimal(v);
    }
  }

  /** `decodeNumber`. No product or sum leaves 64 bits. */
  method DecodeNumber(token: Bytes) returns (n: Number)
    ensures n == Decoded(token)
  {
    var isNegative := token != [] && token[0] == MINUS;
    var digits := if isNegative then token[1..] else token;
    var max: uint64 := if isNegative then 0x8000_0000_0000_0000 else 0xFFFF_FFFF_FFFF_FFFF;
    var threshold, maxLastDigit := max / 10, max % 10;
    var value: uint64, at := 0, 0;
    assert digits[..0] == [];
    while at < |digits|
      invariant 0 <= at <= |digits| && AllDigits(digits[..at]) && value as int == Horner(0, digits[..at]) && value <= max
    {
      var c := digits[at];
      if !IsDigit(c) {
        return Double;
      }
      var digit := (c - ZERO) as uint64;
      at := at + 1;
      HornerSnoc(0, digits[..at - 1], c);
      assert digits[..at] == digits[..at - 1] + [c];
      if value >= threshold {
        if value > threshold || at != |digits| || digit > maxLastDigit {
          TooLarge(digits, at, threshold as int, maxLastDigit as int);
          return Double;
        }
      }
      value := value * 10 + digit;
    }
    assert digits[..at] == digits;
    if isNegative {
      var lastDigit := (value % 10) as int64;
      var decoded := -((value / 10) as int64) * 10 - lastDigit;
      return Int(decoded as int);
    } else if value as int <= MAX_INT64 {
      return Int(value as int);
    } else {
      return UInt(value as int);
    }
  }
}
