/** Strings in JSON text: `valueToQuotedStringN` escapes any byte string into ASCII,
    `OurReader::decodeString` takes the escapes back. Bit operations are written as quotients and
    remainders; where the sources combine disjoint bits with `|`, the model adds. */
module JsonString {
  import opened Bytes

  const QUOTE: byte := 0x22
  const BACKSLASH: byte := 0x5C
  const LOWER_U: byte := 0x75

  const REPLACEMENT: nat := 0xFFFD

  /** `utf8ToCodepoint` at the front of `s`: the code point and the number of bytes it takes.
      Continuation bytes are not checked, and four bytes can exceed U+10FFFF. */
  function Utf8ToCodepoint(s: Bytes): (r: (nat, nat))
    requires s != []
    ensures 0 < r.1 <= |s| && r.1 <= 4
    ensures r.0 < 0x20_0000 && !(0xD800 <= r.0 <= 0xDFFF)
    ensures r.0 < 0x80 <==> s[0] < 0x80
    ensures s[0] < 0x80 ==> r == (s[0], 1)
  {
    var b0: int := s[0];
    if b0 < 0x80 then (b0, 1)
    else if b0 < 0xE0 then
      if |s| < 2 then (REPLACEMENT, 1)
      else
        var cp := b0 % 32 * 64 + s[1] % 64;
        (if cp < 0x80 then REPLACEMENT else cp, 2)
    else if b0 < 0xF0 then
      if |s| < 3 then (REPLACEMENT, 1)
      else
        var cp := (b0 % 16 * 64 + s[1] % 64) * 64 + s[2] % 64;
        (if 0xD800 <= cp <= 0xDFFF || cp < 0x800 then REPLACEMENT else cp, 3)
    else if b0 < 0xF8 then
      if |s| < 4 then (REPLACEMENT, 1)
      else
        var cp := ((b0 % 8 * 64 + s[1] % 64) * 64 + s[2] % 64) * 64 + s[3] % 64;
        (if cp < 0x1_0000 then REPLACEMENT else cp, 4)
    else (REPLACEMENT, 1)
  }

  /** `codePointToUTF8`. */
  function CodePointToUtf8(cp: nat): (r: Bytes) {
    if cp <= 0x7F then [cp]
    else if cp <= 0x7FF then [0xC0 + cp / 64, 0x80 + cp % 64]
    else if cp <= 0xFFFF then [0xE0 + cp / 64 / 64, 0x80 + cp / 64 % 64, 0x80 + cp % 64]
    else if cp <= 0x10_FFFF then [0xF0 + cp / 64 / 64 / 64, 0x80 + cp / 64 / 64 % 64, 0x80 + cp / 64 % 64, 0x80 + cp % 64]
    else []
  }

  predicate IsScalar(cp: nat) {
    cp <= 0x10_FFFF && !(0xD800 <= cp <= 0xDFFF)
  }

  /** The scalar value a written code point stands for: a surrogate pair keeps 20 bits. */
  function Effective(cp: nat): (e: nat)
    ensures !(0xD800 <= cp <= 0xDFFF) ==> IsScalar(e)
    ensures IsScalar(cp) ==> e == cp
  {
    if cp < 0x1_0000 then cp else 0x1_0000 + (cp - 0x1_0000) % 0x10_0000
  }

  function HexDigit(d: nat): (c: byte)
    requires d < 16
  {
    if d < 10 then 0x30 + d else 0x61 + d - 10
  }

  /** `toHex16Bit`. */
  function Hex4(x: nat): (r: Bytes)
    requires x < 0x1_0000
    ensures |r| == 4
  {
    [HexDigit(x / 16 / 16 / 16), HexDigit(x / 16 / 16 % 16), HexDigit(x / 16 % 16), HexDigit(x % 16)]
  }

  /** `appendHex`. */
  function UnicodeEscape(x: nat): (r: Bytes)
    requires x < 0x1_0000
    ensures |r| == 6
  {
    [BACKSLASH, LOWER_U] + Hex4(x)
  }

  /** The letter behind the backslash of a two-character escape, 0 if there is none. */
  function ShortEscape(c: nat): (l: byte) {
    if c == 0x22 then 0x22
    else if c == 0x5C then 0x5C
    else if c == 0x08 then 0x62
    else if c == 0x0C then 0x66
    else if c == 0x0A then 0x6E
    else if c == 0x0D then 0x72
    else if c == 0x09 then 0x74
    else 0
  }

  function EscapeOne(cp: nat): (r: Bytes)
    requires cp < 0x20_0000
    ensures r != []
  {
    if ShortEscape(cp) != 0 then [BACKSLASH, ShortEscape(cp)]
    else if cp < 0x20 then UnicodeEscape(cp)
    else if cp < 0x80 then [cp]
    else if cp < 0x1_0000 then UnicodeEscape(cp)
    else
      var x := cp - 0x1_0000;
      UnicodeEscape(0xD800 + x / 1024 % 1024) + UnicodeEscape(0xDC00 + x % 1024)
  }

  /** The text between the quotes. */
  function Escape(s: Bytes): (r: Bytes)
    decreases |s|
  {
    if s == [] then []
    else var (cp, n) := Utf8ToCodepoint(s); EscapeOne(cp) + Escape(s[n..])
  }

  function Quote(s: Bytes): (r: Bytes) {
    [QUOTE] + Escape(s) + [QUOTE]
  }

  /** What the written text means: the effective scalars, in UTF-8. */
  function Meaning(s: Bytes): (r: Bytes)
    decreases |s|
  {
    if s == [] then []
    else var (cp, n) := Utf8ToCodepoint(s); CodePointToUtf8(Effective(cp)) + Meaning(s[n..])
  }

  /** The value of a hexadecimal digit, 16 for anything else. */
  function HexValue(c: byte): (d: nat)
    ensures d <= 16
  {
    if 0x30 <= c <= 0x39 then c - 0x30
    else if 0x61 <= c <= 0x66 then c - 0x61 + 10
    else if 0x41 <= c <= 0x46 then c - 0x41 + 10
    else 16
  }

  /** `decodeUnicodeEscapeSequence` on the bytes behind a backslash and a u. */
  function ParseHex4(s: Bytes): (r: Option<nat>)
    ensures r.Some? ==> r.value < 0x1_0000 && |s| >= 4
  {
    if |s| < 4 then None
    else
      var a, b, c, d := HexValue(s[0]), HexValue(s[1]), HexValue(s[2]), HexValue(s[3]);
      if a == 16 || b == 16 || c == 16 || d == 16 then None
      else Some(((a * 16 + b) * 16 + c) * 16 + d)
  }

  /** `decodeUnicodeCodePoint`: the code point and the number of bytes taken. A high surrogate takes
      the next escape with it, whatever that one is. */
  function ParseCodePoint(s: Bytes): (r: Option<(nat, nat)>)
    ensures r.Some? ==> 0 < r.value.1 <= |s|
  {
    match ParseHex4(s)
    case None => None
    case Some(x) =>
      if !(0xD800 <= x <= 0xDBFF) then Some((x, 4))
      else if |s| < 10 || s[4] != BACKSLASH || s[5] != LOWER_U then None
      else
        match ParseHex4(s[6..])
        case None => None
        case Some(y) => Some((0x1_0000 + x % 1024 * 1024 + y % 1024, 10))
  }

  /** The character a two-character escape stands for, 0 if there is none. */
  function ShortUnescape(l: byte): (c: byte) {
    if l == 0x22 then 0x22
    else if l == 0x2F then 0x2F
    else if l == 0x5C then 0x5C
    else if l == 0x62 then 0x08
    else if l == 0x66 then 0x0C
    else if l == 0x6E then 0x0A
    else if l == 0x72 then 0x0D
    else if l == 0x74 then 0x09
    else 0
  }

  /** One turn of `decodeString`: the bytes decoded and the number of bytes taken. */
  function UnescapeOne(s: Bytes): (r: Option<(Bytes, nat)>)
    requires s != []
    ensures r.Some? ==> 0 < r.value.1 <= |s|
  {
    if s[0] != BACKSLASH then Some(([s[0]], 1))
    else if |s| == 1 then None
    else if ShortUnescape(s[1]) != 0 then Some(([ShortUnescape(s[1])], 2))
    else if s[1] != LOWER_U then None
    else
      match ParseCodePoint(s[2..])
      case None => None
      case Some((cp, n)) => Some((CodePointToUtf8(cp), n + 2))
  }

  /** `decodeString` on the text between the quotes. */
  function Unescape(s: Bytes): (r: Option<Bytes>)
    decreases |s|
  {
    if s == [] || s[0] == QUOTE then Some([])
    else
      match UnescapeOne(s)
      case None => None
      case Some((bytes, n)) =>
        match Unescape(s[n..])
        case None => None
        case Some(rest) => Some(bytes + rest)
  }

  lemma HexRoundTrip(x: nat, s: Bytes)
    requires x < 0x1_0000 && Hex4(x) <= s
    ensures ParseHex4(s) == Some(x)
  {
    var h := Hex4(x);
    assert s[0] == h[0] && s[1] == h[1] && s[2] == h[2] && s[3] == h[3];
  }

  lemma EscapedUnit(x: nat, rest: Bytes)
    requires x < 0x1_0000 && !(0xD800 <= x <= 0xDBFF)
    ensures UnescapeOne(UnicodeEscape(x) + rest) == Some((CodePointToUtf8(x), 6))
  {
    hide Hex4, ParseHex4, CodePointToUtf8;
    var s := UnicodeEscape(x) + rest;
    assert s[2..] == Hex4(x) + rest;
    HexRoundTrip(x, s[2..]);
  }

  lemma EscapedPair(hi: nat, lo: nat, rest: Bytes)
    requires 0xD800 <= hi <= 0xDBFF && lo < 0x1_0000
    ensures UnescapeOne(UnicodeEscape(hi) + UnicodeEscape(lo) + rest) ==
            Some((CodePointToUtf8(0x1_0000 + hi % 1024 * 1024 + lo % 1024), 12))
  {
    hide Hex4, ParseHex4, CodePointToUtf8;
    var s := UnicodeEscape(hi) + UnicodeEscape(lo) + rest;
    assert s[2..] == Hex4(hi) + ([BACKSLASH, LOWER_U] + Hex4(lo) + rest);
    HexRoundTrip(hi, s[2..]);
    assert s[2..][6..] == Hex4(lo) + rest;
    HexRoundTrip(lo, s[2..][6..]);
  }

  /** One written code point reads back as its effective scalar, whatever follows. */
  lemma OneRoundTrip(cp: nat, rest: Bytes)
    requires cp < 0x20_0000 && !(0xD800 <= cp <= 0xDFFF)
    ensures EscapeOne(cp)[0] != QUOTE
    ensures UnescapeOne(EscapeOne(cp) + rest) == Some((CodePointToUtf8(Effective(cp)), |EscapeOne(cp)|))
  {
    hide UnescapeOne, CodePointToUtf8, Hex4;
    if ShortEscape(cp) != 0 {
      EscapedShort(cp, rest);
    } else if cp < 0x20 || 0x80 <= cp < 0x1_0000 {
      EscapedUnit(cp, rest);
    } else if cp < 0x80 {
      NotEscaped(cp, rest);
    } else {
      var x := cp - 0x1_0000;
      EscapedPair(0xD800 + x / 1024 % 1024, 0xDC00 + x % 1024, rest);
      PairBits(x);
    }
  }

  lemma EscapedShort(cp: nat, rest: Bytes)
    requires ShortEscape(cp) != 0
    ensures UnescapeOne([BACKSLASH, ShortEscape(cp)] + rest) == Some((CodePointToUtf8(cp), 2))
  {
    hide ParseCodePoint;
    var s := [BACKSLASH, ShortEscape(cp)] + rest;
    assert s[0] == BACKSLASH && s[1] == ShortEscape(cp);
  }

  lemma NotEscaped(cp: nat, rest: Bytes)
    requires 0x20 <= cp < 0x80 && ShortEscape(cp) == 0
    ensures UnescapeOne([cp] + rest) == Some((CodePointToUtf8(cp), 1))
  {
    hide ParseCodePoint;
    var s := [cp] + rest;
    assert s[0] == cp;
  }

  lemma PairBits(x: nat)
    ensures (0xD800 + x / 1024 % 1024) % 1024 * 1024 + (0xDC00 + x % 1024) % 1024 == x % 0x10_0000
  {
    var high, mid, low := x / 1024 / 1024, x / 1024 % 1024, x % 1024;
    assert (0xD800 + mid) % 1024 == mid && (0xDC00 + low) % 1024 == low;
    Low20(x, high, mid * 1024 + low);
  }

  lemma Low20(x: nat, p: nat, m: nat)
    requires x == p * 0x10_0000 + m && m < 0x10_0000
    ensures x % 0x10_0000 == m
  {
  }

  /** Any byte string: reading the written text always succeeds and yields its meaning. */
  lemma {:induction false} UnescapeEscape(s: Bytes)
    ensures Unescape(Escape(s)) == Some(Meaning(s))
    decreases |s|
  {
    if s == [] {
    } else {
      var (cp, n) := Utf8ToCodepoint(s);
      var rest := Escape(s[n..]);
      OneRoundTrip(cp, rest);
      UnescapeEscape(s[n..]);
      assert Escape(s)[|EscapeOne(cp)|..] == rest;
    }
  }

  predicate Tail(c: byte) {
    0x80 <= c <= 0xBF
  }

  /** The first two bytes of a three-byte and of a four-byte unit. */
  predicate Lead3(a: byte, b: byte) {
    || (a == 0xE0 && 0xA0 <= b <= 0xBF)
    || (0xE1 <= a <= 0xEC && Tail(b))
    || (a == 0xED && 0x80 <= b <= 0x9F)
    || (0xEE <= a <= 0xEF && Tail(b))
  }

  predicate Lead4(a: byte, b: byte) {
    || (a == 0xF0 && 0x90 <= b <= 0xBF)
    || (0xF1 <= a <= 0xF3 && Tail(b))
    || (a == 0xF4 && 0x80 <= b <= 0x8F)
  }

  /** The length of the well-formed unit at the front, 0 if there is none: section 4 of RFC 3629. */
  function UnitLength(s: Bytes): (n: nat)
    ensures n <= |s| && n <= 4
  {
    if |s| >= 1 && s[0] <= 0x7F then 1
    else if |s| >= 2 && 0xC2 <= s[0] <= 0xDF && Tail(s[1]) then 2
    else if |s| >= 3 && Lead3(s[0], s[1]) && Tail(s[2]) then 3
    else if |s| >= 4 && Lead4(s[0], s[1]) && Tail(s[2]) && Tail(s[3]) then 4
    else 0
  }

  predicate ValidUtf8(s: Bytes)
    decreases |s|
  {
    s == [] || (UnitLength(s) > 0 && ValidUtf8(s[UnitLength(s)..]))
  }

  /** The bytes a leading byte announces, 0 for none. */
  function Announced(b: byte): (k: nat) {
    if b < 0x80 then 1 else if b < 0xE0 then 2 else if b < 0xF0 then 3 else if b < 0xF8 then 4 else 0
  }

  /** The value bits of a unit of `k` bytes: what the marker leaves of the first, six of each other one. */
  function ValueBits(s: Bytes, k: nat): (n: nat)
    requires 1 <= k <= |s| && k <= 4
    decreases k
  {
    if k == 1 then s[0] else 64 * ValueBits(s[..k - 1], k - 1) + s[k - 1] % 64
  }

  /** The least code point that needs a unit of `k` bytes. */
  function Least(k: nat): (n: nat) {
    if k <= 1 then 0 else if k == 2 then 0x80 else if k == 3 then 0x800 else 0x1_0000
  }

  /** What the writer makes of any bytes at the front: a unit that is cut off or that nothing announces counts as one
      replacement character for one byte, and one with too many bytes or of a surrogate for all of its bytes. */
  lemma FrontIs(s: Bytes)
    requires s != []
    ensures var (cp, n), k := Utf8ToCodepoint(s), Announced(s[0]);
            if k == 0 || k > |s| then (cp, n) == (0xFFFD, 1)
            else
              var first := if k == 1 then s[0] else s[0] % (if k == 2 then 32 else if k == 3 then 16 else 8);
              var bits := ValueBits([first] + s[1..], k);
              n == k && cp == if bits < Least(k) || 0xD800 <= bits <= 0xDFFF then 0xFFFD else bits
  {
    var k := Announced(s[0]);
    if 1 < k <= |s| {
      var t := [s[0] % (if k == 2 then 32 else if k == 3 then 16 else 8)] + s[1..];
      assert t[..1] == [t[0]];
      assert k > 2 ==> t[..2][..1] == t[..1];
      assert k > 3 ==> t[..3][..2] == t[..2];
      BitsOf(t, k);
    }
  }

  lemma {:induction false} BitsOf(t: Bytes, k: nat)
    requires 2 <= k <= 4 && k <= |t|
    ensures var two: nat := 64 * t[0] as int + t[1] % 64;
            ValueBits(t, k) == if k == 2 then two
                               else if k == 3 then 64 * two + t[2] % 64 else 64 * (64 * two + t[2] % 64) + t[3] % 64
  {
    if k > 2 {
      BitsOf(t[..k - 1], k - 1);
    }
  }

  lemma TwoByteUnit(s: Bytes)
    requires |s| >= 2 && 0xC2 <= s[0] <= 0xDF && Tail(s[1])
    ensures var (cp, n) := Utf8ToCodepoint(s);
            n == 2 && IsScalar(cp) && CodePointToUtf8(cp) == s[..n]
  {
    var b0: int := s[0];
    assert b0 % 32 == b0 - 0xC0;
    Split64(b0 - 0xC0, s[1] - 0x80);
  }

  lemma ThreeByteUnit(s: Bytes)
    requires |s| >= 3 && Lead3(s[0], s[1]) && Tail(s[2])
    ensures var (cp, n) := Utf8ToCodepoint(s);
            n == 3 && IsScalar(cp) && CodePointToUtf8(cp) == s[..n]
  {
    var b0: int := s[0];
    assert b0 % 16 == b0 - 0xE0;
    Split64(b0 - 0xE0, s[1] - 0x80);
    Split64((b0 - 0xE0) * 64 + (s[1] - 0x80), s[2] - 0x80);
  }

  lemma EncodeFour(x: nat, y: nat, z: nat, w: nat)
    requires x < 5 && y < 64 && z < 64 && w < 64 && 16 <= x * 64 + y < 272
    ensures var cp := ((x * 64 + y) * 64 + z) * 64 + w;
            0x1_0000 <= cp <= 0x10_FFFF && CodePointToUtf8(cp) == [0xF0 + x, 0x80 + y, 0x80 + z, 0x80 + w]
  {
    Split64(x, y);
    Split64(x * 64 + y, z);
    Split64((x * 64 + y) * 64 + z, w);
  }

  lemma FourByteUnit(s: Bytes)
    requires |s| >= 4 && Lead4(s[0], s[1]) && Tail(s[2]) && Tail(s[3])
    ensures var (cp, n) := Utf8ToCodepoint(s);
            n == 4 && IsScalar(cp) && CodePointToUtf8(cp) == s[..n]
  {
    hide CodePointToUtf8;
    var x, y, z, w := s[0] - 0xF0, s[1] - 0x80, s[2] - 0x80, s[3] - 0x80;
    assert s[0] % 8 == x && s[1] % 64 == y && s[2] % 64 == z && s[3] % 64 == w;
    EncodeFour(x, y, z, w);
  }

  /** The writer decodes a well-formed unit to the scalar that encodes to it. */
  lemma UnitIsScalar(s: Bytes)
    requires UnitLength(s) > 0
    ensures var (cp, n) := Utf8ToCodepoint(s);
            n == UnitLength(s) && IsScalar(cp) && CodePointToUtf8(cp) == s[..n]
  {
    if s[0] > 0x7F {
      hide Utf8ToCodepoint, CodePointToUtf8;
      if UnitLength(s) == 2 {
        TwoByteUnit(s);
      } else if UnitLength(s) == 3 {
        ThreeByteUnit(s);
      } else {
        FourByteUnit(s);
      }
    }
  }

  lemma Split64(hi: int, lo: int)
    requires 0 <= lo < 64
    ensures (hi * 64 + lo) / 64 == hi && (hi * 64 + lo) % 64 == lo && (lo + 0x80) % 64 == lo
  {
  }

  /** Every scalar encodes to one well-formed unit. */
  lemma ScalarIsUnit(cp: nat, rest: Bytes)
    requires IsScalar(cp)
    ensures UnitLength(CodePointToUtf8(cp) + rest) == |CodePointToUtf8(cp)| > 0
  {
    var s := CodePointToUtf8(cp) + rest;
    if cp <= 0x7F {
    } else if cp <= 0x7FF {
      assert s[0] == 0xC0 + cp / 64 && s[1] == 0x80 + cp % 64;
    } else if cp <= 0xFFFF {
      assert s[0] == 0xE0 + cp / 64 / 64 && s[1] == 0x80 + cp / 64 % 64 && s[2] == 0x80 + cp % 64;
    } else {
      assert s[0] == 0xF0 + cp / 64 / 64 / 64 && s[1] == 0x80 + cp / 64 / 64 % 64;
      assert s[2] == 0x80 + cp / 64 % 64 && s[3] == 0x80 + cp % 64;
    }
  }

  /** What is read back is always valid UTF-8. */
  lemma {:induction false} MeaningIsValid(s: Bytes)
    ensures ValidUtf8(Meaning(s))
    decreases |s|
  {
    if s == [] {
    } else {
      var (cp, n) := Utf8ToCodepoint(s);
      var unit, rest := CodePointToUtf8(Effective(cp)), Meaning(s[n..]);
      MeaningIsValid(s[n..]);
      ScalarIsUnit(Effective(cp), rest);
      assert (unit + rest)[|unit|..] == rest;
    }
  }

  /** Valid UTF-8 means itself. */
  lemma {:induction false} MeaningOfValid(s: Bytes)
    requires ValidUtf8(s)
    ensures Meaning(s) == s
    decreases |s|
  {
    hide UnitLength, Utf8ToCodepoint, CodePointToUtf8;
    if s == [] {
    } else {
      UnitIsScalar(s);
      var n := UnitLength(s);
      MeaningOfValid(s[n..]);
      assert s == s[..n] + s[n..];
    }
  }

  /** Writing and reading any byte string: always defined, valid UTF-8, the identity on valid UTF-8
      and idempotent on the rest. */
  lemma {:induction false} StringRoundTrip(s: Bytes)
    ensures Unescape(Escape(s)).Some?
    ensures var r := Unescape(Escape(s)).value;
            ValidUtf8(r) && (ValidUtf8(s) ==> r == s) && Unescape(Escape(r)) == Some(r)
  {
    UnescapeEscape(s);
    MeaningIsValid(s);
    MeaningOfValid(Meaning(s));
    UnescapeEscape(Meaning(s));
    if ValidUtf8(s) {
      MeaningOfValid(s);
    }
  }

  /** `readString` behind the opening quote: the number of bytes up to and with the closing one. */
  function ScanString(s: Bytes): (r: Option<nat>)
    ensures r.Some? ==> 0 < r.value <= |s| && s[r.value - 1] == QUOTE
    decreases |s|
  {
    if s == [] then None
    else if s[0] == QUOTE then Some(1)
    else
      var n := if s[0] == BACKSLASH && |s| > 1 then 2 else 1;
      match ScanString(s[n..])
      case None => None
      case Some(k) => Some(n + k)
  }

  function Skipped(n: nat, r: Option<nat>): (q: Option<nat>) {
    match r
    case None => None
    case Some(k) => Some(n + k)
  }

  lemma {:induction false} ScanPlain(p: Bytes, t: Bytes)
    requires forall c <- p :: c != QUOTE && c != BACKSLASH
    ensures ScanString(p + t) == Skipped(|p|, ScanString(t))
    decreases |p|
  {
    hide ScanString;
    if p == [] {
      assert p + t == t;
    } else {
      assert p[0] in p && forall c <- p[1..] :: c in p;
      ScanPlain(p[1..], t);
      ScanChar(p[0], p[1..] + t);
      assert p + t == [p[0]] + (p[1..] + t);
    }
  }

  lemma {:induction false} ScanChar(c: byte, t: Bytes)
    requires c != QUOTE && c != BACKSLASH
    ensures ScanString([c] + t) == Skipped(1, ScanString(t))
  {
    assert ([c] + t)[1..] == t;
  }

  lemma HexIsPlain(x: nat)
    requires x < 0x1_0000
    ensures forall c <- Hex4(x) :: 0x30 <= c <= 0x66 && c != BACKSLASH
  {
  }

  lemma {:induction false} ScanUnicodeEscape(x: nat, t: Bytes)
    requires x < 0x1_0000
    ensures ScanString(UnicodeEscape(x) + t) == Skipped(6, ScanString(t))
  {
    hide Hex4;
    var s := UnicodeEscape(x) + t;
    assert s[2..] == Hex4(x) + t;
    HexIsPlain(x);
    ScanPlain(Hex4(x), t);
  }

  lemma {:induction false} ScanOne(cp: nat, t: Bytes)
    requires cp < 0x20_0000
    ensures ScanString(EscapeOne(cp) + t) == Skipped(|EscapeOne(cp)|, ScanString(t))
  {
    hide UnicodeEscape, ScanString;
    if ShortEscape(cp) != 0 {
      ScanPair(ShortEscape(cp), t);
    } else if cp < 0x20 || 0x80 <= cp < 0x1_0000 {
      ScanUnicodeEscape(cp, t);
    } else if cp < 0x80 {
      ScanPlain([cp], t);
    } else {
      var x := cp - 0x1_0000;
      var hi, lo := 0xD800 + x / 1024 % 1024, 0xDC00 + x % 1024;
      Assoc(UnicodeEscape(hi), UnicodeEscape(lo), t);
      ScanUnicodeEscape(lo, t);
      ScanUnicodeEscape(hi, UnicodeEscape(lo) + t);
    }
  }

  lemma {:induction false} ScanPair(l: byte, t: Bytes)
    ensures ScanString([BACKSLASH, l] + t) == Skipped(2, ScanString(t))
  {
    assert ([BACKSLASH, l] + t)[2..] == t;
  }

  predicate Printable(c: byte) {
    0x20 <= c <= 0x7F
  }

  lemma OneIsPrintable(cp: nat)
    requires cp < 0x20_0000
    ensures forall c <- EscapeOne(cp) :: Printable(c)
  {
    hide Hex4;
    if ShortEscape(cp) == 0 && (cp < 0x20 || cp >= 0x80) {
      if cp < 0x1_0000 {
        HexIsPlain(cp);
      } else {
        var x := cp - 0x1_0000;
        HexIsPlain(0xD800 + x / 1024 % 1024);
        HexIsPlain(0xDC00 + x % 1024);
      }
    }
  }

  lemma {:induction false} EscapeScans(s: Bytes, t: Bytes)
    ensures ScanString(Escape(s) + t) == Skipped(|Escape(s)|, ScanString(t))
    decreases |s|
  {
    hide EscapeOne, Utf8ToCodepoint, ScanString;
    if s == [] {
      assert Escape(s) + t == t;
    } else {
      var (cp, n) := Utf8ToCodepoint(s);
      var rest := Escape(s[n..]);
      EscapeScans(s[n..], t);
      ScanOne(cp, rest + t);
      Assoc(EscapeOne(cp), rest, t);
    }
  }

  lemma {:induction false} EscapeIsPrintable(s: Bytes)
    ensures forall c <- Escape(s) :: Printable(c)
    decreases |s|
  {
    hide EscapeOne, Utf8ToCodepoint, Printable;
    if s == [] {
    } else {
      var (cp, n) := Utf8ToCodepoint(s);
      EscapeIsPrintable(s[n..]);
      OneIsPrintable(cp);
    }
  }

  /** The written text is one string token of printable ASCII, whatever follows it. */
  lemma {:induction false} QuoteIsOneToken(s: Bytes, post: Bytes)
    ensures ScanString(Escape(s) + [QUOTE] + post) == Some(|Escape(s)| + 1)
    ensures forall c <- Quote(s) :: Printable(c)
  {
    hide Escape;
    EscapeIsPrintable(s);
    EscapeScans(s, [QUOTE] + post);
    Assoc(Escape(s), [QUOTE], post);
    assert ([QUOTE] + post)[0] == QUOTE;
  }

  /** `doesAnyCharRequireEscaping`. */
  predicate NeedsEscape(c: byte) {
    c == BACKSLASH || c == QUOTE || c < 0x20 || c > 0x7F
  }

  lemma {:induction false} PlainIsItself(s: Bytes)
    requires forall c <- s :: !NeedsEscape(c)
    ensures Escape(s) == s
    decreases |s|
  {
    hide Utf8ToCodepoint, EscapeOne;
    if s == [] {
    } else {
      assert s[0] in s && forall c <- s[1..] :: c in s;
      PlainOne(s[0]);
      PlainIsItself(s[1..]);
      assert s == [s[0]] + s[1..];
    }
  }

  lemma PlainOne(c: byte)
    requires !NeedsEscape(c)
    ensures EscapeOne(c) == [c]
  {
  }

  /** One turn of the escaping loop: what is written and how many bytes it takes. */
  method EscapeNext(s: Bytes) returns (piece: Bytes, taken: nat)
    requires s != []
    ensures (piece, taken) == (EscapeOne(Utf8ToCodepoint(s).0), Utf8ToCodepoint(s).1)
  {
    hide UnicodeEscape;
    if ShortEscape(s[0]) != 0 {
      return [BACKSLASH, ShortEscape(s[0])], 1;
    }
    var (codepoint, n) := Utf8ToCodepoint(s);
    taken := n;
    if codepoint < 0x20 {
      piece := UnicodeEscape(codepoint);
    } else if codepoint < 0x80 {
      piece := [codepoint];
    } else if codepoint < 0x1_0000 {
      piece := UnicodeEscape(codepoint);
    } else {
      var x := codepoint - 0x1_0000;
      piece := UnicodeEscape(0xD800 + x / 1024 % 1024);
      piece := piece + UnicodeEscape(0xDC00 + x % 1024);
    }
  }

  /** `valueToQuotedStringN` without `emitUTF8`. */
  method ValueToQuotedString(value: Bytes) returns (result: Bytes)
    ensures result == Quote(value)
  {
    hide EscapeOne, Utf8ToCodepoint;
    if forall c <- value :: !NeedsEscape(c) {
      PlainIsItself(value);
      return [QUOTE] + value + [QUOTE];
    }
    result := [QUOTE];
    var at := 0;
    assert value[0..] == value;
    while at < |value|
      invariant 0 <= at <= |value| && result + Escape(value[at..]) == [QUOTE] + Escape(value)
    {
      var piece, n := EscapeNext(value[at..]);
      assert value[at..][n..] == value[at + n..];
      Assoc(result, piece, Escape(value[at + n..]));
      result, at := result + piece, at + n;
    }
    assert value[at..] == [];
    result := result + [QUOTE];
  }

  /** `decoded` in front of what is still to be decoded. */
  function Prepend(decoded: Bytes, r: Option<Bytes>): (q: Option<Bytes>) {
    match r
    case None => None
    case Some(rest) => Some(decoded + rest)
  }

  lemma PrependTwice(a: Bytes, b: Bytes, r: Option<Bytes>)
    ensures Prepend(a, Prepend(b, r)) == Prepend(a + b, r) && Prepend([], r) == r
  {
    if r.Some? {
      Assoc(a, b, r.value);
      assert [] + r.value == r.value;
    }
  }

  /** `decodeString`. */
  method DecodeString(body: Bytes) returns (r: Option<Bytes>)
    ensures r == Unescape(body)
  {
    hide UnescapeOne;
    var decoded, at: nat := [], 0;
    assert body[0..] == body;
    PrependTwice([], [], Unescape(body));
    while at < |body|
      invariant at <= |body| && Unescape(body) == Prepend(decoded, Unescape(body[at..]))
    {
      var s := body[at..];
      assert decoded + [] == decoded;
      if s[0] == QUOTE {
        return Some(decoded);
      }
      match UnescapeOne(s) {
        case None =>
          return None;
        case Some((bytes, n)) =>
          assert s[n..] == body[at + n..];
          assert Unescape(s) == Prepend(bytes, Unescape(body[at + n..]));
          PrependTwice(decoded, bytes, Unescape(body[at + n..]));
          decoded, at := decoded + bytes, at + n;
      }
    }
    assert body[at..] == [] && decoded + [] == decoded;
    return Some(decoded);
  }
}
