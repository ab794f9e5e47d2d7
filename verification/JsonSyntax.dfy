/** The texts the reader accepts, as syntax trees that can be written down: what every tree reads as, and that
    every accepted text is one. */
module JsonSyntax {
  import opened Bytes
  import opened JsonNumber
  import opened JsonString
  import opened JsonValue
  import opened JsonGrammar

  /** White space between tokens. */
  predicate Gap(s: Bytes) {
    forall c <- s :: c == ' ' as int || c == '\t' as int || c == '\r' as int || c == '\n' as int
  }

  /** A string is made of bytes that stand for themselves, two-character escapes, and UTF-16 units in hexadecimal,
      of which a high surrogate takes the next one with it. */
  datatype Piece = Raw(c: byte) | Short(letter: byte) | Unit(x: Bytes) | Pair(x: Bytes, y: Bytes)

  predicate IsHex(c: byte) {
    '0' as int <= c <= '9' as int || 'a' as int <= c <= 'f' as int || 'A' as int <= c <= 'F' as int
  }

  function HexOf(c: byte): (d: nat)
    requires IsHex(c)
  {
    if c <= '9' as int then c - '0' as int
    else if c <= 'F' as int then c - 'A' as int + 10
    else c - 'a' as int + 10
  }

  predicate IsUnit(x: Bytes) {
    |x| == 4 && IsHex(x[0]) && IsHex(x[1]) && IsHex(x[2]) && IsHex(x[3])
  }

  function UnitOf(x: Bytes): (u: nat)
    requires IsUnit(x)
  {
    4096 * HexOf(x[0]) + 256 * HexOf(x[1]) + 16 * HexOf(x[2]) + HexOf(x[3])
  }

  predicate HighSurrogate(x: Bytes) {
    IsUnit(x) && 0xD800 <= UnitOf(x) <= 0xDBFF
  }

  /** The bytes of the letters behind a backslash: quotation mark, backslash, slash, b, f, n, r, t. */
  function ShortMeans(letter: byte): (r: Option<byte>) {
    match letter as char
    case '"' => Some(0x22)
    case '\\' => Some(0x5C)
    case '/' => Some(0x2F)
    case 'b' => Some(0x08)
    case 'f' => Some(0x0C)
    case 'n' => Some(0x0A)
    case 'r' => Some(0x0D)
    case 't' => Some(0x09)
    case _ => None
  }

  predicate ProperPiece(p: Piece) {
    match p
    case Raw(c) => c != '"' as int && c != '\\' as int
    case Short(letter) => ShortMeans(letter).Some?
    case Unit(x) => IsUnit(x) && !HighSurrogate(x)
    case Pair(x, y) => HighSurrogate(x) && IsUnit(y)
  }

  function PieceText(p: Piece): (t: Bytes) {
    match p
    case Raw(c) => [c]
    case Short(letter) => ['\\' as int, letter]
    case Unit(x) => ['\\' as int, 'u' as int] + x
    case Pair(x, y) => ['\\' as int, 'u' as int] + x + ['\\' as int, 'u' as int] + y
  }

  function PieceMeans(p: Piece): (b: Bytes)
    requires ProperPiece(p)
  {
    match p
    case Raw(c) => [c]
    case Short(letter) => [ShortMeans(letter).value]
    case Unit(x) => CodePointToUtf8(UnitOf(x))
    case Pair(x, y) => CodePointToUtf8(0x1_0000 + 1024 * (UnitOf(x) - 0xD800) + UnitOf(y) % 1024)
  }

  lemma UnitIsHex(x: Bytes, rest: Bytes)
    ensures IsUnit(x) ==> ParseHex4(x + rest) == Some(UnitOf(x))
    ensures |x| == 4 && ParseHex4(x + rest).Some? ==> IsUnit(x)
  {
    if |x| == 4 {
      var s := x + rest;
      assert s[0] == x[0] && s[1] == x[1] && s[2] == x[2] && s[3] == x[3];
    }
  }

  /** Each piece reads as what it means. */
  lemma PieceReads(p: Piece, rest: Bytes)
    requires ProperPiece(p)
    ensures PieceText(p) != [] && PieceText(p)[0] != QUOTE
    ensures UnescapeOne(PieceText(p) + rest) == Some((PieceMeans(p), |PieceText(p)|))
  {
    hide CodePointToUtf8, ParseCodePoint, UnitOf;
    var s := PieceText(p) + rest;
    match p
    case Raw(c) =>
    case Short(letter) =>
    case Unit(x) =>
      assert s[2..] == x + rest;
      UnitReads(x, rest);
    case Pair(x, y) =>
      assert s[2..] == x + (['\\' as int, 'u' as int] + y + rest);
      PairReads(x, y, rest);
  }

  lemma UnitReads(x: Bytes, rest: Bytes)
    requires IsUnit(x) && !HighSurrogate(x)
    ensures ParseCodePoint(x + rest) == Some((UnitOf(x), 4))
  {
    hide ParseHex4, UnitOf;
    UnitIsHex(x, rest);
  }

  lemma PairReads(x: Bytes, y: Bytes, rest: Bytes)
    requires HighSurrogate(x) && IsUnit(y)
    ensures var cp: nat := 0x1_0000 + 1024 * (UnitOf(x) - 0xD800) + UnitOf(y) % 1024;
            ParseCodePoint(x + (['\\' as int, 'u' as int] + y + rest)) == Some((cp, 10))
  {
    hide ParseHex4, UnitOf;
    var more := ['\\' as int, 'u' as int] + y + rest;
    var s := x + more;
    assert s[4] == more[0] && s[5] == more[1] && s[6..] == y + rest;
    UnitIsHex(x, more);
    UnitIsHex(y, rest);
    HighBits(UnitOf(x));
  }

  lemma HighBits(u: nat)
    requires 0xD800 <= u <= 0xDBFF
    ensures u % 1024 == u - 0xD800
  {
  }

  lemma {:induction false} PieceScans(p: Piece, rest: Bytes)
    requires ProperPiece(p)
    ensures ScanString(PieceText(p) + rest) == Skipped(|PieceText(p)|, ScanString(rest))
  {
    hide ScanString;
    match p
    case Raw(c) => ScanChar(c, rest);
    case Short(letter) => ScanPair(letter, rest);
    case Unit(x) => UnitScans(x, rest);
    case Pair(x, y) =>
      var unit := ['\\' as int, 'u' as int] + y;
      UnitScans(y, rest);
      UnitScans(x, unit + rest);
      assert PieceText(p) + rest == ['\\' as int, 'u' as int] + x + (unit + rest);
  }

  lemma {:induction false} UnitScans(x: Bytes, rest: Bytes)
    requires IsUnit(x)
    ensures ScanString(['\\' as int, 'u' as int] + x + rest) == Skipped(6, ScanString(rest))
  {
    hide ScanString;
    ScanPlain(x, rest);
    ScanPair('u' as int, x + rest);
    assert ['\\' as int, 'u' as int] + x + rest == [BACKSLASH, 'u' as int] + (x + rest);
  }

  /** What reads as one turn of the decoder is a piece. */
  lemma PieceOf(s: Bytes) returns (p: Piece)
    requires s != [] && s[0] != QUOTE && UnescapeOne(s).Some?
    ensures ProperPiece(p)
    ensures var (bytes, n) := UnescapeOne(s).value; PieceText(p) == s[..n] && PieceMeans(p) == bytes
  {
    hide CodePointToUtf8, ParseHex4, UnitOf;
    if s[0] != BACKSLASH {
      p := Raw(s[0]);
    } else if ShortUnescape(s[1]) != 0 {
      p := Short(s[1]);
      assert s[..2] == [s[0], s[1]];
    } else {
      var t := s[2..];
      var x := t[..4];
      assert t == x + t[4..];
      UnitIsHex(x, t[4..]);
      if HighSurrogate(x) {
        var y := t[6..10];
        assert t[6..] == y + t[10..];
        UnitIsHex(y, t[10..]);
        HighBits(UnitOf(x));
        p := Pair(x, y);
        assert s[..12] == [s[0], s[1]] + x + [t[4], t[5]] + y;
      } else {
        p := Unit(x);
        assert s[..6] == [s[0], s[1]] + x;
      }
    }
  }

  predicate ProperPieces(ps: seq<Piece>) {
    forall p <- ps :: ProperPiece(p)
  }

  function PiecesText(ps: seq<Piece>): (t: Bytes) {
    if ps == [] then [] else PieceText(ps[0]) + PiecesText(ps[1..])
  }

  function PiecesMean(ps: seq<Piece>): (b: Bytes)
    requires ProperPieces(ps)
  {
    if ps == [] then [] else PieceMeans(ps[0]) + PiecesMean(ps[1..])
  }

  /** A string is closed by the first quotation mark behind its pieces, and means what they mean. */
  lemma {:induction false} PiecesRead(ps: seq<Piece>, rest: Bytes)
    requires ProperPieces(ps)
    ensures ScanString(PiecesText(ps) + ([QUOTE] + rest)) == Some(|PiecesText(ps)| + 1)
    ensures Unescape(PiecesText(ps)) == Some(PiecesMean(ps))
  {
    hide ScanString, PiecesText, ProperPieces;
    PiecesScan(ps, [QUOTE] + rest);
    FirstQuote([QUOTE] + rest);
    PiecesDecode(ps);
  }

  lemma {:induction false} PiecesScan(ps: seq<Piece>, end: Bytes)
    requires ProperPieces(ps)
    ensures ScanString(PiecesText(ps) + end) == Skipped(|PiecesText(ps)|, ScanString(end))
    decreases |ps|
  {
    hide PieceText, ProperPiece, ScanString;
    if ps == [] {
      assert PiecesText(ps) + end == end;
    } else {
      PiecesScan(ps[1..], end);
      PieceScans(ps[0], PiecesText(ps[1..]) + end);
      Assoc(PieceText(ps[0]), PiecesText(ps[1..]), end);
    }
  }

  lemma {:induction false} PiecesDecode(ps: seq<Piece>)
    requires ProperPieces(ps)
    ensures Unescape(PiecesText(ps)) == Some(PiecesMean(ps))
    decreases |ps|
  {
    hide UnescapeOne, PieceText, PieceMeans, ProperPiece;
    if ps == [] {
    } else {
      var text, more := PieceText(ps[0]), PiecesText(ps[1..]);
      PiecesDecode(ps[1..]);
      PieceReads(ps[0], more);
      assert (text + more)[|text|..] == more;
    }
  }

  lemma {:induction false} PiecesOf(t: Bytes, k: nat) returns (ps: seq<Piece>)
    requires ScanString(t) == Some(k + 1) && k < |t| && Unescape(t[..k]).Some?
    ensures ProperPieces(ps) && PiecesText(ps) == t[..k] && Unescape(t[..k]) == Some(PiecesMean(ps))
    decreases k
  {
    hide UnescapeOne, PieceText, PieceMeans, ProperPiece, ScanString;
    var inner := t[..k];
    if k == 0 {
      ps := [];
    } else {
      FirstQuote(t);
      var p := PieceOf(inner);
      var n := |PieceText(p)|;
      var rest := t[n..];
      assert t == PieceText(p) + rest && inner[n..] == rest[..k - n];
      PieceScans(p, rest);
      var more := PiecesOf(rest, k - n);
      ps := [p] + more;
      assert ps[1..] == more;
      assert inner == PieceText(p) + inner[n..];
    }
  }

  lemma {:induction false} FirstQuote(t: Bytes)
    requires t != []
    ensures t[0] == QUOTE <==> ScanString(t) == Some(1)
  {
  }

  /** The writer's choice: a two-character escape for these seven and no others. */
  predicate EscapedShort(cp: nat) {
    cp == '"' as int || cp == '\\' as int || cp == 0x08 || cp == 0x0C || cp == 0x0A || cp == 0x0D || cp == 0x09
  }

  /** Hexadecimal digits are written in lower case. */
  predicate LowerHex(x: Bytes) {
    IsUnit(x) && forall c <- x :: c < 'A' as int || 'F' as int < c
  }

  /** How a code point is written. */
  lemma WrittenPiece(cp: nat) returns (p: Piece)
    requires cp < 0x20_0000 && !(0xD800 <= cp <= 0xDBFF)
    ensures ProperPiece(p) && EscapeOne(cp) == PieceText(p)
    ensures if EscapedShort(cp) then p.Short? && ShortMeans(p.letter) == Some(cp)
            else if 0x20 <= cp < 0x80 then p == Raw(cp)
            else if cp < 0x1_0000 then p.Unit? && LowerHex(p.x) && UnitOf(p.x) == cp
            else && p.Pair? && LowerHex(p.x) && LowerHex(p.y)
                 && UnitOf(p.x) == 0xD800 + (cp - 0x1_0000) / 1024 % 1024 && UnitOf(p.y) == 0xDC00 + (cp - 0x1_0000) % 1024
  {
    hide Hex4, UnitOf, IsUnit;
    if EscapedShort(cp) {
      p := Short(ShortEscape(cp));
    } else if 0x20 <= cp < 0x80 {
      p := Raw(cp);
    } else if cp < 0x1_0000 {
      p := Unit(Hex4(cp));
      HexWritten(cp);
    } else {
      var x := cp - 0x1_0000;
      var hi, lo := 0xD800 + x / 1024 % 1024, 0xDC00 + x % 1024;
      p := Pair(Hex4(hi), Hex4(lo));
      HexWritten(hi);
      HexWritten(lo);
    }
  }

  lemma HexWritten(x: nat)
    requires x < 0x1_0000
    ensures LowerHex(Hex4(x)) && UnitOf(Hex4(x)) == x
  {
    var a, b, c := x / 16, x / 16 / 16, x / 16 / 16 / 16;
    assert x == 16 * a + x % 16 && a == 16 * b + a % 16 && b == 16 * c + b % 16;
    HexDigitWritten(c);
    HexDigitWritten(b % 16);
    HexDigitWritten(a % 16);
    HexDigitWritten(x % 16);
    hide HexDigit, HexOf;
    assert UnitOf(Hex4(x)) == 4096 * c + 256 * (b % 16) + 16 * (a % 16) + x % 16;
  }

  lemma HexDigitWritten(d: nat)
    requires d < 16
    ensures IsHex(HexDigit(d)) && HexOf(HexDigit(d)) == d && (HexDigit(d) < 'A' as int || 'F' as int < HexDigit(d))
  {
  }
}
