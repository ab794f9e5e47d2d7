/** What `OurReader` accepts, as functions on the text still to be read, with the features of a
    default `CharReaderBuilder`: trailing commas are allowed, text behind the value is ignored,
    nesting is limited. A comment is not modelled and reads as an error; a number that is not read as
    an integer is reported as `Real`. */
module JsonGrammar {
  import opened Bytes
  import opened JsonNumber
  import opened JsonString
  import opened JsonValue

  const STACK_LIMIT: nat := 1000
  const NAME_LIMIT: nat := 0x4000_0000

  datatype Kind =
    | EndOfStream | ObjectBegin | ObjectEnd | ArrayBegin | ArrayEnd | StringToken | NumberToken
    | TrueToken | FalseToken | NullToken | ArraySeparator | MemberSeparator | ErrorToken

  datatype Token = Token(kind: Kind, text: Bytes, rest: Bytes)

  predicate IsSpace(c: byte) {
    c == 0x20 || c == 0x09 || c == 0x0D || c == 0x0A
  }

  /** `skipSpaces`. */
  function SkipSpaces(s: Bytes): (r: Bytes)
    ensures |r| <= |s| && (r != [] ==> !IsSpace(r[0]))
    decreases |s|
  {
    if s != [] && IsSpace(s[0]) then SkipSpaces(s[1..]) else s
  }

  /** Leading digits. */
  function DigitRun(s: Bytes): (n: nat)
    ensures n <= |s|
    decreases |s|
  {
    if s != [] && IsDigit(s[0]) then 1 + DigitRun(s[1..]) else 0
  }

  /** Where the fractional part that may start at `a` ends. */
  function FractionEnd(s: Bytes, a: nat): (n: nat)
    requires a <= |s|
    ensures a <= n <= |s|
  {
    if a < |s| && s[a] == '.' as int then a + 1 + DigitRun(s[a + 1..]) else a
  }

  /** Where the exponential part that may start at `b` ends. */
  function ExponentEnd(s: Bytes, b: nat): (n: nat)
    requires b <= |s|
    ensures b <= n <= |s|
  {
    if b < |s| && (s[b] == 'e' as int || s[b] == 'E' as int) then
      var c := if b + 1 < |s| && (s[b + 1] == '+' as int || s[b + 1] == MINUS) then b + 2 else b + 1;
      c + DigitRun(s[c..])
    else b
  }

  /** `readNumber` behind the first character: integral, fractional and exponential part. */
  function NumberLength(s: Bytes): (n: nat)
    ensures n <= |s|
  {
    ExponentEnd(s, FractionEnd(s, DigitRun(s)))
  }

  /** The kind of a token that is one character, `ErrorToken` for none. */
  function Punctuation(c: byte): (k: Kind) {
    if c == LBRACE then ObjectBegin
    else if c == RBRACE then ObjectEnd
    else if c == LBRACKET then ArrayBegin
    else if c == RBRACKET then ArrayEnd
    else if c == COMMA then ArraySeparator
    else if c == COLON then MemberSeparator
    else if c == 0 then EndOfStream
    else ErrorToken
  }

  /** A token that must spell out `word`. */
  function Literal(t: Bytes, word: Bytes, kind: Kind): (r: Token) {
    if word <= t then Token(kind, word, t[|word|..]) else Token(ErrorToken, [], t)
  }

  /** A token starts with a digit, or with a sign that is not the start of an infinity. */
  predicate StartsNumber(t: Bytes)
    requires t != []
  {
    IsDigit(t[0]) || ((t[0] == MINUS || t[0] == '+' as int) && !(|t| > 1 && t[1] == 'I' as int))
  }

  /** `readToken` behind the spaces. */
  function FrontToken(t: Bytes): (r: Token)
    ensures r.kind != EndOfStream && r.kind != ErrorToken ==> |r.rest| < |t|
    ensures r.kind == StringToken ==> |r.text| >= 2
  {
    if t == [] then Token(EndOfStream, [], [])
    else if Punctuation(t[0]) != ErrorToken then Token(Punctuation(t[0]), t[..1], t[1..])
    else if t[0] == QUOTE then
      match ScanString(t[1..])
      case None => Token(ErrorToken, [], t)
      case Some(k) => Token(StringToken, t[..k + 1], t[k + 1..])
    else if StartsNumber(t) then
      var n := 1 + NumberLength(t[1..]);
      Token(NumberToken, t[..n], t[n..])
    else if t[0] == TRUE_TEXT[0] then Literal(t, TRUE_TEXT, TrueToken)
    else if t[0] == FALSE_TEXT[0] then Literal(t, FALSE_TEXT, FalseToken)
    else if t[0] == NULL_TEXT[0] then Literal(t, NULL_TEXT, NullToken)
    else Token(ErrorToken, [], t)
  }

  /** `readToken`. */
  function ReadToken(s: Bytes): (r: Token)
    ensures r.kind != EndOfStream && r.kind != ErrorToken ==> |r.rest| < |s|
    ensures r.kind == StringToken ==> |r.text| >= 2
  {
    FrontToken(SkipSpaces(s))
  }

  /** `Throws` is an exception of the reader: nesting or a name beyond its limit. */
  datatype Outcome = Done(value: Value, rest: Bytes) | Rejected | Throws | Real

  /** `std::map` insertion: in order of names, replacing a member of the same name. */
  function Insert(members: seq<Member>, name: Bytes, value: Value): (r: seq<Member>)
    decreases |members|
  {
    if members == [] || Less(name, members[0].name) then [Member(name, value)] + members
    else if members[0].name == name then [Member(name, value)] + members[1..]
    else [members[0]] + Insert(members[1..], name, value)
  }

  ghost function NumberValue(n: Number, rest: Bytes): (r: Outcome) {
    match n
    case Int(v) => Done(Value.Int(v), rest)
    case UInt(v) => Done(Value.UInt(v), rest)
    case Double => Real
  }

  function Inner(token: Bytes): (s: Bytes)
    requires |token| >= 2
  {
    token[1..|token| - 1]
  }

  /** `readValue` with `depth` values on the stack. */
  ghost function ParseValue(s: Bytes, depth: nat): (r: Outcome)
    ensures r.Done? ==> |r.rest| < |s|
    decreases |s|, 1
  {
    if depth > STACK_LIMIT then Throws
    else
      var t := ReadToken(s);
      match t.kind
      case ObjectBegin => ParseMembers(t.rest, depth, [])
      case ArrayBegin => ParseItems(t.rest, depth, [])
      case NumberToken => NumberValue(Decoded(t.text), t.rest)
      case StringToken => (match Unescape(Inner(t.text)) case None => Rejected case Some(b) => Done(Str(b), t.rest))
      case TrueToken => Done(Bool(true), t.rest)
      case FalseToken => Done(Bool(false), t.rest)
      case NullToken => Done(Null, t.rest)
      case _ => Rejected
  }

  /** The loop of `readArray` with the items read so far. */
  ghost function ParseItems(s: Bytes, depth: nat, items: seq<Value>): (r: Outcome)
    ensures r.Done? ==> |r.rest| < |s|
    decreases |s|, 2
  {
    var t := SkipSpaces(s);
    if t != [] && t[0] == RBRACKET then Done(Arr(items), t[1..])
    else
      match ParseValue(s, depth + 1)
      case Done(v, rest) => (
        var next := ReadToken(rest);
        if next.kind == ArrayEnd then Done(Arr(items + [v]), next.rest)
        else if next.kind == ArraySeparator then ParseItems(next.rest, depth, items + [v])
        else Rejected)
      case other => other
  }

  /** The loop of `readObject` with the members read so far. */
  ghost function ParseMembers(s: Bytes, depth: nat, members: seq<Member>): (r: Outcome)
    ensures r.Done? ==> |r.rest| < |s|
    decreases |s|, 2
  {
    var t := ReadToken(s);
    if t.kind == ObjectEnd then Done(Obj(members), t.rest)
    else if t.kind != StringToken then Rejected
    else
      match Unescape(Inner(t.text))
      case None => Rejected
      case Some(name) => (
        var colon := ReadToken(t.rest);
        if |name| >= NAME_LIMIT then Throws
        else if colon.kind != MemberSeparator then Rejected
        else
          match ParseValue(colon.rest, depth + 1)
          case Done(v, rest) => (
            var next := ReadToken(rest);
            if next.kind == ObjectEnd then Done(Obj(Insert(members, name, v)), next.rest)
            else if next.kind == ArraySeparator then ParseMembers(next.rest, depth, Insert(members, name, v))
            else Rejected)
          case other => other)
  }

  /** `skipBom`. */
  function SkipBom(doc: Bytes): (r: Bytes) {
    if [0xEF, 0xBB, 0xBF] <= doc then doc[3..] else doc
  }

  /** `OurReader::parse`: the root is the first value on the stack. */
  ghost function ParseDocument(doc: Bytes): (r: Outcome) {
    ParseValue(SkipBom(doc), 1)
  }
}
