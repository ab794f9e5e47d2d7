/** Whole texts as syntax trees: a value is read from a text exactly when the text starts with a tree of it. */
module JsonTree {
  import opened Bytes
  import opened JsonNumber
  import opened JsonString
  import opened JsonValue
  import opened JsonGrammar
  import opened JsonSyntax
  import opened JsonRoundTrip
  import opened Annotations

  /** A value with the white space in front of it. */
  datatype Tree =
    | NullTree(gap: Bytes)
    | BoolTree(gap: Bytes, b: bool)
    | NumberTree(gap: Bytes, negative: bool, digits: Bytes)
    | StringTree(gap: Bytes, pieces: seq<Piece>)
    | ArrayTree(gap: Bytes, items: Items)
    | ObjectTree(gap: Bytes, members: Members)

  /** What follows an opening bracket; a comma may stand before the closing one. */
  datatype Items = EndItems(gap: Bytes) | LastItem(item: Tree, gap: Bytes) | NextItem(item: Tree, gap: Bytes, rest: Items)

  datatype Entry = Entry(gap: Bytes, name: seq<Piece>, colon: Bytes, value: Tree)

  /** What follows an opening brace; a comma may stand before the closing one. */
  datatype Members =
    | EndMembers(gap: Bytes)
    | LastMember(entry: Entry, gap: Bytes)
    | NextMember(entry: Entry, gap: Bytes, rest: Members)

  ghost function Number(negative: bool, digits: Bytes): (v: int)
    requires AllDigits(digits)
  {
    if negative then -(Horner(0, digits) as int) else Horner(0, digits)
  }

  /** Gaps are white space, strings are made of proper pieces, numbers are integers that fit 64 bits, of digits that
      only a minus sign can do without, and names are below the reader's limit. */
  ghost predicate Sound(t: Tree)
    decreases t
  {
    && Gap(t.gap)
    && match t
       case NumberTree(_, negative, digits) =>
         AllDigits(digits) && (digits == [] ==> negative) && MIN_INT64 <= Number(negative, digits) <= MAX_UINT64
       case StringTree(_, pieces) => ProperPieces(pieces)
       case ArrayTree(_, items) => SoundItems(items)
       case ObjectTree(_, members) => SoundMembers(members)
       case _ => true
  }

  ghost predicate SoundItems(items: Items)
    decreases items
  {
    && Gap(items.gap)
    && match items
       case EndItems(_) => true
       case LastItem(item, _) => Sound(item)
       case NextItem(item, _, rest) => Sound(item) && SoundItems(rest)
  }

  ghost predicate SoundEntry(e: Entry)
    decreases e
  {
    Gap(e.gap) && Gap(e.colon) && ProperPieces(e.name) && |PiecesMean(e.name)| < 0x4000_0000 && Sound(e.value)
  }

  ghost predicate SoundMembers(members: Members)
    decreases members
  {
    && Gap(members.gap)
    && match members
       case EndMembers(_) => true
       case LastMember(e, _) => SoundEntry(e)
       case NextMember(e, _, rest) => SoundEntry(e) && SoundMembers(rest)
  }

  /** No value is nested deeper than a thousand, counting this one as `depth`. */
  predicate Shallow(t: Tree, depth: nat)
    decreases t
  {
    && depth <= 1000
    && match t
       case ArrayTree(_, items) => ShallowItems(items, depth + 1)
       case ObjectTree(_, members) => ShallowMembers(members, depth + 1)
       case _ => true
  }

  predicate ShallowItems(items: Items, depth: nat)
    decreases items
  {
    match items
    case EndItems(_) => true
    case LastItem(item, _) => Shallow(item, depth)
    case NextItem(item, _, rest) => Shallow(item, depth) && ShallowItems(rest, depth)
  }

  predicate ShallowMembers(members: Members, depth: nat)
    decreases members
  {
    match members
    case EndMembers(_) => true
    case LastMember(e, _) => Shallow(e.value, depth)
    case NextMember(e, _, rest) => Shallow(e.value, depth) && ShallowMembers(rest, depth)
  }

  function Write(t: Tree): (s: Bytes)
    decreases t, 1
  {
    t.gap + Core(t)
  }

  function Core(t: Tree): (s: Bytes)
    decreases t, 0
  {
    match t
    case NullTree(_) => ['n' as int, 'u' as int, 'l' as int, 'l' as int]
    case BoolTree(_, b) =>
      if b then ['t' as int, 'r' as int, 'u' as int, 'e' as int]
      else ['f' as int, 'a' as int, 'l' as int, 's' as int, 'e' as int]
    case NumberTree(_, negative, digits) => if negative then ['-' as int] + digits else digits
    case StringTree(_, pieces) => Quoted(pieces)
    case ArrayTree(_, items) => ['[' as int] + WriteItems(items)
    case ObjectTree(_, members) => ['{' as int] + WriteMembers(members)
  }

  function Quoted(pieces: seq<Piece>): (s: Bytes) {
    ['"' as int] + PiecesText(pieces) + ['"' as int]
  }

  function WriteItems(items: Items): (s: Bytes)
    decreases items
  {
    match items
    case EndItems(gap) => gap + [']' as int]
    case LastItem(item, gap) => Write(item) + (gap + [']' as int])
    case NextItem(item, gap, rest) => Write(item) + (gap + ([',' as int] + WriteItems(rest)))
  }

  function WriteEntry(e: Entry): (s: Bytes)
    decreases e
  {
    e.gap + (Quoted(e.name) + (e.colon + ([':' as int] + Write(e.value))))
  }

  function WriteMembers(members: Members): (s: Bytes)
    decreases members
  {
    match members
    case EndMembers(gap) => gap + ['}' as int]
    case LastMember(e, gap) => WriteEntry(e) + (gap + ['}' as int])
    case NextMember(e, gap, rest) => WriteEntry(e) + (gap + ([',' as int] + WriteMembers(rest)))
  }

  /** The value of a tree: a later member replaces an earlier one of the same name. */
  ghost function Means(t: Tree): (v: Value)
    requires Sound(t)
    decreases t
  {
    match t
    case NullTree(_) => Null
    case BoolTree(_, b) => Bool(b)
    case NumberTree(_, negative, digits) =>
      var n := Number(negative, digits);
      if n <= MAX_INT64 then Value.Int(n) else Value.UInt(n)
    case StringTree(_, pieces) => Str(PiecesMean(pieces))
    case ArrayTree(_, items) => Arr(MeanItems(items))
    case ObjectTree(_, members) => Obj(MeanMembers(members, []))
  }

  ghost function MeanItems(items: Items): (vs: seq<Value>)
    requires SoundItems(items)
    decreases items
  {
    match items
    case EndItems(_) => []
    case LastItem(item, _) => [Means(item)]
    case NextItem(item, _, rest) => [Means(item)] + MeanItems(rest)
  }

  ghost function MeanMembers(members: Members, done: seq<Member>): (ms: seq<Member>)
    requires SoundMembers(members)
    decreases members
  {
    match members
    case EndMembers(_) => done
    case LastMember(e, _) => Added(done, e)
    case NextMember(e, _, rest) => MeanMembers(rest, Added(done, e))
  }

  ghost function Added(done: seq<Member>, e: Entry): (ms: seq<Member>)
    requires SoundEntry(e)
    decreases e
  {
    Insert(done, PiecesMean(e.name), Means(e.value))
  }

  /** What may stand behind a tree without being taken for a part of it: only a number has to be set off. */
  predicate Follows(t: Tree, rest: Bytes) {
    t.NumberTree? ==> Delimits(rest) && (t.digits == [] && rest != [] ==> rest[0] != 'I' as int)
  }

  lemma {:induction false} SkipGap(gap: Bytes, s: Bytes)
    requires Gap(gap) && (s != [] ==> !IsSpace(s[0]))
    ensures SkipSpaces(gap + s) == s
    decreases |gap|
  {
    if gap == [] {
      assert gap + s == s;
    } else {
      assert gap[0] in gap && (gap + s)[1..] == gap[1..] + s && forall c <- gap[1..] :: c in gap;
      SkipGap(gap[1..], s);
    }
  }

  lemma {:induction false} GapOf(s: Bytes) returns (gap: Bytes)
    ensures Gap(gap) && s == gap + SkipSpaces(s)
    decreases |s|
  {
    if s != [] && IsSpace(s[0]) {
      var more := GapOf(s[1..]);
      gap := [s[0]] + more;
    } else {
      gap := [];
    }
  }

  lemma PunctuationAfter(gap: Bytes, c: byte, rest: Bytes)
    requires Gap(gap) && Punctuation(c) != ErrorToken
    ensures ReadToken(gap + ([c] + rest)) == Token(Punctuation(c), [c], rest)
  {
    SkipGap(gap, [c] + rest);
    PunctuationToken(c, rest);
    SkipNothing([c] + rest);
  }

  lemma {:induction false} QuotedAfter(gap: Bytes, ps: seq<Piece>, rest: Bytes)
    requires Gap(gap) && ProperPieces(ps)
    ensures ReadToken(gap + (Quoted(ps) + rest)) == Token(StringToken, Quoted(ps), rest)
    ensures Unescape(Inner(Quoted(ps))) == Some(PiecesMean(ps))
  {
    hide ScanString, Unescape, PiecesText, PiecesMean;
    var s, t := Quoted(ps) + rest, PiecesText(ps);
    SkipGap(gap, s);
    PiecesRead(ps, rest);
    assert s[1..] == t + ([QUOTE] + rest) && s[..|t| + 2] == Quoted(ps) && s[|t| + 2..] == rest;
    assert Inner(Quoted(ps)) == t;
  }

  /** No tree starts like the end of an array. */
  lemma {:induction false} CoreStart(t: Tree)
    requires Sound(t)
    ensures Core(t) != [] && !IsSpace(Core(t)[0]) && Core(t)[0] != RBRACKET
  {
    if t.NumberTree? && !t.negative {
      assert t.digits[0] in t.digits;
    }
  }

  lemma {:induction false} NumberAfter(t: Tree, rest: Bytes)
    requires t.NumberTree? && Sound(t) && Follows(t, rest)
    ensures ReadToken(Write(t) + rest) == Token(NumberToken, Core(t), rest)
    ensures forall left :: NumberValue(Decoded(Core(t)), left) == Done(Means(t), left)
  {
    hide NumberLength, Decoded, Means, AllDigits, FrontToken, SkipSpaces, Sound;
    var s, core := Core(t) + rest, Core(t);
    assert Write(t) + rest == t.gap + s;
    CoreStart(t);
    SoundGap(t);
    SkipGap(t.gap, s);
    NumberMeans(t);
    NumberRun(core[1..], rest);
    assert s[0] == core[0] && s[1..] == core[1..] + rest;
    if t.negative && |s| > 1 {
      assert s[1] == s[1..][0] && (t.digits != [] ==> core[1..][0] in core[1..]);
      assert s[1] != 'I' as int;
    }
    FrontNumber(s);
    assert s[..|core|] == core && s[|core|..] == rest;
  }

  lemma FrontNumber(s: Bytes)
    requires s != [] && StartsNumber(s)
    ensures FrontToken(s) == var n := NumberLength(s[1..]); Token(NumberToken, s[..n + 1], s[n + 1..])
  {
    hide NumberLength, ScanString;
  }

  /** Sign and digits, and the number they denote. */
  lemma {:induction false} NumberMeans(t: Tree)
    requires t.NumberTree? && Sound(t)
    ensures AllDigits(Core(t)[1..]) && forall c <- Core(t)[1..] :: IsDigit(c)
    ensures if t.negative then Core(t)[0] == MINUS && Core(t)[1..] == t.digits else IsDigit(Core(t)[0])
    ensures forall left :: NumberValue(Decoded(Core(t)), left) == Done(Means(t), left)
  {
    hide Horner;
    var core := Core(t);
    if t.negative {
      assert core[1..] == t.digits;
    } else {
      assert core[0] in t.digits && forall c <- core[1..] :: c in t.digits;
    }
    assert DigitsOf(core) == t.digits;
  }

  lemma {:induction false} WordAfter(t: Tree, rest: Bytes)
    requires (t.NullTree? || t.BoolTree?) && Sound(t)
    ensures ReadToken(Write(t) + rest) ==
            Token(if t.NullTree? then NullToken else if t.b then TrueToken else FalseToken, Core(t), rest)
  {
    hide ReadToken;
    var kind := if t.NullTree? then NullToken else if t.b then TrueToken else FalseToken;
    CoreStart(t);
    WordToken(Core(t), kind, rest);
    TokenAfterGap(t.gap, Core(t) + rest);
    assert Write(t) + rest == t.gap + (Core(t) + rest);
  }

  lemma TokenAfterGap(gap: Bytes, s: Bytes)
    requires Gap(gap) && (s != [] ==> !IsSpace(s[0]))
    ensures ReadToken(gap + s) == ReadToken(s)
  {
    SkipGap(gap, s);
    SkipNothing(s);
  }

  /** Every tree reads as its value, whatever stands behind it. */
  lemma {:induction false} TreeReads(t: Tree, depth: nat, rest: Bytes)
    requires Sound(t) && Shallow(t, depth) && Follows(t, rest)
    ensures ParseValue(Write(t) + rest, depth) == Done(Means(t), rest)
    decreases t, 1
  {
    hide ParseItems, ParseMembers, ReadToken, Decoded, Unescape, WriteItems, WriteMembers, Gap, SoundItems, SoundMembers;
    hide MeanItems, MeanMembers;
    match t
    case NullTree(_) => WordAfter(t, rest);
    case BoolTree(_, _) => WordAfter(t, rest);
    case NumberTree(_, _, _) => NumberAfter(t, rest);
    case StringTree(gap, pieces) =>
      QuotedAfter(gap, pieces, rest);
      Assoc(gap, Quoted(pieces), rest);
    case ArrayTree(gap, items) =>
      var more := WriteItems(items) + rest;
      assert Write(t) + rest == gap + ([LBRACKET] + more);
      PunctuationAfter(gap, LBRACKET, more);
      ItemsRead(items, depth, [], rest);
      assert [] + MeanItems(items) == MeanItems(items);
    case ObjectTree(gap, members) =>
      var more := WriteMembers(members) + rest;
      assert Write(t) + rest == gap + ([LBRACE] + more);
      PunctuationAfter(gap, LBRACE, more);
      MembersRead(members, depth, [], rest);
  }

  lemma {:induction false} ItemsRead(items: Items, depth: nat, done: seq<Value>, rest: Bytes)
    requires SoundItems(items) && ShallowItems(items, depth + 1)
    ensures ParseItems(WriteItems(items) + rest, depth, done) == Done(Arr(done + MeanItems(items)), rest)
    decreases items, 0
  {
    hide ParseValue, ParseMembers, ReadToken, Sound, Write, Means, Gap, Shallow;
    match items
    case EndItems(gap) =>
      Assoc(gap, [RBRACKET], rest);
      SkipGap(gap, [RBRACKET] + rest);
      assert done + [] == done;
    case LastItem(item, gap) =>
      var tail := gap + ([RBRACKET] + rest);
      assert WriteItems(items) + rest == Write(item) + tail;
      ItemTurn(item, gap, RBRACKET, rest);
      TreeReads(item, depth + 1, tail);
    case NextItem(item, gap, more) =>
      var tail := gap + ([COMMA] + (WriteItems(more) + rest));
      assert WriteItems(items) + rest == Write(item) + tail;
      ItemTurn(item, gap, COMMA, WriteItems(more) + rest);
      TreeReads(item, depth + 1, tail);
      ItemsRead(more, depth, done + [Means(item)], rest);
      Assoc(done, [Means(item)], MeanItems(more));
  }

  lemma {:induction false} ItemTurn(item: Tree, gap: Bytes, c: byte, rest: Bytes)
    requires Sound(item) && Gap(gap) && (c == RBRACKET || c == COMMA || c == RBRACE)
    ensures var tail := gap + ([c] + rest);
            && Follows(item, tail) && ReadToken(tail) == Token(Punctuation(c), [c], rest)
            && var s := SkipSpaces(Write(item) + tail); s != [] && s[0] != RBRACKET
  {
    hide Core, ReadToken, Sound;
    var tail := gap + ([c] + rest);
    PunctuationAfter(gap, c, rest);
    CoreStart(item);
    assert Gap(item.gap) by { SoundGap(item); }
    assert Write(item) + tail == item.gap + (Core(item) + tail);
    SkipGap(item.gap, Core(item) + tail);
    assert gap != [] ==> gap[0] in gap && tail[0] == gap[0];
  }

  lemma {:induction false} SoundGap(t: Tree)
    requires Sound(t)
    ensures Gap(t.gap)
  {
  }

  lemma {:induction false} MembersRead(members: Members, depth: nat, done: seq<Member>, rest: Bytes)
    requires SoundMembers(members) && ShallowMembers(members, depth + 1)
    ensures ParseMembers(WriteMembers(members) + rest, depth, done) == Done(Obj(MeanMembers(members, done)), rest)
    decreases members, 0
  {
    hide ParseValue, ParseItems, ReadToken, Sound, Write, Means, Gap, Shallow, Unescape, Quoted, PiecesMean, Insert;
    hide ProperPieces, Follows;
    match members
    case EndMembers(gap) =>
      Assoc(gap, [RBRACE], rest);
      PunctuationAfter(gap, RBRACE, rest);
    case LastMember(e, gap) =>
      var tail := gap + ([RBRACE] + rest);
      EntryText(e, gap, [RBRACE], rest);
      EntryTurn(e, tail);
      ItemTurn(e.value, gap, RBRACE, rest);
      TreeReads(e.value, depth + 1, tail);
    case NextMember(e, gap, more) =>
      var tail := gap + ([COMMA] + (WriteMembers(more) + rest));
      EntryText(e, gap, [COMMA] + WriteMembers(more), rest);
      Assoc([COMMA], WriteMembers(more), rest);
      EntryTurn(e, tail);
      ItemTurn(e.value, gap, COMMA, WriteMembers(more) + rest);
      TreeReads(e.value, depth + 1, tail);
      MembersRead(more, depth, Added(done, e), rest);
  }

  lemma {:induction false} EntryText(e: Entry, gap: Bytes, end: Bytes, rest: Bytes)
    ensures (WriteEntry(e) + (gap + end)) + rest ==
            e.gap + (Quoted(e.name) + (e.colon + ([COLON] + (Write(e.value) + (gap + (end + rest))))))
  {
    hide Quoted, Write;
    Assoc(WriteEntry(e), gap + end, rest);
    Assoc(gap, end, rest);
    var tail := gap + (end + rest);
    var value := [COLON] + Write(e.value);
    Assoc(e.gap, Quoted(e.name) + (e.colon + value), tail);
    Assoc(Quoted(e.name), e.colon + value, tail);
    Assoc(e.colon, value, tail);
    Assoc([COLON], Write(e.value), tail);
  }

  lemma {:induction false} EntryTurn(e: Entry, tail: Bytes)
    requires SoundEntry(e)
    ensures var value := Write(e.value) + tail;
            var colon := e.colon + ([COLON] + value);
            && ReadToken(e.gap + (Quoted(e.name) + colon)) == Token(StringToken, Quoted(e.name), colon)
            && Unescape(Inner(Quoted(e.name))) == Some(PiecesMean(e.name))
            && ReadToken(colon) == Token(MemberSeparator, [COLON], value)
  {
    hide ReadToken, Quoted, Write, Unescape, PiecesMean;
    var value := Write(e.value) + tail;
    QuotedAfter(e.gap, e.name, e.colon + ([COLON] + value));
    PunctuationAfter(e.colon, COLON, value);
  }

  /** A punctuation token and the white space in front of it. */
  lemma PunctuationOf(s: Bytes, c: byte) returns (gap: Bytes)
    requires Punctuation(c) != ErrorToken && Punctuation(c) != EndOfStream && ReadToken(s).kind == Punctuation(c)
    ensures Gap(gap) && s == gap + ([c] + ReadToken(s).rest)
  {
    hide ScanString, NumberLength, SkipSpaces, Gap;
    gap := GapOf(s);
    var u := SkipSpaces(s);
    assert u == [u[0]] + u[1..];
  }

  lemma WordOf(s: Bytes) returns (t: Tree)
    requires var kind := ReadToken(s).kind; kind == NullToken || kind == TrueToken || kind == FalseToken
    ensures Sound(t) && s == Write(t) + ReadToken(s).rest
    ensures t == match ReadToken(s).kind case NullToken => NullTree(t.gap) case TrueToken => BoolTree(t.gap, true)
                                         case _ => BoolTree(t.gap, false)
  {
    hide ScanString, NumberLength, SkipSpaces, Gap;
    var gap := GapOf(s);
    var u, token := SkipSpaces(s), ReadToken(s);
    t := if token.kind == NullToken then NullTree(gap) else BoolTree(gap, token.kind == TrueToken);
    assert token.text == Core(t) && u == Core(t) + token.rest;
    Assoc(gap, Core(t), token.rest);
  }

  /** A string token that decodes is a string of pieces. */
  lemma QuotedOf(s: Bytes) returns (gap: Bytes, ps: seq<Piece>)
    requires ReadToken(s).kind == StringToken && Unescape(Inner(ReadToken(s).text)).Some?
    ensures Gap(gap) && ProperPieces(ps) && s == gap + (Quoted(ps) + ReadToken(s).rest)
    ensures Unescape(Inner(ReadToken(s).text)) == Some(PiecesMean(ps))
  {
    hide ScanString, NumberLength, SkipSpaces, Gap, Unescape, PiecesText, PiecesMean, ProperPieces;
    gap := GapOf(s);
    var u, token := SkipSpaces(s), ReadToken(s);
    var k := ScanString(u[1..]).value - 1;
    assert Inner(token.text) == u[1..][..k];
    ps := PiecesOf(u[1..], k);
    assert u == [QUOTE] + u[1..][..k] + [QUOTE] + token.rest;
    Assoc([QUOTE] + PiecesText(ps), [QUOTE], token.rest);
  }

  lemma {:induction false} RunIs(s: Bytes)
    ensures AllDigits(s[..DigitRun(s)]) && (DigitRun(s) < |s| ==> !IsDigit(s[DigitRun(s)]))
    decreases |s|
  {
    if s != [] && IsDigit(s[0]) {
      RunIs(s[1..]);
      var n := DigitRun(s[1..]);
      assert s[..n + 1] == [s[0]] + s[1..][..n];
    }
  }

  /** A number token of digits only ends where no longer number could. */
  lemma DigitsOnly(s: Bytes)
    requires AllDigits(s[..NumberLength(s)])
    ensures Delimits(s[NumberLength(s)..])
  {
    RunIs(s);
    var d, n := DigitRun(s), NumberLength(s);
    forall i | 0 <= i < n ensures IsDigit(s[i]) {
      assert s[..n][i] in s[..n];
    }
    assert n == d;
  }

  lemma {:induction false} NumberOf(s: Bytes) returns (t: Tree)
    requires ReadToken(s).kind == NumberToken && Decoded(ReadToken(s).text) != Double
    ensures Sound(t) && t.NumberTree? && Follows(t, ReadToken(s).rest) && s == Write(t) + ReadToken(s).rest
    ensures Decoded(ReadToken(s).text) == Decoded(Core(t))
  {
    hide SkipSpaces, NumberLength, FrontToken, Gap, Horner, AllDigits;
    var gap := GapOf(s);
    var u, token := SkipSpaces(s), ReadToken(s);
    NumberFront(u);
    var n := NumberLength(u[1..]);
    t := NumberTree(gap, u[0] == MINUS, DigitsOf(token.text));
    TokenDigits(u, n);
    DigitsOnly(u[1..]);
    assert token.rest == u[1..][n..];
    assert u == Core(t) + token.rest;
    Assoc(gap, Core(t), token.rest);
  }

  lemma NumberFront(u: Bytes)
    requires FrontToken(u).kind == NumberToken
    ensures u != [] && (u[0] == MINUS && |u| > 1 ==> u[1] != 'I' as int)
    ensures FrontToken(u) == var n := NumberLength(u[1..]); Token(NumberToken, u[..n + 1], u[n + 1..])
  {
    hide NumberLength, ScanString;
  }

  lemma TokenDigits(u: Bytes, n: nat)
    requires n < |u| && AllDigits(DigitsOf(u[..n + 1]))
    ensures AllDigits(u[1..][..n])
    ensures u[..n + 1] == if u[0] == MINUS then [MINUS] + DigitsOf(u[..n + 1]) else DigitsOf(u[..n + 1])
    ensures u[0] != MINUS ==> DigitsOf(u[..n + 1]) != [] && IsDigit(u[0])
  {
    var text := u[..n + 1];
    assert text[1..] == u[1..][..n] && text[0] == u[0] && text[0] in text;
    forall c <- u[1..][..n] ensures IsDigit(c) {
      assert c in text[1..] && c in text;
    }
  }

  /** Every text that is read starts with a tree of the value. */
  lemma {:induction false} TreeOf(s: Bytes, depth: nat) returns (t: Tree)
    requires ParseValue(s, depth).Done?
    ensures var r := ParseValue(s, depth);
            && Sound(t) && Shallow(t, depth) && Follows(t, r.rest)
            && s == Write(t) + r.rest && Means(t) == r.value
    decreases |s|, 1
  {
    hide ParseItems, ParseMembers, ReadToken, Decoded, Unescape, WriteItems, WriteMembers, Gap, SoundItems, SoundMembers;
    hide MeanItems, MeanMembers, ShallowItems, ShallowMembers;
    var token, rest := ReadToken(s), ParseValue(s, depth).rest;
    match token.kind
    case ObjectBegin =>
      var gap := PunctuationOf(s, LBRACE);
      var members := MembersOf(token.rest, depth, []);
      t := ObjectTree(gap, members);
      assert Write(t) + rest == gap + ([LBRACE] + (WriteMembers(members) + rest));
    case ArrayBegin =>
      var gap := PunctuationOf(s, LBRACKET);
      var items := ItemsOf(token.rest, depth, []);
      t := ArrayTree(gap, items);
      assert Write(t) + rest == gap + ([LBRACKET] + (WriteItems(items) + rest));
      assert [] + MeanItems(items) == MeanItems(items);
    case NumberToken =>
      t := NumberOf(s);
      NumberAfter(t, rest);
    case StringToken =>
      var gap, ps := QuotedOf(s);
      t := StringTree(gap, ps);
      Assoc(gap, Quoted(ps), rest);
    case _ =>
      t := WordOf(s);
  }

  lemma {:induction false} ItemsOf(s: Bytes, depth: nat, done: seq<Value>) returns (items: Items)
    requires ParseItems(s, depth, done).Done?
    ensures var r := ParseItems(s, depth, done);
            && SoundItems(items) && ShallowItems(items, depth + 1)
            && s == WriteItems(items) + r.rest && r.value == Arr(done + MeanItems(items))
    decreases |s|, 2
  {
    hide ParseValue, ParseMembers, ReadToken, Sound, Write, Means, Gap, Shallow, SkipSpaces;
    var u, end := SkipSpaces(s), ParseItems(s, depth, done).rest;
    if u != [] && u[0] == RBRACKET {
      var gap := GapOf(s);
      items := EndItems(gap);
      assert u == [RBRACKET] + u[1..] && done + [] == done;
      Assoc(gap, [RBRACKET], u[1..]);
      return;
    }
    var item := TreeOf(s, depth + 1);
    var rest := ParseValue(s, depth + 1).rest;
    var next := ReadToken(rest);
    if next.kind == ArrayEnd {
      var gap := PunctuationOf(rest, RBRACKET);
      items := LastItem(item, gap);
      Assoc(gap, [RBRACKET], end);
      Assoc(Write(item), gap + [RBRACKET], end);
    } else {
      var gap := PunctuationOf(rest, COMMA);
      var more := ItemsOf(next.rest, depth, done + [Means(item)]);
      items := NextItem(item, gap, more);
      Assoc(done, [Means(item)], MeanItems(more));
      Assoc([COMMA], WriteItems(more), end);
      Assoc(gap, [COMMA] + WriteItems(more), end);
      Assoc(Write(item), gap + ([COMMA] + WriteItems(more)), end);
    }
  }

  lemma {:induction false} MembersOf(s: Bytes, depth: nat, done: seq<Member>) returns (members: Members)
    requires ParseMembers(s, depth, done).Done?
    ensures var r := ParseMembers(s, depth, done);
            && SoundMembers(members) && ShallowMembers(members, depth + 1)
            && s == WriteMembers(members) + r.rest && r.value == Obj(MeanMembers(members, done))
    decreases |s|, 2
  {
    hide ParseValue, ParseItems, ReadToken, Sound, Write, Means, Gap, Shallow, Unescape, Quoted, PiecesMean, Insert;
    hide ProperPieces, Follows;
    var token, end := ReadToken(s), ParseMembers(s, depth, done).rest;
    if token.kind == ObjectEnd {
      var gap := PunctuationOf(s, RBRACE);
      members := EndMembers(gap);
      Assoc(gap, [RBRACE], end);
      return;
    }
    var gap, name := QuotedOf(s);
    var value := ReadToken(token.rest).rest;
    var colon := PunctuationOf(token.rest, COLON);
    var tree := TreeOf(value, depth + 1);
    var e := Entry(gap, name, colon, tree);
    var rest := ParseValue(value, depth + 1).rest;
    var next := ReadToken(rest);
    if next.kind == ObjectEnd {
      var last := PunctuationOf(rest, RBRACE);
      members := LastMember(e, last);
      EntryText(e, last, [RBRACE], end);
    } else {
      var comma := PunctuationOf(rest, COMMA);
      var more := MembersOf(next.rest, depth, Added(done, e));
      members := NextMember(e, comma, more);
      EntryText(e, comma, [COMMA] + WriteMembers(more), end);
      Assoc([COMMA], WriteMembers(more), end);
    }
  }

  /** A value is read from a text, leaving `rest`, exactly when the text is a tree of it and then `rest`. */
  lemma {:induction false} ReadIffTree(s: Bytes, depth: nat, v: Value, rest: Bytes)
    ensures ParseValue(s, depth) == Done(v, rest) <==>
            exists t: Tree :: Sound(t) && Shallow(t, depth) && Follows(t, rest) && s == Write(t) + rest && Means(t) == v
  {
    hide ParseValue, Sound, Shallow, Follows, Write, Means;
    if ParseValue(s, depth) == Done(v, rest) {
      var t := TreeOf(s, depth);
    }
    if t: Tree :| Sound(t) && Shallow(t, depth) && Follows(t, rest) && s == Write(t) + rest && Means(t) == v {
      TreeReads(t, depth, rest);
    }
  }

  /** A document starts with a tree, which a byte order mark may precede. */
  ghost predicate Document(doc: Bytes, t: Tree, rest: Bytes) {
    && Sound(t) && Shallow(t, 1) && Follows(t, rest)
    && (doc == Write(t) + rest || doc == [0xEF, 0xBB, 0xBF] + (Write(t) + rest))
  }

  lemma {:induction false} DocumentSound(doc: Bytes, t: Tree, rest: Bytes)
    requires Document(doc, t, rest)
    ensures Sound(t)
  {
  }

  lemma DocumentIffTree(doc: Bytes, v: Value, rest: Bytes)
    ensures ParseDocument(doc) == Done(v, rest) <==> exists t: Tree :: Document(doc, t, rest) && Means(t) == v
  {
    hide ParseValue, Shallow, Follows, Means;
    ReadIffTree(SkipBom(doc), 1, v, rest);
    if ParseDocument(doc) == Done(v, rest) {
      var t := TreeOf(SkipBom(doc), 1);
      assert [0xEF, 0xBB, 0xBF] <= doc ==> doc == [0xEF, 0xBB, 0xBF] + doc[3..];
      assert Document(doc, t, rest);
    }
    if t: Tree :| Document(doc, t, rest) && Means(t) == v {
      NoMark(t, rest);
      assert SkipBom(doc) == Write(t) + rest;
    }
  }

  lemma {:induction false} NoMark(t: Tree, rest: Bytes)
    requires Sound(t)
    ensures !([0xEF, 0xBB, 0xBF] <= Write(t) + rest)
  {
    hide WriteItems, WriteMembers, PiecesText;
    CoreStart(t);
    assert t.NumberTree? && !t.negative ==> t.digits[0] in t.digits;
    assert Core(t)[0] < 0x80;
    var s := Write(t) + rest;
    assert if t.gap == [] then s[0] == Core(t)[0] else s[0] == t.gap[0] && t.gap[0] in t.gap;
    assert s[0] != 0xEF;
  }

  /** The value that members give to a name: the last one counts, and `before` if there is none. */
  ghost function LastGiven(members: Members, name: Bytes, before: Option<Value>): (v: Option<Value>)
    requires SoundMembers(members)
    decreases members
  {
    match members
    case EndMembers(_) => before
    case LastMember(e, _) => Given(e, name, before)
    case NextMember(e, _, rest) => LastGiven(rest, name, Given(e, name, before))
  }

  ghost function Given(e: Entry, name: Bytes, before: Option<Value>): (v: Option<Value>)
    requires SoundEntry(e)
  {
    if PiecesMean(e.name) == name then Some(Means(e.value)) else before
  }

  /** Reading an object: by name, and in the order of names. */
  lemma {:induction false} LastCounts(members: Members, done: seq<Member>, name: Bytes)
    requires SoundMembers(members) && Ordered(done)
    ensures Get(MeanMembers(members, done), name) == LastGiven(members, name, Get(done, name))
    ensures Ordered(MeanMembers(members, done))
    decreases members
  {
    hide Insert, Get, Ordered, Means, PiecesMean, ProperPieces, Sound;
    match members
    case EndMembers(_) =>
    case LastMember(e, _) =>
      GetInsert(done, PiecesMean(e.name), Means(e.value), name);
      InsertOrdered(done, PiecesMean(e.name), Means(e.value));
    case NextMember(e, _, rest) =>
      GetInsert(done, PiecesMean(e.name), Means(e.value), name);
      InsertOrdered(done, PiecesMean(e.name), Means(e.value));
      LastCounts(rest, Added(done, e), name);
  }
}
