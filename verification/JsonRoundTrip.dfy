/** Reading the compact text of a value gives the value back. */
module JsonRoundTrip {
  import opened Bytes
  import opened JsonNumber
  import opened JsonString
  import opened JsonValue
  import opened JsonGrammar

  /** Values as the reader stores them: an integer that fits `Int64` is one. */
  function Norm(v: Value): (r: Value)
    decreases v
  {
    match v
    case UInt(u) => if u <= MAX_INT64 then Value.Int(u) else v
    case Arr(items) => Arr(NormItems(items))
    case Obj(members) => Obj(NormMembers(members))
    case _ => v
  }

  function NormItems(items: seq<Value>): (r: seq<Value>)
    ensures |r| == |items|
    decreases items
  {
    if items == [] then [] else [Norm(items[0])] + NormItems(items[1..])
  }

  function NormMembers(members: seq<Member>): (r: seq<Member>)
    ensures |r| == |members| && forall i | 0 <= i < |r| :: r[i].name == members[i].name
    decreases members
  {
    if members == [] then [] else [Member(members[0].name, Norm(members[0].value))] + NormMembers(members[1..])
  }

  /** What the reader makes of the text of a value: strings are read as the writer understood them, and
      members go into the map one after the other. */
  function Read(v: Value): (r: Value)
    decreases v
  {
    match v
    case UInt(u) => if u <= MAX_INT64 then Value.Int(u) else v
    case Str(s) => Str(Meaning(s))
    case Arr(items) => Arr(ReadItems(items))
    case Obj(members) => Obj(ReadMembers([], members))
    case _ => v
  }

  function ReadItems(items: seq<Value>): (r: seq<Value>)
    ensures |r| == |items|
    decreases items
  {
    if items == [] then [] else [Read(items[0])] + ReadItems(items[1..])
  }

  function ReadMembers(done: seq<Member>, members: seq<Member>): (r: seq<Member>)
    decreases members
  {
    if members == [] then done
    else ReadMembers(Insert(done, Meaning(members[0].name), Read(members[0].value)), members[1..])
  }

  /** The reader can hold the value: at most `n` values are nested, itself included, and no name is too long. */
  predicate Fits(v: Value, n: int)
    decreases v
  {
    && n >= 1
    && match v
       case Arr(items) => ItemsFit(items, n - 1)
       case Obj(members) => MembersFit(members, n - 1)
       case _ => true
  }

  predicate ItemsFit(items: seq<Value>, n: int)
    decreases items
  {
    items == [] || (Fits(items[0], n) && ItemsFit(items[1..], n))
  }

  predicate MembersFit(members: seq<Member>, n: int)
    decreases members
  {
    members == [] ||
    (|Meaning(members[0].name)| < NAME_LIMIT && Fits(members[0].value, n) && MembersFit(members[1..], n))
  }

  /** All strings and names are valid UTF-8. */
  predicate AllUtf8(v: Value)
    decreases v
  {
    match v
    case Str(s) => ValidUtf8(s)
    case Arr(items) => forall i | 0 <= i < |items| :: AllUtf8(items[i])
    case Obj(members) => forall i | 0 <= i < |members| :: ValidUtf8(members[i].name) && AllUtf8(members[i].value)
    case _ => true
  }

  /** What may follow a value without being taken for a part of it. */
  predicate Delimits(post: Bytes) {
    post != [] ==> !IsDigit(post[0]) && post[0] != '.' as int && post[0] != 'e' as int && post[0] != 'E' as int
  }

  lemma {:induction false} SkipNothing(s: Bytes)
    requires s != [] ==> !IsSpace(s[0])
    ensures SkipSpaces(s) == s
  {
  }

  lemma PunctuationToken(c: byte, post: Bytes)
    requires Punctuation(c) != ErrorToken
    ensures ReadToken([c] + post) == Token(Punctuation(c), [c], post)
  {
    var s := [c] + post;
    SkipNothing(s);
    assert s[..1] == [c] && s[1..] == post;
  }

  lemma WordToken(word: Bytes, kind: Kind, post: Bytes)
    requires || (word == TRUE_TEXT && kind == TrueToken)
             || (word == FALSE_TEXT && kind == FalseToken)
             || (word == NULL_TEXT && kind == NullToken)
    ensures ReadToken(word + post) == Token(kind, word, post)
  {
    var s := word + post;
    assert s[0] == word[0];
    SkipNothing(s);
    assert word <= s && s[|word|..] == post;
  }

  lemma {:induction false} QuotedToken(b: Bytes, post: Bytes)
    ensures ReadToken(Quote(b) + post) == Token(StringToken, Quote(b), post)
    ensures Inner(Quote(b)) == Escape(b)
  {
    hide Escape, ScanString;
    var s, q := Quote(b) + post, Quote(b);
    SkipNothing(s);
    QuoteIsOneToken(b, post);
    assert s[1..] == Escape(b) + [QUOTE] + post;
    assert s[..|q|] == q && s[|q|..] == post;
  }

  lemma {:induction false} DigitsRun(d: Bytes, post: Bytes)
    requires (forall c <- d :: IsDigit(c)) && Delimits(post)
    ensures DigitRun(d + post) == |d|
    decreases |d|
  {
    if d == [] {
      assert d + post == post;
    } else {
      assert d[0] in d && (d + post)[1..] == d[1..] + post;
      DigitsRun(d[1..], post);
    }
  }

  lemma NumberRun(d: Bytes, post: Bytes)
    requires (forall c <- d :: IsDigit(c)) && Delimits(post)
    ensures NumberLength(d + post) == |d|
  {
    DigitsRun(d, post);
  }

  lemma IntToken(v: int, post: Bytes)
    requires Delimits(post)
    ensures ReadToken(IntText(v) + post) == Token(NumberToken, IntText(v), post)
  {
    hide Decimal, NumberLength;
    var t := IntText(v);
    var s := t + post;
    assert t != [] && s[0] == t[0];
    if v >= 0 {
      assert t[0] in t;
    }
    SkipNothing(s);
    var digits := t[1..];
    assert forall c <- digits :: IsDigit(c) by {
      if v < 0 {
        assert digits == Decimal(-v);
      } else {
        assert forall c <- digits :: c in t;
      }
    }
    NumberRun(digits, post);
    assert s[1..] == digits + post;
    assert v < 0 ==> |s| > 1 && s[1] == Decimal(-v)[0] && Decimal(-v)[0] in Decimal(-v);
    assert s[..|t|] == t && s[|t|..] == post;
  }

  lemma {:induction false} TextStart(v: Value)
    ensures Text(v) != [] && !IsSpace(Text(v)[0]) && Text(v)[0] != RBRACKET && Text(v)[0] < 0x80
  {
    hide ItemsText, MembersText, Escape;
    if v.Int? || v.UInt? {
      var t := if v.Int? then IntText(v.i) else IntText(v.u);
      assert t[0] in t;
    }
  }

  lemma {:induction false} LessAsymmetric(a: Bytes, b: Bytes)
    requires Less(a, b)
    ensures !Less(b, a) && a != b
    decreases |a|
  {
    if a == [] || a[0] != b[0] {
    } else {
      LessAsymmetric(a[1..], b[1..]);
    }
  }

  lemma {:induction false} InsertLast(members: seq<Member>, name: Bytes, value: Value)
    requires forall i | 0 <= i < |members| :: Less(members[i].name, name)
    ensures Insert(members, name, value) == members + [Member(name, value)]
    decreases |members|
  {
    if members == [] {
    } else {
      LessAsymmetric(members[0].name, name);
      InsertLast(members[1..], name, value);
    }
  }

  /** A value inside any text: read back, leaving what follows, or the reader's limits are exceeded. */
  lemma {:induction false} ParseText(v: Value, depth: nat, post: Bytes)
    requires Storable(v) && Delimits(post)
    ensures ParseValue(Text(v) + post, depth) == if Fits(v, STACK_LIMIT + 1 - depth) then Done(Read(v), post) else Throws
    decreases v, 2
  {
    hide ParseItems, ParseMembers, ReadToken, SkipSpaces, Decoded, Unescape, ItemsText, MembersText;
    hide ReadItems, ReadMembers, ItemsFit, MembersFit, IntText, Quote, Escape;
    if depth > STACK_LIMIT {
      return;
    }
    match v
    case Null => WordToken(NULL_TEXT, NullToken, post);
    case Bool(b) => WordToken(Text(v), if b then TrueToken else FalseToken, post);
    case Int(i) =>
      IntToken(i, post);
      IntRoundTrip(i);
    case UInt(u) =>
      IntToken(u, post);
      IntRoundTrip(u);
    case Str(b) =>
      QuotedToken(b, post);
      UnescapeEscape(b);
    case Arr(items) =>
      var rest := ItemsText(items) + ([RBRACKET] + post);
      Regroup([LBRACKET], ItemsText(items), [RBRACKET], post);
      PunctuationToken(LBRACKET, rest);
      ParseArrayText(items, depth, post);
    case Obj(members) =>
      var rest := MembersText(members) + ([RBRACE] + post);
      Regroup([LBRACE], MembersText(members), [RBRACE], post);
      PunctuationToken(LBRACE, rest);
      ParseObjectText(members, depth, post);
  }

  lemma {:induction false} ParseArrayText(items: seq<Value>, depth: nat, post: Bytes)
    requires Storable(Arr(items)) && depth <= STACK_LIMIT
    ensures ParseItems(ItemsText(items) + ([RBRACKET] + post), depth, []) ==
            if ItemsFit(items, STACK_LIMIT - depth) then Done(Arr(ReadItems(items)), post) else Throws
    decreases items, 1
  {
    if items == [] {
      assert ItemsText(items) + ([RBRACKET] + post) == [RBRACKET] + post;
      SkipNothing([RBRACKET] + post);
    } else {
      ParseItemsText(items, depth, [], post);
      assert [] + ReadItems(items) == ReadItems(items);
    }
  }

  lemma {:induction false} ParseItemsText(items: seq<Value>, depth: nat, done: seq<Value>, post: Bytes)
    requires items != [] && Storable(Arr(items)) && depth <= STACK_LIMIT
    ensures ParseItems(ItemsText(items) + ([RBRACKET] + post), depth, done) ==
            if ItemsFit(items, STACK_LIMIT - depth) then Done(Arr(done + ReadItems(items)), post) else Throws
    decreases items, 0
  {
    hide ParseValue, ParseMembers, ReadToken, Text, Fits, Read;
    var v, more := items[0], items[1..];
    var tail := if more == [] then [RBRACKET] + post else [COMMA] + (ItemsText(more) + ([RBRACKET] + post));
    var s := ItemsText(items) + ([RBRACKET] + post);
    assert s == Text(v) + tail by {
      if more != [] {
        Regroup(Text(v), [COMMA], ItemsText(more), [RBRACKET] + post);
      }
    }
    TextStart(v);
    SkipNothing(s);
    ParseText(v, depth + 1, tail);
    PunctuationToken(RBRACKET, post);
    if more == [] {
      assert done + ReadItems(items) == done + [Read(v)];
    } else {
      PunctuationToken(COMMA, ItemsText(more) + ([RBRACKET] + post));
      ParseItemsText(more, depth, done + [Read(v)], post);
      Assoc(done, [Read(v)], ReadItems(more));
    }
  }

  lemma {:induction false} ParseObjectText(members: seq<Member>, depth: nat, post: Bytes)
    requires Storable(Obj(members)) && depth <= STACK_LIMIT
    ensures ParseMembers(MembersText(members) + ([RBRACE] + post), depth, []) ==
            if MembersFit(members, STACK_LIMIT - depth) then Done(Obj(ReadMembers([], members)), post) else Throws
    decreases members, 1
  {
    if members == [] {
      assert MembersText(members) + ([RBRACE] + post) == [RBRACE] + post;
      PunctuationToken(RBRACE, post);
    } else {
      ParseMembersText(members, depth, [], post);
    }
  }

  lemma {:induction false} ParseMembersText(members: seq<Member>, depth: nat, done: seq<Member>, post: Bytes)
    requires members != [] && Storable(Obj(members)) && depth <= STACK_LIMIT
    ensures ParseMembers(MembersText(members) + ([RBRACE] + post), depth, done) ==
            if MembersFit(members, STACK_LIMIT - depth) then Done(Obj(ReadMembers(done, members)), post) else Throws
    decreases members, 0
  {
    hide ParseValue, ParseItems, ReadToken, Text, Quote, Unescape, Escape, MembersText, Meaning, Fits, Read, Insert;
    var m, more := members[0], members[1..];
    var end := [RBRACE] + post;
    var tail := if more == [] then end else [COMMA] + (MembersText(more) + end);
    var inner := Text(m.value) + tail;
    MemberFirst(members, end);
    QuotedToken(m.name, [COLON] + inner);
    UnescapeEscape(m.name);
    PunctuationToken(COLON, inner);
    ParseText(m.value, depth + 1, tail);
    PunctuationToken(RBRACE, post);
    if more != [] {
      PunctuationToken(COMMA, MembersText(more) + end);
      ParseMembersText(more, depth, Insert(done, Meaning(m.name), Read(m.value)), post);
    }
  }

  lemma {:induction false} MemberFirst(members: seq<Member>, end: Bytes)
    requires members != []
    ensures var m, more := members[0], members[1..];
            MembersText(members) + end ==
            Quote(m.name) + ([COLON] + (Text(m.value) + if more == [] then end else [COMMA] + (MembersText(more) + end)))
  {
    hide Text, Quote;
    var m, more := members[0], members[1..];
    if more == [] {
      Regroup(Quote(m.name), [COLON], Text(m.value), end);
    } else {
      Regroup(MemberText(m), [COMMA], MembersText(more), end);
      Regroup(Quote(m.name), [COLON], Text(m.value), [COMMA] + (MembersText(more) + end));
    }
  }

  /** Writing and reading a whole document: every value comes back unless it exceeds the reader's limits. */
  lemma {:induction false} DocumentRoundTrip(v: Value)
    requires Storable(v)
    ensures ParseDocument(Text(v)) == if Fits(v, STACK_LIMIT) then Done(Read(v), []) else Throws
  {
    hide ParseValue, Text, Fits, Read;
    TextStart(v);
    assert Text(v) + [] == Text(v);
    ParseText(v, 1, []);
  }

  /** Members as they are read when no two names collide. */
  function PlainMembers(members: seq<Member>): (r: seq<Member>)
    ensures |r| == |members| && forall i | 0 <= i < |r| :: r[i].name == members[i].name
    decreases members
  {
    if members == [] then [] else [Member(members[0].name, Read(members[0].value))] + PlainMembers(members[1..])
  }

  /** Valid names in order stay in order. */
  lemma {:induction false} ReadInOrder(done: seq<Member>, members: seq<Member>)
    requires forall i | 0 <= i < |members| :: ValidUtf8(members[i].name)
    requires forall i, j | 0 <= i < j < |members| :: Less(members[i].name, members[j].name)
    requires forall i, j | 0 <= i < |done| && 0 <= j < |members| :: Less(done[i].name, members[j].name)
    ensures ReadMembers(done, members) == done + PlainMembers(members)
    decreases |members|
  {
    hide Less, ValidUtf8, Insert, Meaning, Read;
    if members == [] {
    } else {
      var m := members[0];
      MeaningOfValid(m.name);
      InsertLast(done, m.name, Read(m.value));
      ReadInOrder(done + [Member(m.name, Read(m.value))], members[1..]);
      Assoc(done, [Member(m.name, Read(m.value))], PlainMembers(members[1..]));
    }
  }

  lemma {:induction false} InsertNames(members: seq<Member>, name: Bytes, value: Value)
    requires ValidUtf8(name) && forall m <- members :: ValidUtf8(m.name)
    ensures forall m <- Insert(members, name, value) :: ValidUtf8(m.name)
    decreases |members|
  {
    hide ValidUtf8, Less;
    if members == [] {
    } else {
      InsertNames(members[1..], name, value);
    }
  }

  /** Whatever was written, the names that are read are valid UTF-8. */
  lemma {:induction false} ReadNames(done: seq<Member>, members: seq<Member>)
    requires forall m <- done :: ValidUtf8(m.name)
    ensures forall m <- ReadMembers(done, members) :: ValidUtf8(m.name)
    decreases |members|
  {
    hide ValidUtf8, Insert, Meaning, Read;
    if members == [] {
    } else {
      MeaningIsValid(members[0].name);
      InsertNames(done, Meaning(members[0].name), Read(members[0].value));
      ReadNames(Insert(done, Meaning(members[0].name), Read(members[0].value)), members[1..]);
    }
  }

  /** What is read is what was written, up to the width of integers, exactly when all strings and names
      were valid UTF-8. */
  lemma {:induction false} ReadIsNorm(v: Value)
    requires Storable(v)
    ensures Read(v) == Norm(v) <==> AllUtf8(v)
    decreases v, 1
  {
    match v
    case Str(s) =>
      MeaningIsValid(s);
      if ValidUtf8(s) {
        MeaningOfValid(s);
      }
    case Arr(items) => ReadItemsIsNorm(items);
    case Obj(members) => ReadMembersIsNorm(members);
    case _ =>
  }

  lemma {:induction false} ReadItemsIsNorm(items: seq<Value>)
    requires Storable(Arr(items))
    ensures ReadItems(items) == NormItems(items) <==> AllUtf8(Arr(items))
    decreases items, 0
  {
    hide Read, Norm;
    if items == [] {
    } else {
      ReadIsNorm(items[0]);
      ReadItemsIsNorm(items[1..]);
      var r, n := ReadItems(items), NormItems(items);
      assert r[0] == Read(items[0]) && r[1..] == ReadItems(items[1..]);
      assert n[0] == Norm(items[0]) && n[1..] == NormItems(items[1..]);
      assert r == n <==> r[0] == n[0] && r[1..] == n[1..];
      assert AllUtf8(Arr(items)) <==> AllUtf8(items[0]) && AllUtf8(Arr(items[1..]));
    }
  }

  lemma {:induction false} ReadMembersIsNorm(members: seq<Member>)
    requires Storable(Obj(members))
    ensures ReadMembers([], members) == NormMembers(members) <==> AllUtf8(Obj(members))
    decreases members, 1
  {
    hide Read, Norm, ValidUtf8;
    if bad :| 0 <= bad < |members| && !ValidUtf8(members[bad].name) {
      ReadNames([], members);
      assert NormMembers(members)[bad] in NormMembers(members);
    } else {
      ReadInOrder([], members);
      assert [] + PlainMembers(members) == PlainMembers(members);
      PlainMembersIsNorm(members);
    }
  }

  lemma {:induction false} PlainMembersIsNorm(members: seq<Member>)
    requires Storable(Obj(members)) && forall i | 0 <= i < |members| :: ValidUtf8(members[i].name)
    ensures PlainMembers(members) == NormMembers(members) <==> AllUtf8(Obj(members))
    decreases members, 0
  {
    hide Read, Norm, ValidUtf8, Storable, AllUtf8;
    if members == [] {
      NothingIsUtf8();
    } else {
      ObjParts(members);
      ReadIsNorm(members[0].value);
      PlainMembersIsNorm(members[1..]);
      var r, n := PlainMembers(members), NormMembers(members);
      assert r[0].value == Read(members[0].value) && r[1..] == PlainMembers(members[1..]);
      assert n[0].value == Norm(members[0].value) && n[1..] == NormMembers(members[1..]);
      assert r == n <==> r[0] == n[0] && r[1..] == n[1..];
    }
  }

  lemma ObjParts(members: seq<Member>)
    requires members != []
    ensures Storable(Obj(members)) ==> Storable(members[0].value) && Storable(Obj(members[1..]))
    ensures AllUtf8(Obj(members)) <==>
            ValidUtf8(members[0].name) && AllUtf8(members[0].value) && AllUtf8(Obj(members[1..]))
  {
    hide Less, ValidUtf8;
  }

  lemma NothingIsUtf8()
    ensures AllUtf8(Obj([]))
  {
  }
}
