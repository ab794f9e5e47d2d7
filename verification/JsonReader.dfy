/** `OurReader`: the tokeniser and the recursive readers over a cursor, each doing what the grammar says. */
module JsonReader {
  import opened Bytes
  import opened JsonNumber
  import opened JsonString
  import opened JsonValue
  import opened JsonGrammar
  import opened JsonTree

  datatype Verdict = Good | Bad | Thrown | IsReal

  class OurReader {
    const doc: Bytes
    var current: nat
    /** `nodes_.size()`. */
    var depth: nat

    ghost predicate Valid()
      reads this
    {
      current <= |doc|
    }

    /** The text still to be read. */
    ghost function Left(): (s: Bytes)
      requires Valid()
      reads this
    {
      doc[current..]
    }

    constructor (doc: Bytes)
      ensures Valid() && this.doc == doc && current == 0 && depth == 0
    {
      this.doc, current, depth := doc, 0, 0;
    }

    method SkipSpaces()
      requires Valid()
      modifies this`current
      ensures Valid() && current >= old(current) && Left() == JsonGrammar.SkipSpaces(old(Left()))
    {
      while current != |doc| && IsSpace(doc[current])
        invariant Valid() && current >= old(current)
        invariant JsonGrammar.SkipSpaces(Left()) == JsonGrammar.SkipSpaces(old(Left()))
        decreases |doc| - current
      {
        assert Left()[1..] == doc[current + 1..];
        current := current + 1;
      }
    }

    /** `readString`, behind the opening quote. */
    method ReadString() returns (ok: bool)
      requires Valid()
      modifies this`current
      ensures Valid() && current >= old(current)
      ensures ok <==> ScanString(old(Left())).Some?
      ensures ok ==> current == old(current) + ScanString(old(Left())).value
    {
      hide ScanString;
      var c: byte := 0;
      while current != |doc|
        invariant Valid() && current >= old(current)
        invariant c != QUOTE && ScanString(old(Left())) == Skipped(current - old(current), ScanString(Left()))
        decreases |doc| - current
      {
        ScanAt(doc, current);
        c := doc[current];
        current := current + 1;
        if c == BACKSLASH {
          if current != |doc| {
            current := current + 1;
          }
        } else if c == QUOTE {
          break;
        }
      }
      ScanAtEnd(doc);
      ok := c == QUOTE;
    }

    /** Digits from the cursor on. */
    method ReadDigits()
      requires Valid()
      modifies this`current
      ensures Valid() && current == old(current) + DigitRun(old(Left()))
    {
      while current < |doc| && IsDigit(doc[current])
        invariant Valid() && current >= old(current)
        invariant DigitRun(old(Left())) == current - old(current) + DigitRun(Left())
        decreases |doc| - current
      {
        assert Left()[1..] == doc[current + 1..];
        current := current + 1;
      }
    }

    /** `readNumber`, behind the first character. */
    method ReadNumber()
      requires Valid()
      modifies this`current
      ensures Valid() && current == old(current) + NumberLength(old(Left()))
    {
      hide DigitRun, NumberLength, FractionEnd, ExponentEnd;
      ReadDigits();
      NumberAt(doc, old(current), current - old(current));
      ReadFraction();
      ReadExponent();
    }

    method ReadFraction()
      requires Valid()
      modifies this`current
      ensures Valid() && current == FractionEnd(doc, old(current))
    {
      hide DigitRun;
      if current < |doc| && doc[current] == '.' as int {
        current := current + 1;
        ReadDigits();
      }
    }

    method ReadExponent()
      requires Valid()
      modifies this`current
      ensures Valid() && current == ExponentEnd(doc, old(current))
    {
      hide DigitRun;
      if current < |doc| && (doc[current] == 'e' as int || doc[current] == 'E' as int) {
        current := current + 1;
        if current < |doc| && (doc[current] == '+' as int || doc[current] == MINUS) {
          current := current + 1;
        }
        ReadDigits();
      }
    }

    /** `match`: the last character is compared first. */
    method Match(word: Bytes) returns (ok: bool)
      requires Valid()
      modifies this`current
      ensures Valid() && ok == (word <= old(Left()))
      ensures current == if ok then old(current) + |word| else old(current)
    {
      if |doc| - current < |word| {
        return false;
      }
      var index := |word|;
      while index > 0
        invariant 0 <= index <= |word| && current == old(current)
        invariant forall k | index <= k < |word| :: doc[current + k] == word[k]
      {
        index := index - 1;
        if doc[current + index] != word[index] {
          assert Left()[index] != word[index];
          return false;
        }
      }
      assert Left()[..|word|] == word;
      current := current + |word|;
      return true;
    }

    /** `readToken`: the kind, and where the token starts; it ends at the cursor. */
    method ReadToken() returns (kind: Kind, start: nat)
      requires Valid()
      modifies this`current
      ensures Valid() && old(current) <= start <= current
      ensures kind == JsonGrammar.ReadToken(old(Left())).kind
      ensures kind != ErrorToken ==> Token(kind, doc[start..current], Left()) == JsonGrammar.ReadToken(old(Left()))
    {
      hide JsonGrammar.SkipSpaces, FrontToken;
      SkipSpaces();
      start := current;
      kind := ReadFront();
    }

    /** `readToken` behind the spaces. */
    method ReadFront() returns (kind: Kind)
      requires Valid()
      modifies this`current
      ensures Valid() && old(current) <= current
      ensures kind == FrontToken(old(Left())).kind
      ensures kind != ErrorToken ==> Token(kind, doc[old(current)..current], Left()) == FrontToken(old(Left()))
    {
      hide ScanString, NumberLength;
      if current == |doc| {
        return EndOfStream;
      }
      ghost var t, start := Left(), current;
      var c := doc[current];
      current := current + 1;
      assert Left() == t[1..];
      if Punctuation(c) != ErrorToken {
        kind := Punctuation(c);
      } else if c == QUOTE {
        var ok := ReadString();
        kind := if ok then StringToken else ErrorToken;
      } else if IsDigit(c) || ((c == MINUS || c == '+' as int) && !(current < |doc| && doc[current] == 'I' as int)) {
        ReadNumber();
        kind := NumberToken;
      } else {
        kind := ReadWord(c);
        return;
      }
      assert doc[start..current] == t[..current - start] && Left() == t[current - start..];
    }

    /** The words `true`, `false` and `null` behind their first letter. */
    method ReadWord(c: byte) returns (kind: Kind)
      requires Valid() && current > 0 && doc[current - 1] == c
      modifies this`current
      ensures Valid() && current >= old(current)
      ensures var t := old(doc[current - 1..]);
              var r := if c == TRUE_TEXT[0] then Literal(t, TRUE_TEXT, TrueToken)
                       else if c == FALSE_TEXT[0] then Literal(t, FALSE_TEXT, FalseToken)
                       else if c == NULL_TEXT[0] then Literal(t, NULL_TEXT, NullToken)
                       else Token(ErrorToken, [], t);
              && kind == r.kind
              && (kind != ErrorToken ==> doc[old(current) - 1..current] == r.text && Left() == r.rest)
    {
      ghost var t := doc[current - 1..];
      assert t == [c] + Left();
      var word, wanted := [], ErrorToken;
      if c == TRUE_TEXT[0] {
        word, wanted := TRUE_TEXT, TrueToken;
      } else if c == FALSE_TEXT[0] {
        word, wanted := FALSE_TEXT, FalseToken;
      } else if c == NULL_TEXT[0] {
        word, wanted := NULL_TEXT, NullToken;
      } else {
        return ErrorToken;
      }
      assert word == [c] + word[1..];
      var ok := Match(word[1..]);
      PrefixTail(c, word[1..], old(Left()));
      if !ok {
        return ErrorToken;
      }
      kind := wanted;
    }

    /** `readValue`. */
    method ReadValue() returns (verdict: Verdict, value: Value)
      requires Valid()
      modifies this`current, this`depth
      ensures Valid() && current >= old(current) && (verdict != Thrown ==> depth == old(depth))
      ensures Agrees(ParseValue(old(Left()), old(depth)), verdict, value, Left())
      decreases |doc| - current, 1
    {
      hide JsonGrammar.ReadToken, ParseItems, ParseMembers, Decoded, Unescape;
      value := Null;
      if depth > STACK_LIMIT {
        return Thrown, value;
      }
      var kind, start := ReadToken();
      match kind {
        case ObjectBegin =>
          verdict, value := ReadObject();
        case ArrayBegin =>
          verdict, value := ReadArray();
        case NumberToken =>
          var n := DecodeNumber(doc[start..current]);
          match n {
            case Int(v) => return Good, Value.Int(v);
            case UInt(v) => return Good, Value.UInt(v);
            case Double => return IsReal, value;
          }
        case StringToken =>
          var s := DecodeString(Inner(doc[start..current]));
          if s.None? {
            return Bad, value;
          }
          return Good, Str(s.value);
        case TrueToken => return Good, Bool(true);
        case FalseToken => return Good, Bool(false);
        case NullToken => return Good, Null;
        case _ => return Bad, value;
      }
    }

    /** `readArray`, behind the bracket. */
    method ReadArray() returns (verdict: Verdict, value: Value)
      requires Valid()
      modifies this`current, this`depth
      ensures Valid() && current >= old(current) && (verdict != Thrown ==> depth == old(depth))
      ensures Agrees(ParseItems(old(Left()), old(depth), []), verdict, value, Left())
      decreases |doc| - current, 2
    {
      hide JsonGrammar.ReadToken, JsonGrammar.SkipSpaces, ParseValue, ParseMembers;
      value := Null;
      var items: seq<Value> := [];
      while true
        invariant Valid() && current >= old(current) && depth == old(depth)
        invariant ParseItems(old(Left()), depth, []) == ParseItems(Left(), depth, items)
        decreases |doc| - current
      {
        SpacesDoNotCount(Left(), depth);
        SkipSpaces();
        if current != |doc| && doc[current] == RBRACKET {
          current := current + 1;
          return Good, Arr(items);
        }
        var item;
        depth := depth + 1;
        verdict, item := ReadValue();
        if verdict != Good {
          if verdict != Thrown {
            depth := depth - 1;
          }
          return;
        }
        depth := depth - 1;
        var kind, start := ReadToken();
        if kind == ArrayEnd {
          return Good, Arr(items + [item]);
        } else if kind != ArraySeparator {
          return Bad, value;
        }
        items := items + [item];
      }
    }

    /** `readObject`, behind the brace. */
    method ReadObject() returns (verdict: Verdict, value: Value)
      requires Valid()
      modifies this`current, this`depth
      ensures Valid() && current >= old(current) && (verdict != Thrown ==> depth == old(depth))
      ensures Agrees(ParseMembers(old(Left()), old(depth), []), verdict, value, Left())
      decreases |doc| - current, 2
    {
      hide JsonGrammar.ReadToken, ParseValue, ParseItems, Unescape, Insert;
      value := Null;
      var members: seq<Member> := [];
      while true
        invariant Valid() && current >= old(current) && depth == old(depth)
        invariant ParseMembers(old(Left()), depth, []) == ParseMembers(Left(), depth, members)
        decreases |doc| - current
      {
        var kind, start := ReadToken();
        if kind == ObjectEnd {
          return Good, Obj(members);
        } else if kind != StringToken {
          return Bad, value;
        }
        var name := DecodeString(Inner(doc[start..current]));
        if name.None? {
          return Bad, value;
        }
        if |name.value| >= NAME_LIMIT {
          return Thrown, value;
        }
        kind, start := ReadToken();
        if kind != MemberSeparator {
          return Bad, value;
        }
        var item;
        depth := depth + 1;
        verdict, item := ReadValue();
        if verdict != Good {
          if verdict != Thrown {
            depth := depth - 1;
          }
          return;
        }
        depth := depth - 1;
        members := Insert(members, name.value, item);
        kind, start := ReadToken();
        if kind == ObjectEnd {
          return Good, Obj(members);
        } else if kind != ArraySeparator {
          return Bad, value;
        }
      }
    }

    /** `parse`. */
    method Parse() returns (verdict: Verdict, root: Value)
      modifies this
      ensures Valid() && Agrees(ParseDocument(doc), verdict, root, Left())
      ensures verdict == Good <==> exists t, rest :: Document(doc, t, rest)
      ensures verdict == Good ==> exists t :: Document(doc, t, Left()) && Means(t) == root
    {
      hide ParseValue;
      current, depth := 0, 1;
      if |doc| >= 3 && doc[..3] == [0xEF, 0xBB, 0xBF] {
        current := 3;
      }
      assert Left() == SkipBom(doc);
      verdict, root := ReadValue();
      GoodIffTree(doc, verdict, root, Left());
    }
  }

  lemma GoodIffTree(doc: Bytes, verdict: Verdict, root: Value, left: Bytes)
    requires Agrees(ParseDocument(doc), verdict, root, left)
    ensures verdict == Good <==> exists t, rest :: Document(doc, t, rest)
    ensures verdict == Good ==> exists t :: Document(doc, t, left) && Means(t) == root
  {
    hide ParseDocument, Document, Means;
    if verdict == Good {
      DocumentIffTree(doc, root, left);
    }
    if t, rest :| Document(doc, t, rest) {
      assert Sound(t) by { DocumentSound(doc, t, rest); }
      DocumentIffTree(doc, Means(t), rest);
    }
  }


  /** A reader's answer is the one the grammar gives. */
  ghost predicate Agrees(o: Outcome, verdict: Verdict, value: Value, left: Bytes) {
    match o
    case Done(v, rest) => verdict == Good && value == v && left == rest
    case Rejected => verdict == Bad
    case Throws => verdict == Thrown
    case Real => verdict == IsReal
  }

  lemma {:induction false} SpacesDoNotCount(s: Bytes, depth: nat)
    ensures JsonGrammar.SkipSpaces(JsonGrammar.SkipSpaces(s)) == JsonGrammar.SkipSpaces(s)
    ensures ParseValue(JsonGrammar.SkipSpaces(s), depth + 1) == ParseValue(s, depth + 1)
  {
    SpacesOnce(JsonGrammar.SkipSpaces(s));
  }

  lemma {:induction false} SpacesOnce(t: Bytes)
    requires t != [] ==> !IsSpace(t[0])
    ensures JsonGrammar.SkipSpaces(t) == t
  {
  }

  lemma PrefixTail(c: byte, a: Bytes, b: Bytes)
    ensures [c] + a <= [c] + b <==> a <= b
  {
    if [c] + a <= [c] + b {
      assert ([c] + b)[..|a| + 1] == [c] + b[..|a|];
      assert ([c] + a)[1..] == ([c] + b[..|a|])[1..];
    }
  }

  lemma ScanAt(doc: Bytes, at: nat)
    requires at < |doc|
    ensures doc[at] == QUOTE ==> ScanString(doc[at..]) == Some(1)
    ensures doc[at] != QUOTE ==>
              var n := if doc[at] == BACKSLASH && at + 1 < |doc| then 2 else 1;
              ScanString(doc[at..]) == Skipped(n, ScanString(doc[at + n..]))
  {
    var s := doc[at..];
    assert s[1..] == doc[at + 1..];
    assert |s| > 1 ==> s[2..] == doc[at + 2..];
  }

  lemma ScanAtEnd(doc: Bytes)
    ensures ScanString(doc[|doc|..]) == None
  {
  }

  /** `NumberLength` from `at` on, `n` digits first, in positions of the document. */
  lemma NumberAt(doc: Bytes, at: nat, n: nat)
    requires at <= |doc| && n == DigitRun(doc[at..])
    ensures at + NumberLength(doc[at..]) == ExponentEnd(doc, FractionEnd(doc, at + n))
  {
    hide FractionEnd, ExponentEnd;
    FractionAt(doc, at, n);
    ExponentAt(doc, at, FractionEnd(doc[at..], n));
  }

  lemma FractionAt(doc: Bytes, at: nat, a: nat)
    requires at + a <= |doc|
    ensures at + FractionEnd(doc[at..], a) == FractionEnd(doc, at + a)
  {
    hide DigitRun;
    assert at + a < |doc| ==> doc[at..][a + 1..] == doc[at + a + 1..];
  }

  lemma ExponentAt(doc: Bytes, at: nat, b: nat)
    requires at + b <= |doc|
    ensures at + ExponentEnd(doc[at..], b) == ExponentEnd(doc, at + b)
  {
    hide DigitRun;
    assert at + b < |doc| ==> doc[at..][b + 1..] == doc[at + b + 1..];
    assert at + b + 1 < |doc| ==> doc[at..][b + 2..] == doc[at + b + 2..];
  }
}
