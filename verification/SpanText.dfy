/** The span of a trace as a JSON value, as `TraceNode::AddAnnotation` and `EncodeTraceToJsonSpan` build it. */
module SpanText {
  import opened Bytes
  import opened JsonNumber
  import opened JsonString
  import opened JsonValue
  import opened JsonGrammar
  import opened JsonRoundTrip
  import opened Annotations
  import opened TraceForest

  function EventValues(events: seq<seq<Member>>): (items: seq<Value>)
    ensures |items| == |events| && forall i | 0 <= i < |items| :: items[i] == Obj(events[i])
  {
    seq(|events|, i requires 0 <= i < |events| => Obj(events[i]))
  }

  /** The annotations of the root, and the events if there are any. */
  function SpanMembers(span: Span): (members: seq<Member>) {
    if span.events == [] then span.notes else Insert(span.notes, EVENT, Arr(EventValues(span.events)))
  }

  function SpanValue(span: Span): (v: Value) {
    Obj(SpanMembers(span))
  }

  /** A span can be written: its members are in order and its integers in range. */
  lemma SpanStorable(span: Span)
    requires span.AllKept()
    ensures Storable(SpanValue(span))
  {
    hide Less, Insert, Simple;
    if span.events != [] {
      var items := EventValues(span.events);
      forall i | 0 <= i < |items| ensures Storable(items[i]) {
        assert span.events[i] in span.events;
      }
      StorableInsert(span.notes, EVENT, Arr(items));
    }
  }

  lemma {:induction false} StorableInsert(notes: seq<Member>, name: Bytes, value: Value)
    requires Storable(Obj(notes)) && Storable(value)
    ensures Storable(Obj(Insert(notes, name, value)))
  {
    hide Less, Insert;
    assert Ordered(notes);
    InsertOrdered(notes, name, value);
    var all := Insert(notes, name, value);
    forall i | 0 <= i < |all| ensures Storable(all[i].value) {
      InsertMembers(notes, name, value, all[i]);
    }
  }

  /** No name is beyond the limit of the reader. */
  predicate ShortNames(notes: seq<Member>) {
    forall i | 0 <= i < |notes| :: |Meaning(notes[i].name)| < NAME_LIMIT
  }

  lemma {:induction false} MembersFitIff(members: seq<Member>, n: int)
    ensures MembersFit(members, n) <==>
              forall i | 0 <= i < |members| :: |Meaning(members[i].name)| < NAME_LIMIT && Fits(members[i].value, n)
    decreases |members|
  {
    hide Fits, Meaning;
    if members == [] {
    } else {
      MembersFitIff(members[1..], n);
      assert forall i | 0 < i < |members| :: members[i] == members[1..][i - 1];
      assert forall i | 0 <= i < |members[1..]| :: members[1..][i] == members[i + 1];
    }
  }

  lemma {:induction false} ItemsFitIff(items: seq<Value>, n: int)
    ensures ItemsFit(items, n) <==> forall i | 0 <= i < |items| :: Fits(items[i], n)
    decreases |items|
  {
    hide Fits;
    if items == [] {
    } else {
      ItemsFitIff(items[1..], n);
      assert forall i | 0 < i < |items| :: items[i] == items[1..][i - 1];
      assert forall i | 0 <= i < |items[1..]| :: items[1..][i] == items[i + 1];
    }
  }

  lemma {:induction false} AsciiIsUtf8(s: Bytes)
    requires forall i | 0 <= i < |s| :: s[i] < 0x80
    ensures ValidUtf8(s)
    decreases |s|
  {
    if s == [] {
    } else {
      AsciiIsUtf8(s[1..]);
    }
  }

  lemma {:induction false} ScalarFits(v: Value, n: int)
    requires Scalar(v) && n >= 1
    ensures Fits(v, n)
  {
  }

  lemma {:induction false} PlainIsShort(name: Bytes)
    requires Plain(name)
    ensures |Meaning(name)| < NAME_LIMIT
  {
    AsciiIsUtf8(name);
    MeaningOfValid(name);
  }

  lemma {:induction false} SimpleFits(v: Value, n: int)
    requires Simple(v) && n >= 2
    ensures Fits(v, n)
  {
    hide Meaning, Plain;
    match v
    case Arr(items) =>
      ItemsFitIff(items, n - 1);
      forall i | 0 <= i < |items| ensures Fits(items[i], n - 1) {
        ScalarFits(items[i], n - 1);
      }
    case Obj(members) =>
      MembersFitIff(members, n - 1);
      forall i | 0 <= i < |members| ensures |Meaning(members[i].name)| < NAME_LIMIT && Fits(members[i].value, n - 1) {
        PlainIsShort(members[i].name);
        ScalarFits(members[i].value, n - 1);
      }
    case _ =>
  }

  lemma {:induction false} NotesFit(notes: seq<Member>, n: int)
    requires Kept(notes) && n >= 3
    ensures Fits(Obj(notes), n) <==> ShortNames(notes)
  {
    hide Meaning, Simple;
    MembersFitIff(notes, n - 1);
    forall i | 0 <= i < |notes| ensures Fits(notes[i].value, n - 1) {
      SimpleFits(notes[i].value, n - 1);
    }
  }

  /** The reader takes the text of a span exactly when no name is beyond its limit. */
  lemma SpanFits(span: Span)
    requires span.AllKept()
    ensures Fits(SpanValue(span), STACK_LIMIT) <==>
              ShortNames(SpanMembers(span)) && forall i | 0 <= i < |span.events| :: ShortNames(span.events[i])
  {
    hide Meaning, Simple, Less, Insert, Fits, ShortNames;
    if span.events == [] {
      NotesFit(span.notes, STACK_LIMIT);
    } else {
      var items := EventValues(span.events);
      forall i | 0 <= i < |items| ensures Fits(items[i], STACK_LIMIT - 2) <==> ShortNames(span.events[i]) {
        assert span.events[i] in span.events;
        NotesFit(span.events[i], STACK_LIMIT - 2);
      }
      WithEventsFits(span.notes, items);
    }
  }

  lemma {:induction false} WithEventsFits(notes: seq<Member>, items: seq<Value>)
    requires Kept(notes)
    ensures var members := Insert(notes, EVENT, Arr(items));
            Fits(Obj(members), STACK_LIMIT) <==>
              ShortNames(members) && forall i | 0 <= i < |items| :: Fits(items[i], STACK_LIMIT - 2)
  {
    hide Meaning, Simple, Less, Insert, Fits;
    var members := Insert(notes, EVENT, Arr(items));
    MembersFitIff(members, STACK_LIMIT - 1);
    ItemsFitIff(items, STACK_LIMIT - 2);
    FitsUnfold(members, items);
    InsertHas(notes, EVENT, Arr(items));
    forall i | 0 <= i < |members| && members[i] != Member(EVENT, Arr(items))
      ensures Fits(members[i].value, STACK_LIMIT - 1)
    {
      InsertMembers(notes, EVENT, Arr(items), members[i]);
      SimpleFits(members[i].value, STACK_LIMIT - 1);
    }
  }

  lemma {:induction false} FitsUnfold(members: seq<Member>, items: seq<Value>)
    ensures Fits(Obj(members), STACK_LIMIT) == MembersFit(members, STACK_LIMIT - 1)
    ensures Fits(Arr(items), STACK_LIMIT - 1) == ItemsFit(items, STACK_LIMIT - 2)
  {
  }

  lemma {:induction false} InsertHas(notes: seq<Member>, name: Bytes, value: Value)
    ensures Member(name, value) in Insert(notes, name, value)
    decreases |notes|
  {
    hide Less;
    if notes == [] || Less(name, notes[0].name) || notes[0].name == name {
    } else {
      InsertHas(notes[1..], name, value);
    }
  }

  function NormOf(v: Option<Value>): (r: Option<Value>) {
    match v
    case None => None
    case Some(x) => Some(Norm(x))
  }

  lemma {:induction false} GetNorm(members: seq<Member>, name: Bytes)
    ensures Get(NormMembers(members), name) == NormOf(Get(members, name))
    decreases |members|
  {
    hide Norm;
    if members == [] {
    } else {
      var m := Member(members[0].name, Norm(members[0].value));
      assert NormMembers(members) == [m] + NormMembers(members[1..]);
      assert ([m] + NormMembers(members[1..]))[1..] == NormMembers(members[1..]);
      GetNorm(members[1..], name);
    }
  }

  lemma {:induction false} NormItemsAt(items: seq<Value>, i: nat)
    requires i < |items|
    ensures NormItems(items)[i] == Norm(items[i])
    decreases |items|
  {
    hide Norm;
    if i == 0 {
    } else {
      NormItemsAt(items[1..], i - 1);
    }
  }

  /** The value of a span tells every annotation of its root, and of every event in its place. */
  lemma {:induction false} SpanTells(span: Span, name: Bytes)
    ensures Get(SpanMembers(span), name) ==
            if name == EVENT && span.events != [] then Some(Arr(EventValues(span.events))) else Get(span.notes, name)
    ensures Norm(SpanValue(span)) == Obj(NormMembers(SpanMembers(span)))
    ensures Get(NormMembers(SpanMembers(span)), name) == NormOf(Get(SpanMembers(span), name))
    ensures forall i | 0 <= i < |span.events| ::
              && NormItems(EventValues(span.events))[i] == Obj(NormMembers(span.events[i]))
              && Get(NormMembers(span.events[i]), name) == NormOf(Get(span.events[i], name))
  {
    hide Get, Insert;
    GetInsert(span.notes, EVENT, Arr(EventValues(span.events)), name);
    GetNorm(SpanMembers(span), name);
    forall i | 0 <= i < |span.events|
      ensures NormItems(EventValues(span.events))[i] == Obj(NormMembers(span.events[i]))
      ensures Get(NormMembers(span.events[i]), name) == NormOf(Get(span.events[i], name))
    {
      NormItemsAt(EventValues(span.events), i);
      GetNorm(span.events[i], name);
    }
  }

  /** What the text of a value can take at most. */
  function Bulk(v: Value): (n: nat)
    decreases v, 1
  {
    match v
    case Null => 4
    case Bool(_) => 5
    case Int(_) => 21
    case UInt(_) => 21
    case Str(s) => 12 * |s| + 2
    case Arr(items) => ItemsBulk(items) + 2
    case Obj(members) => MembersBulk(members) + 2
  }

  function ItemsBulk(items: seq<Value>): (n: nat)
    decreases items, 0
  {
    if items == [] then 0 else Bulk(items[0]) + 1 + ItemsBulk(items[1..])
  }

  function MembersBulk(members: seq<Member>): (n: nat)
    decreases members, 0
  {
    if members == [] then 0 else 12 * |members[0].name| + 4 + Bulk(members[0].value) + MembersBulk(members[1..])
  }

  lemma {:induction false} EscapeLength(s: Bytes)
    ensures |Escape(s)| <= 12 * |s|
    decreases |s|
  {
    hide Utf8ToCodepoint;
    if s == [] {
    } else {
      var (cp, n) := Utf8ToCodepoint(s);
      EscapeLength(s[n..]);
    }
  }

  /** Every character takes at most twelve bytes, every number at most 21. */
  lemma {:induction false} TextBulk(v: Value)
    requires Storable(v)
    ensures |Text(v)| <= Bulk(v)
    decreases v, 1
  {
    hide Escape, Decimal, Less;
    match v
    case Null =>
    case Bool(_) =>
    case Int(i) => UInt64Length(if i < 0 then -i else i);
    case UInt(u) => UInt64Length(u);
    case Str(s) => EscapeLength(s);
    case Arr(items) => ItemsTextBulk(items);
    case Obj(members) => MembersTextBulk(members);
  }

  lemma {:induction false} ItemsTextBulk(items: seq<Value>)
    requires forall i | 0 <= i < |items| :: Storable(items[i])
    ensures |ItemsText(items)| <= ItemsBulk(items)
    decreases items, 0
  {
    hide Text, Bulk, Storable;
    if items == [] {
    } else {
      TextBulk(items[0]);
      ItemsTextBulk(items[1..]);
    }
  }

  lemma {:induction false} MembersTextBulk(members: seq<Member>)
    requires forall i | 0 <= i < |members| :: Storable(members[i].value)
    ensures |MembersText(members)| <= MembersBulk(members)
    decreases members, 0
  {
    hide Text, Bulk, Storable, Escape;
    if members == [] {
    } else {
      EscapeLength(members[0].name);
      TextBulk(members[0].value);
      MembersTextBulk(members[1..]);
    }
  }
}
