/** The annotations of a trace node: the members of its JSON object, in the order of their names. */
module Annotations {
  import opened Bytes
  import opened JsonNumber
  import opened JsonValue
  import opened JsonGrammar

  const ELAPSED: Bytes := [0x3A, 0x45]                                // ":E"
  const AGENT_TYPE: Bytes := [0x3A, 0x46, 0x54]                       // ":FT"
  const START: Bytes := [0x3A, 0x53]                                  // ":S"
  const DEPTH: Bytes := [0x3A, 0x64, 0x65, 0x70, 0x74, 0x68]          // ":depth"
  const SEQUENCE: Bytes := [0x3A, 0x73, 0x65, 0x71]                   // ":seq"
  const HAS_EXCEPTION: Bytes := [0x45, 0x41]                          // "EA"
  const EVENT: Bytes := [0x65, 0x76, 0x65, 0x6E, 0x74]                // "event"
  const LINES: Bytes := [0x61, 0x6E, 0x6E, 0x6F]                      // "anno"
  const FAULT: Bytes := [0x45, 0x52, 0x52]                            // "ERR"
  const FAULT_FILE: Bytes := [0x66, 0x69, 0x6C, 0x65]                 // "file"
  const FAULT_LINE: Bytes := [0x6C, 0x69, 0x6E, 0x65]                 // "line"
  const FAULT_MESSAGE: Bytes := [0x6D, 0x73, 0x67]                    // "msg"
  const EXCEPTION: Bytes := [0x45, 0x58, 0x50, 0x5F, 0x56, 0x32]      // "EXP_V2"
  const EXCEPTION_CLASS: Bytes := [0x43]                              // "C"
  const EXCEPTION_TEXT: Bytes := [0x4D]                               // "M"
  const CLASS: Bytes := [0x63, 0x6C, 0x61, 0x73, 0x73]                // "class"

  /** The annotation of a name. */
  function Get(notes: seq<Member>, name: Bytes): (v: Option<Value>)
    decreases |notes|
  {
    if notes == [] then None
    else if notes[0].name == name then Some(notes[0].value)
    else Get(notes[1..], name)
  }

  /** `AddAnnotation` sets one name and no other. */
  lemma {:induction false} GetInsert(notes: seq<Member>, name: Bytes, value: Value, other: Bytes)
    ensures Get(Insert(notes, name, value), other) == if other == name then Some(value) else Get(notes, other)
    decreases |notes|
  {
    hide Less;
    if notes == [] || Less(name, notes[0].name) {
      assert ([Member(name, value)] + notes)[1..] == notes;
    } else if notes[0].name == name {
      assert ([Member(name, value)] + notes[1..])[1..] == notes[1..];
    } else {
      var rest := Insert(notes[1..], name, value);
      assert ([notes[0]] + rest)[1..] == rest;
      GetInsert(notes[1..], name, value, other);
    }
  }

  lemma {:induction false} LessTotal(a: Bytes, b: Bytes)
    requires !Less(a, b) && a != b
    ensures Less(b, a)
    decreases |a|
  {
    if a == [] || b == [] || a[0] != b[0] {
    } else {
      assert a == [a[0]] + a[1..] && b == [b[0]] + b[1..];
      LessTotal(a[1..], b[1..]);
    }
  }

  lemma {:induction false} LessTransitive(a: Bytes, b: Bytes, c: Bytes)
    requires Less(a, b) && Less(b, c)
    ensures Less(a, c)
    decreases |a|
  {
    if a == [] || a[0] != b[0] || b[0] != c[0] {
    } else {
      LessTransitive(a[1..], b[1..], c[1..]);
    }
  }

  ghost predicate Ordered(notes: seq<Member>) {
    forall i, j | 0 <= i < j < |notes| :: Less(notes[i].name, notes[j].name)
  }

  ghost predicate Above(low: Bytes, notes: seq<Member>) {
    forall i | 0 <= i < |notes| :: Less(low, notes[i].name)
  }

  lemma OrderedCons(m: Member, notes: seq<Member>)
    ensures Ordered([m] + notes) <==> Ordered(notes) && Above(m.name, notes)
  {
    hide Less;
    var all := [m] + notes;
    if Ordered(all) {
      forall i, j | 0 <= i < j < |notes| ensures Less(notes[i].name, notes[j].name) {
        assert all[i + 1] == notes[i] && all[j + 1] == notes[j];
      }
      forall i | 0 <= i < |notes| ensures Less(m.name, notes[i].name) {
        assert all[0] == m && all[i + 1] == notes[i];
      }
    }
  }

  lemma {:induction false} InsertAbove(low: Bytes, notes: seq<Member>, name: Bytes, value: Value)
    requires Above(low, notes) && Less(low, name)
    ensures Above(low, Insert(notes, name, value))
    decreases |notes|
  {
    hide Less;
    if notes == [] || Less(name, notes[0].name) || notes[0].name == name {
    } else {
      InsertAbove(low, notes[1..], name, value);
    }
  }

  /** The members stay in order. */
  lemma {:induction false} InsertOrdered(notes: seq<Member>, name: Bytes, value: Value)
    requires Ordered(notes)
    ensures Ordered(Insert(notes, name, value))
    decreases |notes|
  {
    hide Less, Ordered, Above;
    if notes == [] {
      NothingOrdered(name);
      OrderedCons(Member(name, value), []);
    } else {
      var m, rest := notes[0], notes[1..];
      assert notes == [m] + rest;
      OrderedCons(m, rest);
      if Less(name, m.name) {
        AllAbove(name, notes);
        OrderedCons(Member(name, value), notes);
      } else if m.name == name {
        OrderedCons(Member(name, value), rest);
      } else {
        LessTotal(name, m.name);
        InsertOrdered(rest, name, value);
        InsertAbove(m.name, rest, name, value);
        OrderedCons(m, Insert(rest, name, value));
      }
    }
  }

  lemma NothingOrdered(low: Bytes)
    ensures Ordered([]) && Above(low, [])
  {
  }

  lemma {:induction false} AllAbove(low: Bytes, notes: seq<Member>)
    requires Ordered(notes) && notes != [] && Less(low, notes[0].name)
    ensures Above(low, notes)
  {
    hide Less;
    forall i | 0 <= i < |notes| ensures Less(low, notes[i].name) {
      if i > 0 {
        LessTransitive(low, notes[0].name, notes[i].name);
      }
    }
  }

  /** What annotations are made of: no list or object contains another. */
  predicate Simple(v: Value) {
    match v
    case Arr(items) => forall i | 0 <= i < |items| :: Scalar(items[i])
    case Obj(members) => forall i | 0 <= i < |members| :: Scalar(members[i].value) && Plain(members[i].name)
    case _ => true
  }

  predicate Scalar(v: Value) {
    !v.Arr? && !v.Obj?
  }

  /** A short name of ASCII characters. */
  predicate Plain(name: Bytes) {
    |name| <= 6 && forall i | 0 <= i < |name| :: name[i] < 0x80
  }

  /** Annotations that can be stored. */
  ghost predicate Kept(notes: seq<Member>) {
    Storable(Obj(notes)) && forall i | 0 <= i < |notes| :: Simple(notes[i].value)
  }

  lemma {:induction false} InsertMembers(notes: seq<Member>, name: Bytes, value: Value, m: Member)
    requires m in Insert(notes, name, value)
    ensures m in notes || m == Member(name, value)
    decreases |notes|
  {
    hide Less;
    if notes == [] || Less(name, notes[0].name) || notes[0].name == name {
    } else if m != notes[0] {
      InsertMembers(notes[1..], name, value, m);
    }
  }

  /** What can be stored stays so. */
  lemma {:induction false} InsertKept(notes: seq<Member>, name: Bytes, value: Value)
    requires Kept(notes) && Storable(value) && Simple(value)
    ensures Kept(Insert(notes, name, value))
  {
    hide Less, Insert, Simple;
    assert Ordered(notes);
    InsertOrdered(notes, name, value);
    var all := Insert(notes, name, value);
    forall i | 0 <= i < |all| ensures Storable(all[i].value) && Simple(all[i].value) {
      InsertMembers(notes, name, value, all[i]);
    }
  }

  /** What an application adds to a node: an annotation of its own, a line of the common list, an error of the
      program, an exception. */
  datatype Clue =
    | Single(key: Bytes, value: Bytes)
    | Listed(key: Bytes, value: Bytes)
    | Fault(message: Bytes, file: Bytes, line: nat)
    | Thrown(text: Bytes, now: int)

  /** `NotInternalKey` throws for these. */
  predicate Internal(key: Bytes) {
    key != [] && key[0] == 0x3A
  }

  /** The value a clue gives to its name, or none where an exception is thrown: the key is internal, or a line is
      added to what is no list. */
  function ClueValue(notes: seq<Member>, clue: Clue, rootStart: int): (r: Option<(Bytes, Value)>) {
    match clue
    case Single(key, value) => if Internal(key) then None else Some((key, Str(value)))
    case Listed(key, value) =>
      var line := Str(key + [COLON] + value);
      if Internal(key) then None
      else
        (match Get(notes, LINES)
         case None => Some((LINES, Arr([line])))
         case Some(Arr(items)) => Some((LINES, Arr(items + [line])))
         case Some(_) => None)
    case Fault(message, file, line) =>
      Some((FAULT, Obj([Member(FAULT_FILE, Str(file)), Member(FAULT_LINE, Value.UInt(line)),
                        Member(FAULT_MESSAGE, Str(message))])))
    case Thrown(text, now) =>
      Some((EXCEPTION, Obj([Member(START, Value.UInt(AsUInt64(now - rootStart))), Member(EXCEPTION_CLASS, Str(CLASS)),
                            Member(EXCEPTION_TEXT, Str(text))])))
  }

  function Ascii(s: string): (r: Bytes) {
    seq(|s|, i requires 0 <= i < |s| => if s[i] < 128 as char then s[i] as int else 63)
  }

  /** How the names are spelled. */
  lemma Spelled()
    ensures ELAPSED == Ascii(":E") && AGENT_TYPE == Ascii(":FT") && START == Ascii(":S")
    ensures DEPTH == Ascii(":depth") && SEQUENCE == Ascii(":seq") && HAS_EXCEPTION == Ascii("EA") && EVENT == Ascii("event")
    ensures LINES == Ascii("anno") && FAULT == Ascii("ERR") && FAULT_FILE == Ascii("file") && FAULT_LINE == Ascii("line")
    ensures FAULT_MESSAGE == Ascii("msg") && EXCEPTION == Ascii("EXP_V2") && EXCEPTION_CLASS == Ascii("C")
    ensures EXCEPTION_TEXT == Ascii("M") && CLASS == Ascii("class")
  {
  }

  /** One name has a new value, and no other has. */
  ghost predicate Sets(before: seq<Member>, after: seq<Member>, name: Bytes, value: Value) {
    Get(after, name) == Some(value) && forall other | other != name :: Get(after, other) == Get(before, other)
  }

  /** One name has an object of three members, and no other name is changed. */
  ghost predicate SetsThree(before: seq<Member>, after: seq<Member>, name: Bytes,
                            a: Bytes, u: Value, b: Bytes, v: Value, c: Bytes, w: Value)
  {
    && (forall other | other != name :: Get(after, other) == Get(before, other))
    && Get(after, name).Some? && Get(after, name).value.Obj?
    && var members := Get(after, name).value.members;
    |members| == 3 && Get(members, a) == Some(u) && Get(members, b) == Some(v) && Get(members, c) == Some(w)
  }

  /** What a clue leaves behind, name by name, and when it is refused. */
  ghost predicate ClueTells(before: seq<Member>, after: seq<Member>, clue: Clue, rootStart: int, ok: bool) {
    match clue
    case Single(key, value) =>
      && (ok <==> !(|key| > 0 && key[0] == ':' as int))
      && (if ok then Sets(before, after, key, Str(value)) else after == before)
    case Listed(key, value) =>
      var lines := Get(before, Ascii("anno"));
      && (ok <==> !(|key| > 0 && key[0] == ':' as int) && (lines.Some? ==> lines.value.Arr?))
      && (if ok then Sets(before, after, Ascii("anno"),
                          Arr((if lines.Some? then lines.value.items else []) + [Str(key + [':' as int] + value)]))
          else after == before)
    case Fault(message, file, line) =>
      ok && SetsThree(before, after, Ascii("ERR"),
                      Ascii("msg"), Str(message), Ascii("file"), Str(file), Ascii("line"), Value.UInt(line))
    case Thrown(text, now) =>
      ok && SetsThree(before, after, Ascii("EXP_V2"), Ascii("M"), Str(text), Ascii("C"), Str(Ascii("class")),
                      Ascii(":S"), Value.UInt((now - rootStart) % 0x1_0000_0000_0000_0000))
  }

  lemma {:induction false} GetThree(x: Member, y: Member, z: Member)
    requires x.name != y.name && x.name != z.name && y.name != z.name
    ensures var members := [x, y, z];
            Get(members, x.name) == Some(x.value) && Get(members, y.name) == Some(y.value)
            && Get(members, z.name) == Some(z.value)
  {
    assert [x, y, z][1..] == [y, z] && [y, z][1..] == [z];
    assert Get([z], z.name) == Some(z.value);
    assert Get([y, z], y.name) == Some(y.value) && Get([y, z], z.name) == Some(z.value);
  }

  /** Every clue, on every annotations. */
  lemma {:induction false} ClueMeans(notes: seq<Member>, clue: Clue, rootStart: int)
    ensures var noted := ClueValue(notes, clue, rootStart);
            var after := if noted.None? then notes else Insert(notes, noted.value.0, noted.value.1);
            ClueTells(notes, after, clue, rootStart, noted.Some?)
  {
    hide Insert, Ascii;
    Spelled();
    var noted := ClueValue(notes, clue, rootStart);
    if noted.Some? {
      var after := Insert(notes, noted.value.0, noted.value.1);
      forall other ensures Get(after, other) == if other == noted.value.0 then Some(noted.value.1) else Get(notes, other) {
        GetInsert(notes, noted.value.0, noted.value.1, other);
      }
      if clue.Fault? || clue.Thrown? {
        var members := noted.value.1.members;
        GetThree(members[0], members[1], members[2]);
        assert members == [members[0], members[1], members[2]];
      } else if clue.Listed? && Get(notes, LINES).None? {
        var line := Str(clue.key + [':' as int] + clue.value);
        assert [] + [line] == [line];
      }
    }
  }

  /** The name under which a root collects its events is taken. A clue can only make it a string, and appending to
      a string throws. */
  predicate Jammed(notes: seq<Member>) {
    Get(notes, EVENT).Some?
  }

  function AsUInt64(x: int): (r: int) {
    x % 0x1_0000_0000_0000_0000
  }

  function AsInt64(x: int): (r: int) {
    var u := AsUInt64(x);
    if u < 0x8000_0000_0000_0000 then u else u - 0x1_0000_0000_0000_0000
  }

  /** A 64-bit word keeps a number up to multiples of 2^64, and one that fits as it is. */
  lemma Words(x: int)
    ensures 0 <= AsUInt64(x) <= MAX_UINT64 && (x - AsUInt64(x)) % 0x1_0000_0000_0000_0000 == 0
    ensures MIN_INT64 <= AsInt64(x) <= MAX_INT64 && (x - AsInt64(x)) % 0x1_0000_0000_0000_0000 == 0
    ensures 0 <= x <= MAX_UINT64 ==> AsUInt64(x) == x
    ensures MIN_INT64 <= x <= MAX_INT64 ==> AsInt64(x) == x
  {
    var q := x / 0x1_0000_0000_0000_0000;
    assert x - AsUInt64(x) == 0x1_0000_0000_0000_0000 * q;
    Multiple(q);
    Multiple(q + 1);
  }

  lemma Multiple(q: int)
    ensures 0x1_0000_0000_0000_0000 * q % 0x1_0000_0000_0000_0000 == 0
  {
  }

  lemma {:induction false} GetStorable(notes: seq<Member>, name: Bytes)
    requires Kept(notes) && Get(notes, name).Some?
    ensures Storable(Get(notes, name).value) && Simple(Get(notes, name).value)
    decreases |notes|
  {
    hide Less, Simple;
    if notes[0].name == name {
    } else {
      assert Kept(notes[1..]) by {
        assert forall i | 0 <= i < |notes[1..]| :: notes[1..][i] == notes[i + 1];
      }
      GetStorable(notes[1..], name);
    }
  }

  /** A clue's value can be stored, and no clue touches what the tracer records of an event. */
  lemma ClueKept(notes: seq<Member>, clue: Clue, rootStart: int)
    requires Kept(notes) && (clue.Fault? ==> clue.line < TWO_32) && ClueValue(notes, clue, rootStart).Some?
    ensures var (name, value) := ClueValue(notes, clue, rootStart).value;
            Storable(value) && Simple(value) && !Internal(name)
  {
    hide Less, Get;
    match clue
    case Single(key, value) =>
    case Listed(key, value) =>
      if Get(notes, LINES).Some? {
        GetStorable(notes, LINES);
      }
    case Fault(message, file, line) =>
      FaultOrdered();
    case Thrown(text, now) =>
      ThrownOrdered();
  }

  lemma ClueName(notes: seq<Member>, clue: Clue, rootStart: int)
    requires ClueValue(notes, clue, rootStart).Some?
    ensures !Internal(ClueValue(notes, clue, rootStart).value.0)
  {
  }

  lemma FaultOrdered()
    ensures Less(FAULT_FILE, FAULT_LINE) && Less(FAULT_FILE, FAULT_MESSAGE) && Less(FAULT_LINE, FAULT_MESSAGE)
  {
  }

  lemma ThrownOrdered()
    ensures Less(START, EXCEPTION_CLASS) && Less(START, EXCEPTION_TEXT) && Less(EXCEPTION_CLASS, EXCEPTION_TEXT)
  {
  }

  /** The same annotations but for names that an application cannot set. */
  ghost predicate Alike(a: seq<Member>, b: seq<Member>) {
    forall name | !Internal(name) :: Get(a, name) == Get(b, name)
  }

  lemma {:induction false} AlikeAt(a: seq<Member>, b: seq<Member>, name: Bytes)
    requires Alike(a, b) && !Internal(name)
    ensures Get(a, name) == Get(b, name)
  {
  }

  lemma AlikeTransitive(a: seq<Member>, b: seq<Member>, c: seq<Member>)
    requires Alike(a, b) && Alike(b, c)
    ensures Alike(a, c)
  {
  }

  /** A clue means the same for both. */
  lemma AlikeClue(a: seq<Member>, b: seq<Member>, clue: Clue, rootStart: int)
    requires Alike(a, b)
    ensures ClueValue(a, clue, rootStart) == ClueValue(b, clue, rootStart)
    ensures Jammed(a) == Jammed(b)
  {
    hide Get;
    AlikeAt(a, b, LINES);
    AlikeAt(a, b, EVENT);
  }

  lemma {:induction false} AlikeInsert(a: seq<Member>, b: seq<Member>, name: Bytes, value: Value)
    requires Alike(a, b)
    ensures Alike(Insert(a, name, value), Insert(b, name, value))
  {
    hide Get, Insert;
    forall other | !Internal(other) ensures Get(Insert(a, name, value), other) == Get(Insert(b, name, value), other) {
      GetInsert(a, name, value, other);
      GetInsert(b, name, value, other);
    }
  }
}
