/** JSON values without reals and comments, and the plain recursive compact printer. */
module JsonValue {
  import opened Bytes
  import opened JsonNumber
  import opened JsonString

  datatype Member = Member(name: Bytes, value: Value)

  /** Objects keep their members in the order of `std::map`: by name. */
  datatype Value =
    | Null
    | Bool(b: bool)
    | Int(i: int)
    | UInt(u: int)
    | Str(s: Bytes)
    | Arr(items: seq<Value>)
    | Obj(members: seq<Member>)

  const LBRACKET: byte := 0x5B
  const RBRACKET: byte := 0x5D
  const LBRACE: byte := 0x7B
  const RBRACE: byte := 0x7D
  const COMMA: byte := 0x2C
  const COLON: byte := 0x3A

  const NULL_TEXT: Bytes := [0x6E, 0x75, 0x6C, 0x6C]
  const TRUE_TEXT: Bytes := [0x74, 0x72, 0x75, 0x65]
  const FALSE_TEXT: Bytes := [0x66, 0x61, 0x6C, 0x73, 0x65]

  /** `memcmp` order of names, the shorter first on a tie. */
  predicate Less(a: Bytes, b: Bytes)
    decreases |a|
  {
    if b == [] then false
    else if a == [] then true
    else a[0] < b[0] || (a[0] == b[0] && Less(a[1..], b[1..]))
  }

  /** By the first byte that differs, or as a proper prefix. */
  lemma {:induction false} LessIff(a: Bytes, b: Bytes)
    ensures Less(a, b) <==>
            a < b || exists i :: 0 <= i < |a| && i < |b| && a[..i] == b[..i] && a[i] < b[i]
    decreases |a|
  {
    if a == [] || b == [] {
    } else if a[0] != b[0] {
      assert a[..0] == b[..0];
      forall i | 0 < i < |a| && i < |b| ensures a[..i] != b[..i] {
        assert a[..i][0] != b[..i][0];
      }
    } else {
      var p, q := a[1..], b[1..];
      LessIff(p, q);
      assert a == [a[0]] + p && b == [b[0]] + q;
      forall i | 0 <= i < |p| && i < |q| && p[..i] == q[..i] && p[i] < q[i] ensures a[..i + 1] == b[..i + 1] {
        assert a[..i + 1] == [a[0]] + p[..i] && b[..i + 1] == [b[0]] + q[..i];
      }
      if i :| 0 <= i < |a| && i < |b| && a[..i] == b[..i] && a[i] < b[i] {
        assert p[..i - 1] == a[..i][1..] && q[..i - 1] == b[..i][1..];
      }
      if i :| 0 <= i < |p| && i < |q| && p[..i] == q[..i] && p[i] < q[i] {
        assert a[i + 1] < b[i + 1];
      }
    }
  }

  /** Integers are in range and members are in strict order. */
  predicate Storable(v: Value)
    decreases v
  {
    match v
    case Null => true
    case Bool(_) => true
    case Int(i) => MIN_INT64 <= i <= MAX_INT64
    case UInt(u) => 0 <= u <= MAX_UINT64
    case Str(_) => true
    case Arr(items) => forall i | 0 <= i < |items| :: Storable(items[i])
    case Obj(members) =>
      && (forall i | 0 <= i < |members| :: Storable(members[i].value))
      && (forall i, j | 0 <= i < j < |members| :: Less(members[i].name, members[j].name))
  }

  /** The compact text of a value. */
  function Text(v: Value): (t: Bytes)
    decreases v, 1
  {
    match v
    case Null => NULL_TEXT
    case Bool(b) => if b then TRUE_TEXT else FALSE_TEXT
    case Int(i) => IntText(i)
    case UInt(u) => IntText(u)
    case Str(s) => Quote(s)
    case Arr(items) => [LBRACKET] + ItemsText(items) + [RBRACKET]
    case Obj(members) => [LBRACE] + MembersText(members) + [RBRACE]
  }

  function ItemsText(items: seq<Value>): (t: Bytes)
    decreases items, 0
  {
    if items == [] then []
    else if |items| == 1 then Text(items[0])
    else Text(items[0]) + [COMMA] + ItemsText(items[1..])
  }

  function MemberText(m: Member): (t: Bytes)
    decreases m, 2
  {
    Quote(m.name) + [COLON] + Text(m.value)
  }

  function MembersText(members: seq<Member>): (t: Bytes)
    decreases members, 0
  {
    if members == [] then []
    else if |members| == 1 then MemberText(members[0])
    else MemberText(members[0]) + [COMMA] + MembersText(members[1..])
  }

  /** The bytes of a text with one character between its parts and no white space. */
  function Size(v: Value): (n: nat)
    decreases v
  {
    match v
    case Null => 4
    case Bool(b) => if b then 4 else 5
    case Int(i) => |IntText(i)|
    case UInt(u) => |IntText(u)|
    case Str(s) => |Escape(s)| + 2
    case Arr(items) => if items == [] then 2 else ItemsSize(items) + 1
    case Obj(members) => if members == [] then 2 else MembersSize(members) + 1
  }

  /** With the character before each item. */
  function ItemsSize(items: seq<Value>): (n: nat)
    decreases items
  {
    if items == [] then 0 else 1 + Size(items[0]) + ItemsSize(items[1..])
  }

  function MembersSize(members: seq<Member>): (n: nat)
    decreases members
  {
    if members == [] then 0
    else 1 + (|Escape(members[0].name)| + 2) + 1 + Size(members[0].value) + MembersSize(members[1..])
  }

  /** The text is compact. */
  lemma {:induction false} TextSize(v: Value)
    ensures |Text(v)| == Size(v)
    decreases v, 1
  {
    hide IntText, Escape;
    match v
    case Arr(items) => ItemsTextSize(items);
    case Obj(members) => MembersTextSize(members);
    case _ =>
  }

  lemma {:induction false} ItemsTextSize(items: seq<Value>)
    ensures items != [] ==> |ItemsText(items)| + 1 == ItemsSize(items)
    decreases items, 0
  {
    if items == [] {
    } else {
      TextSize(items[0]);
      ItemsTextSize(items[1..]);
      assert |items| == 1 ==> items[1..] == [];
    }
  }

  lemma {:induction false} MembersTextSize(members: seq<Member>)
    ensures members != [] ==> |MembersText(members)| + 1 == MembersSize(members)
    decreases members, 0
  {
    hide Escape;
    if members == [] {
    } else {
      TextSize(members[0].value);
      MembersTextSize(members[1..]);
      assert |members| == 1 ==> members[1..] == [];
    }
  }
}
