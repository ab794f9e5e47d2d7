/** `BuiltStyledStreamWriter` as `NodeTreeWriter` configures it: no comments, empty indentation. It
    chooses between one line and several by size, nesting and line length; the text does not depend
    on the choice. */
module JsonWriter {
  import opened Bytes
  import opened JsonNumber
  import opened JsonString
  import opened JsonValue

  const RIGHT_MARGIN: nat := 74

  /** Leaves and empty containers: what goes through `pushValue`. */
  predicate Flat(v: Value) {
    (v.Arr? ==> v.items == []) && (v.Obj? ==> v.members == [])
  }

  class BuiltStyledStreamWriter {
    var out: Bytes
    var childValues: seq<Bytes>
    var addChildValues: bool
    var indented: bool
    var indentString: Bytes
    const indentation: Bytes

    constructor ()
      ensures out == [] && childValues == [] && !addChildValues && indentation == [] && indentString == []
    {
      out, childValues, addChildValues, indented, indentString, indentation := [], [], false, false, [], [];
    }

    /** `write`. Without comments the writer is at the start of a line here and needs no indent. */
    method Write(root: Value)
      requires indentation == [] && Storable(root)
      modifies this
      ensures out == old(out) + Text(root)
    {
      addChildValues, indented, indentString := false, true, [];
      WriteValue(root);
    }

    method PushValue(text: Bytes)
      modifies this`out, this`childValues
      ensures addChildValues ==> out == old(out) && childValues == old(childValues) + [text]
      ensures !addChildValues ==> out == old(out) + text && childValues == old(childValues)
    {
      if addChildValues {
        childValues := childValues + [text];
      } else {
        out := out + text;
      }
    }

    method WriteIndent()
      modifies this`out
      ensures indentation == [] ==> out == old(out)
    {
      if indentation != [] {
        out := out + [0x0A] + indentString;
      }
    }

    method WriteWithIndent(text: Bytes)
      modifies this`out, this`indented
      ensures indentation == [] ==> out == old(out) + text
    {
      if !indented {
        WriteIndent();
      }
      out := out + text;
      indented := false;
    }

    method Indent()
      modifies this`indentString
      ensures indentString == old(indentString) + indentation
    {
      indentString := indentString + indentation;
    }

    method Unindent()
      requires |indentation| <= |indentString|
      modifies this`indentString
      ensures indentString == old(indentString)[..|old(indentString)| - |indentation|]
    {
      indentString := indentString[..|indentString| - |indentation|];
    }

    /** `writeValue`: to the stream, or as one entry of the child buffer. */
    method WriteValue(v: Value)
      requires indentation == [] && Storable(v) && (addChildValues ==> Flat(v))
      modifies this
      ensures addChildValues == old(addChildValues) && indentString == old(indentString)
      ensures addChildValues ==> out == old(out) && childValues == old(childValues) + [Text(v)]
      ensures !addChildValues ==> out == old(out) + Text(v)
      decreases v, 2
    {
      hide ItemsText, MembersText, Quote, IntText;
      EmptyTexts();
      match v
      case Null => PushValue(NULL_TEXT);
      case Bool(b) => PushValue(if b then TRUE_TEXT else FALSE_TEXT);
      case Int(i) =>
        var t := ValueToString(i);
        PushValue(t);
      case UInt(u) =>
        var t := ValueToString(u);
        PushValue(t);
      case Str(s) =>
        var t := ValueToQuotedString(s);
        PushValue(t);
      case Arr(items) => WriteArrayValue(items);
      case Obj(members) =>
        if members == [] {
          PushValue([LBRACE, RBRACE]);
        } else {
          WriteMembers(members);
        }
    }

    /** The non-empty object case of `writeValue`. */
    method WriteMembers(members: seq<Member>)
      requires indentation == [] && Storable(Obj(members)) && members != [] && !addChildValues
      modifies this
      ensures !addChildValues && indentString == old(indentString)
      ensures out == old(out) + Text(Obj(members))
      decreases members, 1
    {
      hide MembersText, MemberText, Quote;
      WriteWithIndent([LBRACE]);
      Indent();
      ghost var start := out;
      var i := 0;
      assert members[0..] == members;
      while true
        invariant 0 <= i < |members| && !addChildValues && indentString == old(indentString)
        invariant out + MembersText(members[i..]) == start + MembersText(members)
        decreases |members| - i
      {
        MembersStep(members, i);
        ghost var before := out;
        WriteMember(members[i]);
        i := i + 1;
        if i == |members| {
          break;
        }
        out := out + [COMMA];
        Regroup(before, MemberText(members[i - 1]), [COMMA], MembersText(members[i..]));
      }
      Unindent();
      WriteWithIndent([RBRACE]);
      Regroup(old(out), [LBRACE], MembersText(members), [RBRACE]);
    }

    method WriteMember(m: Member)
      requires indentation == [] && Storable(m.value) && !addChildValues
      modifies this
      ensures !addChildValues && indentString == old(indentString)
      ensures out == old(out) + MemberText(m)
      decreases m, 3
    {
      var name := ValueToQuotedString(m.name);
      WriteWithIndent(name);
      out := out + [COLON];
      WriteValue(m.value);
      Regroup(old(out), name, [COLON], Text(m.value));
    }

    /** `writeArrayValue`. */
    method WriteArrayValue(items: seq<Value>)
      requires indentation == [] && Storable(Arr(items)) && (addChildValues ==> items == [])
      modifies this
      ensures addChildValues == old(addChildValues) && indentString == old(indentString)
      ensures addChildValues ==> out == old(out) && childValues == old(childValues) + [Text(Arr(items))]
      ensures !addChildValues ==> out == old(out) + Text(Arr(items))
      decreases items, 1
    {
      hide ItemsText;
      EmptyTexts();
      if items == [] {
        PushValue([LBRACKET, RBRACKET]);
        return;
      }
      var isMultiLine := IsMultilineArray(items);
      if isMultiLine {
        WriteWithIndent([LBRACKET]);
        Indent();
        WriteLines(items, childValues != []);
        Unindent();
        WriteWithIndent([RBRACKET]);
      } else {
        out := out + [LBRACKET];
        WriteOneLine(items);
        out := out + [RBRACKET];
      }
      Regroup(old(out), [LBRACKET], ItemsText(items), [RBRACKET]);
    }

    /** The loop of the multi-line case: buffered texts if there are any, else the values themselves. */
    method WriteLines(items: seq<Value>, hasChildValue: bool)
      requires indentation == [] && Storable(Arr(items)) && items != [] && !addChildValues
      requires hasChildValue ==> childValues == Texts(items)
      modifies this
      ensures !addChildValues && indentString == old(indentString)
      ensures out == old(out) + ItemsText(items)
      decreases items, 0
    {
      hide Text, ItemsText;
      var index := 0;
      assert items[0..] == items;
      while true
        invariant 0 <= index < |items| && !addChildValues && indentString == old(indentString)
        invariant hasChildValue ==> childValues == Texts(items)
        invariant out + ItemsText(items[index..]) == old(out) + ItemsText(items)
        decreases |items| - index
      {
        ItemsStep(items, index);
        ghost var before := out;
        if hasChildValue {
          WriteWithIndent(childValues[index]);
        } else {
          if !indented {
            WriteIndent();
          }
          indented := true;
          WriteValue(items[index]);
          indented := false;
        }
        index := index + 1;
        if index == |items| {
          break;
        }
        out := out + [COMMA];
        Regroup(before, Text(items[index - 1]), [COMMA], ItemsText(items[index..]));
      }
    }

    /** The loop of the single-line case. */
    method WriteOneLine(items: seq<Value>)
      requires indentation == [] && items != [] && childValues == Texts(items)
      modifies this`out
      ensures out == old(out) + ItemsText(items)
    {
      hide Text, ItemsText, Separated;
      SeparatedEnds(items);
      for index := 0 to |items|
        invariant out + Separated(items, index) == old(out) + ItemsText(items)
      {
        SeparatedStep(items, index);
        ghost var before := out;
        var comma: Bytes := if index > 0 then [COMMA] else [];
        out := out + comma;
        out := out + childValues[index];
        Regroup(before, comma, Text(items[index]), Separated(items, index + 1));
      }
      assert out + [] == out;
    }

    /** `isMultilineArray`: fills the child buffer completely or leaves it empty. Sizes wrap at 2^32. */
    method IsMultilineArray(items: seq<Value>) returns (isMultiLine: bool)
      requires indentation == [] && Storable(Arr(items)) && items != [] && !addChildValues
      modifies this
      ensures !addChildValues && indentString == old(indentString) && out == old(out)
      ensures childValues == [] || childValues == Texts(items)
      ensures !isMultiLine ==> childValues == Texts(items)
      decreases items, 0
    {
      isMultiLine := Wrap32(|items| * 3) >= RIGHT_MARGIN;
      childValues := [];
      var index := 0;
      while index < |items| && !isMultiLine
        invariant 0 <= index <= |items|
        invariant !isMultiLine ==> forall k | 0 <= k < index :: Flat(items[k])
      {
        isMultiLine := !Flat(items[index]);
        index := index + 1;
      }
      if !isMultiLine {
        addChildValues := true;
        var lineLength := Wrap32(4 + (|items| - 1) * 2);
        for k := 0 to |items|
          invariant addChildValues && indentString == old(indentString) && out == old(out)
          invariant |childValues| == k && forall j | 0 <= j < k :: childValues[j] == Text(items[j])
        {
          WriteValue(items[k]);
          lineLength := Wrap32(lineLength + |childValues[k]|);
        }
        addChildValues := false;
        isMultiLine := lineLength >= RIGHT_MARGIN;
      }
    }
  }

  ghost function Texts(items: seq<Value>): (ts: seq<Bytes>) {
    seq(|items|, i requires 0 <= i < |items| => Text(items[i]))
  }

  /** The rest of a comma-separated list from `index` on, with the comma before it. */
  ghost function Separated(items: seq<Value>, index: nat): (t: Bytes)
    requires index <= |items|
  {
    if index == |items| then [] else if index == 0 then ItemsText(items) else [COMMA] + ItemsText(items[index..])
  }

  lemma {:induction false} SeparatedEnds(items: seq<Value>)
    requires items != []
    ensures Separated(items, 0) == ItemsText(items) && Separated(items, |items|) == []
  {
  }

  lemma SeparatedStep(items: seq<Value>, index: nat)
    requires index < |items|
    ensures Separated(items, index) ==
            (if index > 0 then [COMMA] else []) + Text(items[index]) + Separated(items, index + 1)
  {
    hide Text, ItemsText;
    ItemsStep(items, index);
    assert items[0..] == items;
    assert [] + Text(items[index]) == Text(items[index]);
    Assoc([COMMA], Text(items[index]), Separated(items, index + 1));
  }

  lemma ItemsStep(items: seq<Value>, i: nat)
    requires i < |items|
    ensures ItemsText(items[i..]) ==
            Text(items[i]) + if i + 1 < |items| then [COMMA] + ItemsText(items[i + 1..]) else []
  {
    hide Text;
    var rest := items[i..];
    assert rest[1..] == items[i + 1..];
    if i + 1 < |items| {
      Assoc(Text(items[i]), [COMMA], ItemsText(items[i + 1..]));
    }
  }

  lemma MembersStep(members: seq<Member>, i: nat)
    requires i < |members|
    ensures MembersText(members[i..]) ==
            MemberText(members[i]) + if i + 1 < |members| then [COMMA] + MembersText(members[i + 1..]) else []
  {
    hide MemberText;
    var rest := members[i..];
    assert rest[1..] == members[i + 1..];
    if i + 1 < |members| {
      Assoc(MemberText(members[i]), [COMMA], MembersText(members[i + 1..]));
    }
  }

  lemma EmptyTexts()
    ensures Text(Arr([])) == [LBRACKET, RBRACKET] && Text(Obj([])) == [LBRACE, RBRACE]
  {
  }
}
