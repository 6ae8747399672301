/**
 The styled writer behind Value::toStyledString (newJson/jsoncpp.cpp, BuiltStyledStreamWriter with the default
 settings: tab indentation, comment style All, separator " : "). With that comment style every non-empty
 array is written one item a line, so the child-value cache of the source stays empty.
 The text of a double is a parameter.
 */
module JsonWriter {
  import opened Bytes
  import opened JsonValue
  import opened JsonNumber
  import opened JsonText

  const NULL_TEXT: bytes := [0x6e, 0x75, 0x6c, 0x6c]
  const TRUE_TEXT: bytes := [0x74, 0x72, 0x75, 0x65]
  const FALSE_TEXT: bytes := [0x66, 0x61, 0x6c, 0x73, 0x65]
  const COLON: bytes := [0x20, 0x3a, 0x20]
  const COMMA: byte := 0x2c

  function Tabs(n: nat): (s: bytes)
    ensures |s| == n
  {
    if n == 0 then [] else Tabs(n - 1) + [0x09]
  }

  /** writeIndent: a line end and the indentation. */
  function NewLine(n: nat): (s: bytes)
    ensures |s| == n + 1
  {
    [0x0a] + Tabs(n)
  }

  /** writeWithIndent of an opening bracket. */
  function Open(indent: nat, indented: bool, bracket: byte): (s: bytes) {
    (if indented then [] else NewLine(indent)) + [bracket]
  }

  predicate IsScalar(v: Value) {
    !v.Arr? && !v.Obj?
  }

  function ScalarText(fmt: nat -> bytes, v: Value): (s: bytes)
    requires IsScalar(v)
  {
    match v
    case Null => NULL_TEXT
    case Bool(b) => if b then TRUE_TEXT else FALSE_TEXT
    case Int(i) => IntText(i)
    case UInt(u) => IntText(u)
    case Real(image) => fmt(image)
    case Str(s) => Quote(s)
  }

  /** What separates two items or members: a comma and a line break. */
  function Separation(indent: nat): (s: bytes)
    ensures |s| == indent + 2
  {
    [COMMA] + NewLine(indent)
  }

  /** What writeValue sends to the stream at indentation `indent`; `indented` is the flag on entry. */
  function Write(fmt: nat -> bytes, v: Value, indent: nat, indented: bool): (s: bytes)
    decreases v, 1
  {
    match v
    case Arr(items) =>
      if items == [] then [0x5b, 0x5d]
      else
        Open(indent, indented, 0x5b) + NewLine(indent + 1) +
        (WriteItems(fmt, items, indent + 1) + Close(indent, 0x5d))
    case Obj(members) =>
      if members == [] then [0x7b, 0x7d]
      else
        Open(indent, indented, 0x7b) + NewLine(indent + 1) +
        (WriteMembers(fmt, members, indent + 1) + Close(indent, 0x7d))
    case _ => ScalarText(fmt, v)
  }

  function Close(indent: nat, bracket: byte): (s: bytes)
    ensures |s| == indent + 2
  {
    NewLine(indent) + [bracket]
  }

  /** The items of an array from the first item on, the line break before it left out. */
  function WriteItems(fmt: nat -> bytes, items: seq<Value>, indent: nat): (s: bytes)
    requires items != []
    decreases items, 0
  {
    Write(fmt, items[0], indent, true) +
    if |items| == 1 then [] else Separation(indent) + WriteItems(fmt, items[1..], indent)
  }

  /** One member: its quoted name, the colon and its value. */
  function WriteMember(fmt: nat -> bytes, m: Member, indent: nat): (s: bytes)
    decreases m, 2
  {
    Quote(m.name) + (COLON + Write(fmt, m.value, indent, false))
  }

  function WriteMembers(fmt: nat -> bytes, ms: seq<Member>, indent: nat): (s: bytes)
    requires ms != []
    decreases ms, 0
  {
    WriteMember(fmt, ms[0], indent) +
    if |ms| == 1 then [] else Separation(indent) + WriteMembers(fmt, ms[1..], indent)
  }

  /** Value::toStyledString of a value without comments. */
  function ToStyledString(fmt: nat -> bytes, v: Value): (s: bytes) {
    Write(fmt, v, 0, true) + [0x0a]
  }

  // ---- the writer object of the source --------------------------------------------------

  class StyledWriter {
    var sout: bytes
    var indentString: bytes
    var indented: bool
    const fmt: nat -> bytes

    constructor (fmt: nat -> bytes)
      ensures this.fmt == fmt && sout == [] && indentString == [] && indented
    {
      this.fmt := fmt;
      sout, indentString, indented := [], [], true;
    }

    method WriteIndent()
      modifies this`sout
      ensures sout == old(sout) + [0x0a] + indentString
    {
      sout := sout + [0x0a] + indentString;
    }

    method WriteWithIndent(text: bytes)
      modifies this`sout, this`indented
      ensures sout == old(sout) + (if old(indented) then [] else [0x0a] + indentString) + text
      ensures !indented
    {
      if !indented {
        WriteIndent();
      }
      sout := sout + text;
      indented := false;
    }

    /** writeValue: the stream grows by exactly the text of the value, and the indentation is restored. */
    method WriteValue(v: Value, ghost depth: nat)
      requires indentString == Tabs(depth) && Holds(v)
      modifies this
      ensures indentString == old(indentString)
      ensures sout == old(sout) + Write(fmt, v, depth, old(indented))
      ensures indented == (old(indented) && (IsScalar(v) || v == Arr([]) || v == Obj([])))
      decreases v, 1
    {
      match v
      case Arr(items) => {
        WriteArrayValue(items, depth);
      }
      case Obj(members) => {
        WriteObjectValue(members, depth);
      }
      case Int(i) => {
        var text := ValueToString(i);
        sout := sout + text;
      }
      case UInt(u) => {
        var text := UnsignedToString(u);
        sout := sout + text;
      }
      case Str(s) => {
        var text := QuoteLoop(s);
        sout := sout + text;
      }
      case Real(image) => {
        sout := sout + fmt(image);
      }
      case Bool(b) => {
        sout := sout + if b then TRUE_TEXT else FALSE_TEXT;
      }
      case Null => {
        sout := sout + NULL_TEXT;
      }
    }

    method WriteArrayValue(items: seq<Value>, ghost depth: nat)
      requires indentString == Tabs(depth) && Holds(Arr(items))
      modifies this
      ensures indentString == old(indentString)
      ensures sout == old(sout) + Write(fmt, Arr(items), depth, old(indented))
      ensures indented == (old(indented) && items == [])
      decreases items, 2
    {
      if items == [] {
        sout := sout + [0x5b, 0x5d];
        return;
      }
      hide WriteItems, Write, NewLine;
      ghost var first := Opened(sout, depth, indented, 0x5b);
      WriteWithIndent([0x5b]);
      assert sout == first;
      Indent(depth);
      WriteAllItems(items, depth + 1);
      Unindent(depth);
      WriteWithIndent([0x5d]);
      assert NewLine(depth) == [0x0a] + indentString by { NewLineText(depth); }
      Bracketed(old(sout), Open(depth, old(indented), 0x5b), NewLine(depth + 1), WriteItems(fmt, items, depth + 1),
        NewLine(depth), [0x5d]);
      WriteNonEmptyArray(fmt, items, depth, old(indented));
    }

    method WriteObjectValue(members: seq<Member>, ghost depth: nat)
      requires indentString == Tabs(depth) && Holds(Obj(members))
      modifies this
      ensures indentString == old(indentString)
      ensures sout == old(sout) + Write(fmt, Obj(members), depth, old(indented))
      ensures indented == (old(indented) && members == [])
      decreases members, 2
    {
      if members == [] {
        sout := sout + [0x7b, 0x7d];
        return;
      }
      hide WriteMembers, Write, NewLine;
      ghost var first := Opened(sout, depth, indented, 0x7b);
      WriteWithIndent([0x7b]);
      assert sout == first;
      Indent(depth);
      WriteAllMembers(members, depth + 1);
      Unindent(depth);
      WriteWithIndent([0x7d]);
      assert NewLine(depth) == [0x0a] + indentString by { NewLineText(depth); }
      Bracketed(old(sout), Open(depth, old(indented), 0x7b), NewLine(depth + 1),
        WriteMembers(fmt, members, depth + 1), NewLine(depth), [0x7d]);
      WriteNonEmptyObject(fmt, members, depth, old(indented));
    }

    method Indent(ghost depth: nat)
      requires indentString == Tabs(depth)
      modifies this`indentString
      ensures indentString == Tabs(depth + 1)
    {
      indentString := indentString + [0x09];
    }

    method Unindent(ghost depth: nat)
      requires indentString == Tabs(depth + 1)
      modifies this`indentString
      ensures indentString == Tabs(depth)
    {
      indentString := indentString[..|indentString| - 1];
    }

    /** The item loop of writeArrayValue. */
    method WriteAllItems(items: seq<Value>, ghost depth: nat)
      requires items != [] && indentString == Tabs(depth) && !indented && Holds(Arr(items))
      modifies this
      ensures indentString == old(indentString) && !indented
      ensures sout == old(sout) + NewLine(depth) + WriteItems(fmt, items, depth)
      decreases items, 1
    {
      hide Write, WriteItems;
      ghost var head := sout + NewLine(depth);
      var index := 0;
      while index < |items|
        invariant 0 <= index <= |items|
        invariant !indented && indentString == Tabs(depth)
        invariant index == 0 ==> sout == old(sout)
        invariant index > 0 ==> sout == head + WriteItems(fmt, items[..index], depth)
      {
        ghost var before := sout;
        if index > 0 {
          sout := sout + [COMMA];
        }
        if !indented {
          WriteIndent();
        }
        indented := true;
        WriteValue(items[index], depth);
        indented := false;
        ItemsExtend(fmt, items, index, depth);
        ghost var text := Write(fmt, items[index], depth, true);
        if index > 0 {
          Appended(head, WriteItems(fmt, items[..index], depth), [COMMA], NewLine(depth), text);
          assert sout == before + [COMMA] + NewLine(depth) + text;
        }
        index := index + 1;
      }
      assert items[..index] == items;
    }

    /** The member loop of writeValue. */
    method WriteAllMembers(members: seq<Member>, ghost depth: nat)
      requires members != [] && indentString == Tabs(depth) && !indented && Holds(Obj(members))
      modifies this
      ensures indentString == old(indentString) && !indented
      ensures sout == old(sout) + NewLine(depth) + WriteMembers(fmt, members, depth)
      decreases members, 1
    {
      hide Write, WriteMembers, Quote;
      ghost var head := sout + NewLine(depth);
      var index := 0;
      while index < |members|
        invariant 0 <= index <= |members|
        invariant !indented && indentString == Tabs(depth)
        invariant index == 0 ==> sout == old(sout)
        invariant index > 0 ==> sout == head + WriteMembers(fmt, members[..index], depth)
      {
        var m := members[index];
        ghost var before := sout;
        if index > 0 {
          sout := sout + [COMMA];
        }
        ghost var prefix := sout;
        var name := QuoteLoop(m.name);
        WriteWithIndent(name);
        sout := sout + COLON;
        WriteValue(m.value, depth);
        ghost var text := WriteMember(fmt, m, depth);
        MemberAppended(prefix, NewLine(depth), Quote(m.name), COLON, Write(fmt, m.value, depth, false));
        assert sout == prefix + NewLine(depth) + text;
        MembersExtend(fmt, members, index, depth);
        if index > 0 {
          Appended(head, WriteMembers(fmt, members[..index], depth), [COMMA], NewLine(depth), text);
        }
        index := index + 1;
      }
      assert members[..index] == members;
    }
  }

  lemma NewLineText(indent: nat)
    ensures NewLine(indent) == [0x0a] + Tabs(indent)
  {
  }

  ghost function Opened(start: bytes, indent: nat, indented: bool, bracket: byte): (s: bytes)
    ensures s == start + (if indented then [] else [0x0a] + Tabs(indent)) + [bracket]
  {
    start + Open(indent, indented, bracket)
  }

  lemma WriteNonEmptyArray(fmt: nat -> bytes, items: seq<Value>, indent: nat, indented: bool)
    requires items != []
    ensures
      Write(fmt, Arr(items), indent, indented) ==
      Open(indent, indented, 0x5b) + NewLine(indent + 1)
        + (WriteItems(fmt, items, indent + 1) + (NewLine(indent) + [0x5d]))
  {
  }

  lemma WriteNonEmptyObject(fmt: nat -> bytes, ms: seq<Member>, indent: nat, indented: bool)
    requires ms != []
    ensures
      Write(fmt, Obj(ms), indent, indented) ==
      Open(indent, indented, 0x7b) + NewLine(indent + 1)
        + (WriteMembers(fmt, ms, indent + 1) + (NewLine(indent) + [0x7d]))
  {
  }

  lemma Bracketed(start: bytes, open: bytes, line: bytes, middle: bytes, endLine: bytes, close: bytes)
    ensures start + open + line + middle + endLine + close == start + (open + line + (middle + (endLine + close)))
  {
  }

  lemma Appended(head: bytes, done: bytes, comma: bytes, line: bytes, text: bytes)
    ensures head + done + comma + line + text == head + (done + ((comma + line) + text))
  {
  }

  lemma MemberAppended(prefix: bytes, line: bytes, name: bytes, colon: bytes, text: bytes)
    ensures prefix + line + name + colon + text == prefix + line + (name + (colon + text))
  {
  }

  lemma Regrouped(a: bytes, b: bytes, c: bytes, d: bytes)
    ensures a + (b + (c + d)) == (a + (b + c)) + d
  {
  }

  /** Items are written one after the other: a further item adds the separation and its own text. */
  lemma {:induction false} ItemsSnoc(fmt: nat -> bytes, items: seq<Value>, last: Value, indent: nat)
    requires items != []
    ensures
      WriteItems(fmt, items + [last], indent) ==
      WriteItems(fmt, items, indent) + (Separation(indent) + Write(fmt, last, indent, true))
  {
    hide Write, Separation;
    var first, tail := Write(fmt, items[0], indent, true), Separation(indent) + Write(fmt, last, indent, true);
    assert (items + [last])[0] == items[0];
    if |items| == 1 {
      assert (items + [last])[1..] == [last];
    } else {
      assert (items + [last])[1..] == items[1..] + [last];
      ItemsSnoc(fmt, items[1..], last, indent);
      Regrouped(first, Separation(indent), WriteItems(fmt, items[1..], indent), tail);
    }
  }

  lemma ItemsExtend(fmt: nat -> bytes, items: seq<Value>, k: nat, indent: nat)
    requires k < |items|
    ensures k == 0 ==> WriteItems(fmt, items[..1], indent) == Write(fmt, items[0], indent, true)
    ensures k > 0 ==>
      WriteItems(fmt, items[..k + 1], indent) ==
      WriteItems(fmt, items[..k], indent) + (Separation(indent) + Write(fmt, items[k], indent, true))
  {
    hide Write;
    if k > 0 {
      assert items[..k + 1] == items[..k] + [items[k]];
      ItemsSnoc(fmt, items[..k], items[k], indent);
    }
  }

  lemma {:induction false} MembersSnoc(fmt: nat -> bytes, ms: seq<Member>, last: Member, indent: nat)
    requires ms != []
    ensures
      WriteMembers(fmt, ms + [last], indent) ==
      WriteMembers(fmt, ms, indent) + (Separation(indent) + WriteMember(fmt, last, indent))
  {
    hide WriteMember, Separation;
    var first, tail := WriteMember(fmt, ms[0], indent), Separation(indent) + WriteMember(fmt, last, indent);
    assert (ms + [last])[0] == ms[0];
    if |ms| == 1 {
      assert (ms + [last])[1..] == [last];
    } else {
      assert (ms + [last])[1..] == ms[1..] + [last];
      MembersSnoc(fmt, ms[1..], last, indent);
      Regrouped(first, Separation(indent), WriteMembers(fmt, ms[1..], indent), tail);
    }
  }

  lemma MembersExtend(fmt: nat -> bytes, ms: seq<Member>, k: nat, indent: nat)
    requires k < |ms|
    ensures k == 0 ==> WriteMembers(fmt, ms[..1], indent) == WriteMember(fmt, ms[0], indent)
    ensures k > 0 ==>
      WriteMembers(fmt, ms[..k + 1], indent) ==
      WriteMembers(fmt, ms[..k], indent) + (Separation(indent) + WriteMember(fmt, ms[k], indent))
  {
    hide WriteMember;
    if k > 0 {
      assert ms[..k + 1] == ms[..k] + [ms[k]];
      MembersSnoc(fmt, ms[..k], ms[k], indent);
    }
  }
}
