/**
 What the styled writer writes is a document of RFC 8259 (newJson/jsoncpp.cpp, BuiltStyledStreamWriter::writeValue,
 valueToQuotedStringN, valueToString): no comments, no raw control characters, no needless digits, commas only between.
 */
module JsonStyledGrammar {
  import opened Bytes
  import opened JsonValue
  import opened JsonNumber
  import opened JsonText
  import opened JsonReader
  import opened JsonGrammar
  import opened JsonGapScan
  import opened JsonWriter
  import opened JsonRoundTrip
  import opened JsonSoundness

  /** The platform prints every double of the tree as a number of section 6. */
  ghost predicate PrintsReals(fmt: nat -> bytes, v: Value)
    decreases v
  {
    match v
    case Real(image) => exists n :: NumeralOk(n) && StandardNumeral(n) && NumeralText(n) == fmt(image)
    case Arr(items) => forall i :: 0 <= i < |items| ==> PrintsReals(fmt, items[i])
    case Obj(ms) => forall i :: 0 <= i < |ms| ==> PrintsReals(fmt, ms[i].value)
    case _ => true
  }

  // ---- strings ---------------------------------------------------------------------------------

  function HexUnit(x: nat): (u: Unit) {
    Hex(Nibble(x / 4096 % 16, false), Nibble(x / 256 % 16, false), Nibble(x / 16 % 16, false), Nibble(x % 16, false))
  }

  lemma HexUnitText(x: nat)
    ensures UnitOk(HexUnit(x)) && UnitText(HexUnit(x)) == HexEscape(x)
  {
    LowerDigit(x / 4096 % 16);
    LowerDigit(x / 256 % 16);
    LowerDigit(x / 16 % 16);
    LowerDigit(x % 16);
  }

  lemma LowerDigit(d: nat)
    requires d < 16
    ensures NibbleByte(Nibble(d, false)) == HexDigit(d)
  {
  }

  function PointUnits(cp: nat): (us: seq<Unit>) {
    if ShortEscape(cp).Some? then [Short(ShortEscape(cp).value)]
    else if cp < 0x20 then [HexUnit(cp)]
    else if cp < 0x80 then [Raw(cp)]
    else if cp < 0x10000 then [HexUnit(cp)]
    else [HexUnit(0xd800 + (cp - 0x10000) / 1024 % 1024), HexUnit(0xdc00 + (cp - 0x10000) % 1024)]
  }

  lemma PointUnitsText(cp: nat)
    ensures var us := PointUnits(cp); UnitsOk(us) && StandardUnits(us) && UnitsText(us) == EscapeUnit(cp)
  {
    hide HexUnit, HexEscape;
    var us := PointUnits(cp);
    if ShortEscape(cp).None? {
      if cp >= 0x10000 {
        HexUnitText(0xd800 + (cp - 0x10000) / 1024 % 1024);
        HexUnitText(0xdc00 + (cp - 0x10000) % 1024);
        HexIsHex(0xd800 + (cp - 0x10000) / 1024 % 1024);
        HexIsHex(0xdc00 + (cp - 0x10000) % 1024);
      } else {
        HexUnitText(cp);
        HexIsHex(cp);
      }
    }
    assert us[1..] == [] || us[1..] == [us[1]];
    UnitsOfTwo(us);
  }

  lemma HexIsHex(x: nat)
    ensures HexUnit(x).Hex?
  {
  }

  lemma UnitsOfTwo(us: seq<Unit>)
    requires 1 <= |us| <= 2
    ensures UnitsText(us) == UnitText(us[0]) + if |us| == 1 then [] else UnitText(us[1])
  {
    hide UnitText;
    if |us| == 2 {
      assert us[1..] == [us[1]] && [us[1]][1..] == [];
    }
  }

  lemma {:induction false} UnitsJoin(us: seq<Unit>, ws: seq<Unit>)
    ensures UnitsText(us + ws) == UnitsText(us) + UnitsText(ws)
    decreases |us|
  {
    hide UnitText;
    if us == [] {
      assert us + ws == ws;
    } else {
      assert (us + ws)[0] == us[0] && (us + ws)[1..] == us[1..] + ws;
      UnitsJoin(us[1..], ws);
    }
  }

  /** The escaping writer leaves no control character, quote or backslash unescaped. */
  lemma {:induction false} FindEscaped(s: bytes) returns (us: seq<Unit>)
    ensures UnitsOk(us) && StandardUnits(us) && UnitsText(us) == Escape(s)
    decreases |s|
  {
    hide EscapeUnit, ReadHead, PointUnits, UnitOk, UnitText;
    if s == [] {
      us := [];
    } else {
      var h := ReadHead(s);
      var rest := FindEscaped(s[h.length..]);
      PointUnitsText(h.codepoint);
      us := PointUnits(h.codepoint) + rest;
      UnitsJoin(PointUnits(h.codepoint), rest);
    }
  }

  lemma FindQuoteUnits(s: bytes) returns (us: seq<Unit>)
    ensures UnitsOk(us) && StandardUnits(us) && Quoted(us) == Quote(s)
  {
    hide Quote, Escape, UnitOk, UnitsText;
    us := FindEscaped(s);
    QuoteIsEscape(s);
  }

  // ---- integers --------------------------------------------------------------------------------

  lemma {:induction false} NoLeadingZero(n: nat)
    ensures Digits(n)[0] == 0x30 ==> n == 0 && |Digits(n)| == 1
  {
    if n >= 10 { NoLeadingZero(n / 10); }
  }

  lemma FindInteger(n: int) returns (m: Numeral)
    ensures NumeralOk(m) && StandardNumeral(m) && NumeralText(m) == IntText(n)
  {
    hide Digits;
    var x := if n < 0 then -n else n;
    NoLeadingZero(x);
    m := Numeral(n < 0, Digits(x), None, None);
    assert NumeralText(m) == (if n < 0 then [0x2d] else []) + (Digits(x) + []);
  }

  // ---- values ----------------------------------------------------------------------------------

  lemma {:induction false} TabsAreBlanks(n: nat)
    ensures Blanks(Tabs(n))
  {
    if n > 0 { TabsAreBlanks(n - 1); }
  }

  lemma NewLineBlanks(n: nat)
    ensures Blanks(NewLine(n))
  {
    TabsAreBlanks(n);
    hide Tabs;
  }

  lemma BlanksJoin(a: bytes, b: bytes)
    requires Blanks(a) && Blanks(b)
    ensures Blanks(a + b)
  {
  }

  lemma FindStyledScalar(fmt: nat -> bytes, v: Value) returns (d: Doc)
    requires IsScalar(v) && PrintsReals(fmt, v)
    ensures Ok(d) && Standard(d) && Text(d) == ScalarText(fmt, v)
  {
    hide Quote, Quoted, NumeralText, NumeralOk, StandardNumeral, UnitsOk, StandardUnits, IntText;
    match v
    case Null => d := DNull;
    case Bool(b) => d := DBool(b);
    case Int(i) =>
      var n := FindInteger(i);
      d := DNumber(n);
    case UInt(u) =>
      var n := FindInteger(u);
      d := DNumber(n);
    case Real(image) =>
      var n :| NumeralOk(n) && StandardNumeral(n) && NumeralText(n) == fmt(image);
      d := DNumber(n);
    case Str(s) =>
      var us := FindQuoteUnits(s);
      d := DString(us);
  }

  /** What writeValue writes: the line break it may begin with, and a document of the standard. */
  lemma {:induction false} FindStyled(fmt: nat -> bytes, v: Value, indent: nat, indented: bool)
    returns (blanks: bytes, d: Doc)
    requires PrintsReals(fmt, v)
    ensures Blanks(blanks) && Ok(d) && Standard(d) && Write(fmt, v, indent, indented) == blanks + Text(d)
    ensures indented ==> blanks == []
    decreases v, 1
  {
    hide NewLine, Close, WriteItems, WriteMembers, ScalarText, GapOk, GapText, Blanks;
    NoBlanks();
    NewLineBlanks(indent);
    blanks := [];
    if v.Arr? && v.items != [] {
      NewLineBlanks(indent + 1);
      var items := FindStyledItems(fmt, v.items, indent, NewLine(indent + 1));
      d := DArray([], items);
      blanks := if indented then [] else NewLine(indent);
      assert ItemsOk(items);
      OpenText(fmt, v, indent, indented, ItemsText(items));
    } else if v.Obj? && v.members != [] {
      NewLineBlanks(indent + 1);
      var ms := FindStyledMembers(fmt, v.members, indent, NewLine(indent + 1), []);
      d := DObject(ms, []);
      blanks := if indented then [] else NewLine(indent);
      OpenText(fmt, v, indent, indented, EntriesText(ms, []));
    } else if v.Arr? {
      d := DArray([], []);
    } else if v.Obj? {
      d := DObject([], []);
      assert GapOk([]) && GapText([]) == [] by { NoGap(); }
    } else {
      d := FindStyledScalar(fmt, v);
    }
  }

  lemma NoBlanks()
    ensures Blanks([])
  {
  }

  lemma NoGap()
    ensures GapOk([]) && GapText([]) == [] && StandardGap([])
  {
  }

  lemma OpenText(fmt: nat -> bytes, v: Value, indent: nat, indented: bool, body: bytes)
    requires (v.Arr? && v.items != []) || (v.Obj? && v.members != [])
    requires v.Arr? ==> body == NewLine(indent + 1) + (WriteItems(fmt, v.items, indent + 1) + Close(indent, 0x5d))
    requires v.Obj? ==> body == NewLine(indent + 1) + (WriteMembers(fmt, v.members, indent + 1) + Close(indent, 0x7d))
    ensures
      var c: bytes := [if v.Arr? then 0x5b else 0x7b];
      Write(fmt, v, indent, indented) == (if indented then [] else NewLine(indent)) + (c + body)
  {
    hide NewLine, Close, WriteItems, WriteMembers;
  }

  predicate StandardItems(items: seq<Item>) {
    forall k :: 0 <= k < |items| ==>
      StandardGap(items[k].before) && StandardGap(items[k].after) && Standard(items[k].doc)
  }

  lemma {:induction false} FindStyledItems(fmt: nat -> bytes, vs: seq<Value>, indent: nat, before: bytes)
    returns (items: seq<Item>)
    requires vs != [] && Blanks(before) && forall i :: 0 <= i < |vs| ==> PrintsReals(fmt, vs[i])
    ensures items != [] && ItemsOk(items) && StandardItems(items)
    ensures ItemsText(items) == before + (WriteItems(fmt, vs, indent + 1) + Close(indent, 0x5d))
    decreases vs, 0
  {
    hide Write, Close, NewLine, Text, Ok, Standard, PrintsReals, Blanks, ItemsText, ItemsOk, StandardItems, WriteItems;
    var blanks, d := FindStyled(fmt, vs[0], indent + 1, true);
    BlanksJoin(before, blanks);
    if |vs| == 1 {
      NewLineBlanks(indent);
      items := ConsStyledItem(before + blanks, d, NewLine(indent), []);
      LastItem(fmt, vs, indent);
      assert ItemsText(items) == before + blanks + (Text(d) + (NewLine(indent) + [0x5d]));
    } else {
      NewLineBlanks(indent + 1);
      var rest := FindStyledItems(fmt, vs[1..], indent, NewLine(indent + 1));
      NoBlanks();
      items := ConsStyledItem(before + blanks, d, [], rest);
      MoreItems(fmt, vs, indent);
      assert ItemsText(items) == before + blanks + (Text(d) + ([] + ([0x2c] + ItemsText(rest))));
    }
  }

  lemma LastItem(fmt: nat -> bytes, vs: seq<Value>, indent: nat)
    requires |vs| == 1
    ensures
      WriteItems(fmt, vs, indent + 1) + Close(indent, 0x5d) == Write(fmt, vs[0], indent + 1, true)
        + (NewLine(indent) + [0x5d])
  {
    hide Write, NewLine;
  }

  lemma MoreItems(fmt: nat -> bytes, vs: seq<Value>, indent: nat)
    requires |vs| > 1
    ensures
      WriteItems(fmt, vs, indent + 1) + Close(indent, 0x5d)
      == Write(fmt, vs[0], indent + 1, true) +
         ([0x2c] + (NewLine(indent + 1) + (WriteItems(fmt, vs[1..], indent + 1) + Close(indent, 0x5d))))
  {
    hide Write, NewLine, Close;
  }

  lemma ConsStyledItem(before: bytes, d: Doc, after: bytes, rest: seq<Item>) returns (items: seq<Item>)
    requires Blanks(before) && Blanks(after) && Ok(d) && Standard(d)
    requires rest != [] ==> ItemsOk(rest) && StandardItems(rest)
    ensures items != [] && ItemsOk(items) && StandardItems(items)
    ensures
      ItemsText(items) == before + (Text(d) + (after + if rest == [] then [0x5d] else [0x2c] + ItemsText(rest)))
  {
    hide Text, Ok, Standard, HasComment, GapOk, GapText;
    BlankPiecesText(before);
    BlankPiecesText(after);
    items := [Item(BlankPieces(before), d, BlankPieces(after))] + rest;
    assert items[1..] == rest;
  }

  predicate StandardEntries(ms: seq<Entry>) {
    forall k :: 0 <= k < |ms| ==> StandardEntry(ms[k]) && (ms[k].separator.None? <==> k == |ms| - 1)
  }

  lemma {:induction false} FindStyledMembers(
    fmt: nat -> bytes, vs: seq<Member>, indent: nat, before: bytes, previous: bytes)
    returns (ms: seq<Entry>)
    requires vs != [] && Blanks(before) && forall i :: 0 <= i < |vs| ==> PrintsReals(fmt, vs[i].value)
    ensures ms != [] && EntriesOk(previous, ms, []) && StandardEntries(ms)
    ensures EntriesText(ms, []) == before + (WriteMembers(fmt, vs, indent + 1) + Close(indent, 0x7d))
    decreases vs, 0
  {
    hide Write, Close, NewLine, Text, Ok, Standard, PrintsReals, Blanks, EntriesText, EntriesOk, StandardEntries;
    hide WriteMembers, Quote, Quoted, UnitsOk, StandardUnits;
    var blanks, d := FindStyled(fmt, vs[0].value, indent + 1, false);
    var name := FindQuoteUnits(vs[0].name);
    if |vs| == 1 {
      NewLineBlanks(indent);
      ms := ConsStyledEntry(before, name, blanks, d, NewLine(indent), [], previous);
      LastMember(fmt, vs, indent, before);
    } else {
      NewLineBlanks(indent + 1);
      var key := if Meaning(name).Some? then Meaning(name).value else [];
      var rest := FindStyledMembers(fmt, vs[1..], indent, NewLine(indent + 1), key);
      NoBlanks();
      ms := ConsStyledEntry(before, name, blanks, d, [], rest, previous);
      MoreMembers(fmt, vs, indent, before);
    }
  }

  /** The text of a member from its gap to what follows it. */
  function EntryLine(before: bytes, name: bytes, value: bytes, rest: bytes): (s: bytes) {
    before + (name + ([0x20] + ([0x3a] + ([0x20] + (value + rest)))))
  }

  lemma LastMember(fmt: nat -> bytes, vs: seq<Member>, indent: nat, before: bytes)
    requires |vs| == 1
    ensures
      EntryLine(before, Quote(vs[0].name), Write(fmt, vs[0].value, indent + 1, false), NewLine(indent) + [0x7d])
      == before + (WriteMembers(fmt, vs, indent + 1) + Close(indent, 0x7d))
  {
    hide Write, NewLine, Quote;
    assert COLON == [0x20] + ([0x3a] + [0x20]);
  }

  lemma MoreMembers(fmt: nat -> bytes, vs: seq<Member>, indent: nat, before: bytes)
    requires |vs| > 1
    ensures
      var rest := NewLine(indent + 1) + (WriteMembers(fmt, vs[1..], indent + 1) + Close(indent, 0x7d));
      EntryLine(before, Quote(vs[0].name), Write(fmt, vs[0].value, indent + 1, false), [0x2c] + rest)
      == before + (WriteMembers(fmt, vs, indent + 1) + Close(indent, 0x7d))
  {
    hide Write, NewLine, Quote, Close, EntryLine, WriteMembers;
    var name, value := Quote(vs[0].name), Write(fmt, vs[0].value, indent + 1, false);
    var more, close := WriteMembers(fmt, vs[1..], indent + 1), Close(indent, 0x7d);
    assert WriteMembers(fmt, vs, indent + 1) == name + (COLON + value) + ([0x2c] + NewLine(indent + 1) + more)
    by { FirstMember(fmt, vs, indent + 1); }
    Regroup(before, name, value, NewLine(indent + 1), more, close);
  }

  lemma FirstMember(fmt: nat -> bytes, vs: seq<Member>, indent: nat)
    requires |vs| > 1
    ensures
      WriteMembers(fmt, vs, indent) ==
      Quote(vs[0].name) + (COLON + Write(fmt, vs[0].value, indent, false)) +
      ([0x2c] + NewLine(indent) + WriteMembers(fmt, vs[1..], indent))
  {
    hide Write, NewLine, Quote;
  }

  lemma Regroup(before: bytes, name: bytes, value: bytes, line: bytes, more: bytes, close: bytes)
    ensures
      EntryLine(before, name, value, [0x2c] + (line + (more + close)))
      == before + (name + (COLON + value) + ([0x2c] + line + more) + close)
  {
    var rest := [0x2c] + (line + (more + close));
    assert rest == [0x2c] + line + more + close;
    assert [0x20] + ([0x3a] + ([0x20] + (value + rest))) == COLON + value + rest;
    assert name + (COLON + value + rest) == name + (COLON + value) + ([0x2c] + line + more) + close;
  }

  lemma ConsStyledEntry(
    before: bytes, name: seq<Unit>, blanks: bytes, d: Doc, after: bytes, rest: seq<Entry>, previous: bytes)
    returns (ms: seq<Entry>)
    requires Blanks(before) && Blanks(blanks) && Blanks(after) && UnitsOk(name) && StandardUnits(name)
    requires Ok(d) && Standard(d) && (rest != [] ==> StandardEntries(rest))
    requires rest != [] ==> EntriesOk(if Meaning(name).Some? then Meaning(name).value else [], rest, [])
    ensures ms != [] && EntriesOk(previous, ms, []) && StandardEntries(ms)
    ensures
      EntriesText(ms, []) == EntryLine(before, Quoted(name), blanks + Text(d),
                                       after + if rest == [] then [0x7d] else [0x2c] + EntriesText(rest, []))
  {
    hide Text, Ok, Standard, HasComment, GapOk, GapText, UnitsOk, StandardUnits, Quoted, Meaning, EntriesOk;
    hide StandardEntries, EntriesText, EntryLine, Blanks, BlankPieces, StandardEntry, EntryOk;
    OneBlank(blanks);
    BlankPiecesText(before);
    BlankPiecesText([0x20] + blanks);
    BlankPiecesText(after);
    var sep := if rest == [] then None else Some(Comma);
    var m := Entry(BlankPieces(before), name, [0x20], BlankPieces([0x20] + blanks), d, BlankPieces(after), sep);
    ms := [m] + rest;
    assert ms[0] == m && ms[1..] == rest;
    assert EntryOk(m) && StandardEntry(m) by { EntryIs(m); }
    FirstEntryOk(previous, ms);
    FirstEntryStandard(ms);
    FirstEntryText(ms, before, blanks, after);
  }

  lemma OneBlank(blanks: bytes)
    requires Blanks(blanks)
    ensures Blanks([0x20]) && Blanks([0x20] + blanks)
  {
  }

  lemma EntryIs(m: Entry)
    requires GapOk(m.before) && UnitsOk(m.name) && Blanks(m.afterName) && GapOk(m.beforeValue) && Ok(m.doc)
      && GapOk(m.after)
    requires !HasComment(m.before) && !HasComment(m.beforeValue) && !HasComment(m.after)
    requires StandardUnits(m.name) && Standard(m.doc) && (m.separator.Some? ==> m.separator.value == Comma)
    ensures EntryOk(m) && StandardEntry(m)
  {
    hide GapOk, UnitsOk, Blanks, Ok, HasComment, StandardUnits, Standard;
  }

  lemma FirstEntryOk(previous: bytes, ms: seq<Entry>)
    requires ms != [] && EntryOk(ms[0]) && (ms[0].separator.None? <==> |ms| == 1)
    requires
      |ms| > 1 ==> EntriesOk(if Meaning(ms[0].name).Some? then Meaning(ms[0].name).value else [], ms[1..], [])
    ensures EntriesOk(previous, ms, [])
  {
    hide EntryOk, Meaning;
  }

  lemma FirstEntryStandard(ms: seq<Entry>)
    requires ms != [] && StandardEntry(ms[0]) && (ms[0].separator.None? <==> |ms| == 1)
    requires |ms| > 1 ==> StandardEntries(ms[1..])
    ensures StandardEntries(ms)
  {
    hide StandardEntry;
    forall k | 0 < k < |ms| ensures StandardEntry(ms[k]) && (ms[k].separator.None? <==> k == |ms| - 1) {
      assert ms[1..][k - 1] == ms[k];
    }
  }

  lemma FirstEntryText(ms: seq<Entry>, before: bytes, blanks: bytes, after: bytes)
    requires ms != [] && (ms[0].separator == if |ms| == 1 then None else Some(Comma)) && ms[0].afterName == [0x20]
    requires GapText(ms[0].before) == before && GapText(ms[0].beforeValue) == [0x20] + blanks
      && GapText(ms[0].after) == after
    ensures
      EntriesText(ms, []) == EntryLine(before, Quoted(ms[0].name), blanks + Text(ms[0].doc),
                                       after + if |ms| == 1 then [0x7d] else [0x2c] + EntriesText(ms[1..], []))
  {
    hide GapText, Quoted, Text, EntriesText, EntryLine;
    Unfolded(ms);
    var rest := if |ms| == 1 then [0x7d] else [0x2c] + EntriesText(ms[1..], []);
    LineIs(before, Quoted(ms[0].name), blanks, Text(ms[0].doc), after, rest);
  }

  lemma Unfolded(ms: seq<Entry>)
    requires ms != [] && (ms[0].separator == if |ms| == 1 then None else Some(Comma))
    ensures
      var m := ms[0];
      var rest := if |ms| == 1 then [0x7d] else [0x2c] + EntriesText(ms[1..], []);
      EntriesText(ms, []) ==
      GapText(m.before) + (Quoted(m.name) + (m.afterName +
      ([0x3a] + (GapText(m.beforeValue) + (Text(m.doc) + (GapText(m.after) + rest))))))
  {
    hide GapText, Quoted, Text, EntriesText, FromColon, BehindValue;
    TextOfEntries(ms, []);
    FromColonOf(ms);
    BehindValueOf(ms);
  }

  lemma FromColonOf(ms: seq<Entry>)
    requires ms != []
    ensures
      FromColon(ms, [])
      == [0x3a] + (GapText(ms[0].beforeValue) + (Text(ms[0].doc) + (GapText(ms[0].after) + BehindValue(ms, []))))
  {
    hide GapText, Text, EntriesText, BehindValue;
  }

  lemma BehindValueOf(ms: seq<Entry>)
    requires ms != [] && (ms[0].separator == if |ms| == 1 then None else Some(Comma))
    ensures BehindValue(ms, []) == if |ms| == 1 then [0x7d] else [0x2c] + EntriesText(ms[1..], [])
  {
    hide EntriesText;
  }

  lemma LineIs(before: bytes, name: bytes, blanks: bytes, text: bytes, after: bytes, rest: bytes)
    ensures
      before + (name + ([0x20] + ([0x3a] + (([0x20] + blanks) + (text + (after + rest))))))
      == EntryLine(before, name, blanks + text, after + rest)
  {
    assert ([0x20] + blanks) + (text + (after + rest)) == [0x20] + ((blanks + text) + (after + rest));
  }

  /** toStyledString writes a document of RFC 8259 and a line end. */
  lemma StyledIsStandard(fmt: nat -> bytes, v: Value) returns (d: Doc)
    requires PrintsReals(fmt, v)
    ensures Ok(d) && Standard(d) && ToStyledString(fmt, v) == Text(d) + [0x0a]
  {
    hide Write, Text, Ok, Standard, Blanks;
    var blanks: bytes;
    blanks, d := FindStyled(fmt, v, 0, true);
    assert blanks + Text(d) == Text(d);
  }

  /** That document stands for the tree that was written, strings re-encoded and integers tagged by the reader. */
  lemma StyledStandsFor(toDouble: bytes -> Option<nat>, fmt: nat -> bytes, v: Value) returns (d: Doc)
    requires PrintsReals(fmt, v) && Writable(toDouble, fmt, v) && Depth(v) <= 1000
    ensures Ok(d) && Standard(d) && ToStyledString(fmt, v) == Text(d) + [0x0a] && Tree(toDouble, d) == Some(Back(v))
  {
    hide ToStyledString, Text, Ok, Standard, Parse, Tree, Levels, Writable, PrintsReals, Back, Depth;
    d := StyledIsStandard(fmt, v);
    var end: Gap := [Blank(0x0a)];
    LineEnd(end);
    assert GapOk([]) && GapText([]) == [] by { NoGap(); }
    assert ToStyledString(fmt, v) == GapText([]) + Text(d) + GapText(end);
    AcceptsDocumentIff(toDouble, [], d, end, Null);
    ParseOfStyled(toDouble, fmt, v, Null);
  }

  lemma LineEnd(g: Gap)
    requires g == [Blank(0x0a)]
    ensures GapOk(g) && GapText(g) == [0x0a]
  {
    assert g[1..] == [];
    assert GapText(g) == [0x0a] + [];
  }

  /** The layout: one item a line, a tab for each level, an opening bracket behind a name on a line of its own. */
  lemma StyledLayout(fmt: nat -> bytes)
    ensures
      ToStyledString(fmt, Obj([Member([0x61], Arr([Int(1), Bool(false)])), Member([0x62], Obj([]))])) ==
      [0x7b, 0x0a, 0x09] + (
      [0x22, 0x61, 0x22, 0x20, 0x3a, 0x20] +
      [0x0a, 0x09, 0x5b, 0x0a,
       0x09, 0x09, 0x31, 0x2c, 0x0a,
       0x09, 0x09, 0x66, 0x61, 0x6c, 0x73, 0x65, 0x0a,
       0x09, 0x5d] +
      [0x2c, 0x0a, 0x09, 0x22, 0x62, 0x22, 0x20, 0x3a, 0x20, 0x7b, 0x7d]) +
      [0x0a, 0x7d, 0x0a]
  {
    hide Write, WriteMembers, NewLine, Quote, Close, Open;
    var arr := Arr([Int(1), Bool(false)]);
    var ms := [Member([0x61], arr), Member([0x62], Obj([]))];
    LayoutArray(fmt, arr);
    LayoutMembers(fmt, ms, arr);
    LayoutOpen(fmt, ms);
  }

  lemma LayoutItems(fmt: nat -> bytes, items: seq<Value>)
    requires items == [Int(1), Bool(false)]
    ensures
      WriteItems(fmt, items, 2) ==
      [0x31, 0x2c, 0x0a, 0x09, 0x09, 0x66, 0x61, 0x6c, 0x73, 0x65]
  {
    assert items[1..] == [Bool(false)];
    assert Tabs(1) == [0x09];
    assert Tabs(2) == [0x09, 0x09];
    assert Write(fmt, items[0], 2, true) == [0x31];
    assert Write(fmt, items[1], 2, true) == FALSE_TEXT;
    assert WriteItems(fmt, items[1..], 2) == FALSE_TEXT;
    assert Separation(2) == [0x2c, 0x0a, 0x09, 0x09];
  }

  lemma Breaks()
    ensures NewLine(0) == [0x0a] && NewLine(1) == [0x0a, 0x09] && NewLine(2) == [0x0a, 0x09, 0x09]
  {
    assert Tabs(0) == [];
    assert Tabs(1) == [0x09];
    assert Tabs(2) == [0x09, 0x09];
  }

  lemma LayoutArray(fmt: nat -> bytes, arr: Value)
    requires arr == Arr([Int(1), Bool(false)])
    ensures
      Write(fmt, arr, 1, false) ==
      [0x0a, 0x09, 0x5b, 0x0a,
       0x09, 0x09, 0x31, 0x2c, 0x0a,
       0x09, 0x09, 0x66, 0x61, 0x6c, 0x73, 0x65, 0x0a,
       0x09, 0x5d]
  {
    hide WriteItems, NewLine, Tabs;
    LayoutItems(fmt, arr.items);
    Breaks();
    ArrayIs(fmt, arr.items, 1, false);
    hide Write;
    assert [0x0a, 0x09] + [0x5b] == [0x0a, 0x09, 0x5b] && [0x0a, 0x09] + [0x5d] == [0x0a, 0x09, 0x5d];
  }

  lemma ArrayIs(fmt: nat -> bytes, items: seq<Value>, indent: nat, indented: bool)
    requires items != []
    ensures
      Write(fmt, Arr(items), indent, indented) ==
      (if indented then [] else NewLine(indent)) + [0x5b] + NewLine(indent + 1) +
      (WriteItems(fmt, items, indent + 1) + (NewLine(indent) + [0x5d]))
  {
    hide WriteItems, NewLine;
  }

  lemma LayoutMembers(fmt: nat -> bytes, ms: seq<Member>, arr: Value)
    requires ms == [Member([0x61], arr), Member([0x62], Obj([]))]
    ensures
      WriteMembers(fmt, ms, 1) ==
      [0x22, 0x61, 0x22, 0x20, 0x3a, 0x20] + Write(fmt, arr, 1, false) +
      [0x2c, 0x0a, 0x09, 0x22, 0x62, 0x22, 0x20, 0x3a, 0x20, 0x7b, 0x7d]
  {
    hide WriteMembers, Write, NewLine, Quote;
    Breaks();
    Names();
    FirstMember(fmt, ms, 1);
    assert ms[1..] == [Member([0x62], Obj([]))];
    LastEmpty(fmt, ms[1..]);
    var a: bytes := [0x22, 0x61, 0x22];
    assert a + (COLON + Write(fmt, arr, 1, false)) == [0x22, 0x61, 0x22, 0x20, 0x3a, 0x20] + Write(fmt, arr, 1, false);
  }

  lemma Names()
    ensures Quote([0x61]) == [0x22, 0x61, 0x22] && Quote([0x62]) == [0x22, 0x62, 0x22]
  {
  }

  lemma LastEmpty(fmt: nat -> bytes, ms: seq<Member>)
    requires ms == [Member([0x62], Obj([]))]
    ensures WriteMembers(fmt, ms, 1) == [0x22, 0x62, 0x22, 0x20, 0x3a, 0x20, 0x7b, 0x7d]
  {
    hide Quote, NewLine;
    Names();
    assert Write(fmt, ms[0].value, 1, false) == [0x7b, 0x7d];
  }

  lemma LayoutOpen(fmt: nat -> bytes, ms: seq<Member>)
    requires ms != []
    ensures ToStyledString(fmt, Obj(ms)) == [0x7b, 0x0a, 0x09] + WriteMembers(fmt, ms, 1) + [0x0a, 0x7d, 0x0a]
  {
    hide WriteMembers;
    assert Tabs(1) == [0x09];
    assert Tabs(0) == [];
  }
}
