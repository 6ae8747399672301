/**
 Reading any document of the grammar (newJson/jsoncpp.cpp, Reader::readValue, readArray, readObject): it is read exactly
 when it is at most 1000 levels deep and every part of it has a value, and then gives its tree.
 */
module JsonAcceptance {
  import opened Bytes
  import opened JsonValue
  import opened JsonNumber
  import opened JsonText
  import opened JsonReader
  import opened JsonGrammar
  import opened JsonNumberScan
  import opened JsonStringScan
  import opened JsonGapScan
  import opened JsonTokenScan

  /** Success with this value and this cursor, or, without a value or with too many levels, no success. */
  predicate Reads(r: Result, levels: nat, v: Option<Value>, pos: nat) {
    if levels <= STACK_LIMIT && v.Some? then r == Done(true, v.value, pos, 0) else !(r.Done? && r.ok)
  }

  /** A number ends where it stands; every other document has an end of its own. */
  predicate Ends(d: Doc, rest: bytes) {
    d.DNumber? ==> NumeralEnds(d.n, rest)
  }

  /** What follows a value inside a document never makes a number go on. */
  predicate Closing(c: byte) { BlankByte(c) || c == 0x2f || c == 0x2c || c == 0x5d || c == 0x7d }

  lemma ClosingEnds(d: Doc, doc: bytes, end: nat)
    requires end < |doc| && Closing(doc[end])
    ensures Ends(d, doc[end..])
  {
    assert doc[end..][0] == doc[end];
  }

  // ---- scalars -------------------------------------------------------------------------------

  lemma ReadsString(src: Source, us: seq<Unit>, current: Value, nodes: nat, pos: nat)
    requires nodes <= STACK_LIMIT && At(src.doc, pos, Quoted(us)) && UnitsOk(us)
    ensures
      Reads(ReadValue(src, current, nodes, pos), nodes,
            if Meaning(us).Some? then Some(Str(Meaning(us).value)) else None, pos + |Quoted(us)|)
  {
    hide At, ReadToken, NextToken, Quoted, Meaning, Decode, UnitsOk;
    QuotedToken(src.doc, pos, us);
  }

  lemma ReadsNumeral(src: Source, n: Numeral, current: Value, nodes: nat, pos: nat)
    requires nodes <= STACK_LIMIT && NumeralOk(n)
    requires At(src.doc, pos, NumeralText(n)) && NumeralEnds(n, src.doc[pos + |NumeralText(n)|..])
    ensures
      Reads(ReadValue(src, current, nodes, pos), nodes, NumeralTree(src.toDouble, n), pos + |NumeralText(n)|)
  {
    hide ReadToken, NextToken, NumeralText, NumeralOk, NumeralEnds, NumberValue, NumeralTree;
    var t := Token(Number, pos, pos + |NumeralText(n)|);
    NumeralToken(src.doc, pos, n);
    NumeralValue(src, current, t, n);
  }

  lemma ReadsLiteral(src: Source, d: Doc, current: Value, nodes: nat, pos: nat)
    requires nodes <= STACK_LIMIT && (d.DNull? || d.DBool?) && At(src.doc, pos, Text(d))
    ensures Reads(ReadValue(src, current, nodes, pos), nodes, Tree(src.toDouble, d), pos + |Text(d)|)
  {
    hide At, NextToken, ReadToken;
    LiteralIsToken(src.doc, pos, if d.DNull? then NullToken else if d.b then True else False);
  }

  // ---- behind gaps -----------------------------------------------------------------------------

  lemma ValueBehind(src: Source, current: Value, nodes: nat, a: nat, b: nat)
    requires a <= |src.doc| && b <= |src.doc| && NextToken(src.doc, a) == NextToken(src.doc, b)
    ensures ReadValue(src, current, nodes, a) == ReadValue(src, current, nodes, b)
  {
    hide NextToken, ValueOf;
  }

  lemma ItemsBehind(src: Source, done: seq<Value>, nodes: nat, a: nat, b: nat)
    requires a <= |src.doc| && b <= |src.doc| && NextToken(src.doc, a) == NextToken(src.doc, b)
    ensures ReadItems(src, done, nodes, a) == ReadItems(src, done, nodes, b)
  {
    ValueBehind(src, Null, nodes + 1, a, b);
    hide NextToken, ReadValue;
  }

  // ---- documents -----------------------------------------------------------------------------

  /** Wherever a document stands, readValue takes exactly its text, or does not succeed. */
  lemma {:induction false} ReadsDoc(src: Source, d: Doc, current: Value, nodes: nat, pos: nat)
    requires Ok(d) && nodes >= 1 && At(src.doc, pos, Text(d)) && Ends(d, src.doc[pos + |Text(d)|..])
    ensures Reads(ReadValue(src, current, nodes, pos), nodes + Levels(d) - 1, Tree(src.toDouble, d), pos + |Text(d)|)
    decreases d, 3
  {
    hide At, ReadItems, ReadMembers, NextToken, NumberValue, NumeralTree, ItemsText, EntriesText, ItemTrees, EntryTrees;
    hide ItemLevels, EntryLevels, Meaning, Quoted, NumeralText, NumeralOk, NumeralEnds, UnitsOk, ItemsOk, EntriesOk;
    if nodes <= STACK_LIMIT {
      match d
      case DArray(blanks, items) => ReadsArray(src, blanks, items, current, nodes, pos);
      case DObject(ms, tail) => ReadsObject(src, ms, tail, current, nodes, pos);
      case DString(us) => ReadsString(src, us, current, nodes, pos);
      case DNumber(n) => ReadsNumeral(src, n, current, nodes, pos);
      case _ => ReadsLiteral(src, d, current, nodes, pos);
    }
  }

  /** The text of a document begins with a character that is no blank, no slash and no closing bracket. */
  lemma FirstOfDoc(d: Doc)
    requires Ok(d)
    ensures |Text(d)| > 0 && !BlankByte(Text(d)[0]) && Text(d)[0] != 0x5d && Text(d)[0] != 0x2f
  {
    hide ItemsText, EntriesText, ItemsOk, EntriesOk, UnitsOk;
    if d.DNumber? && !d.n.minus {
      assert Text(d)[0] == d.n.whole[0];
      assert DigitByte(d.n.whole[0]);
    }
  }

  // ---- arrays --------------------------------------------------------------------------------

  lemma {:induction false} ReadsArray(
    src: Source, blanks: bytes, items: seq<Item>, current: Value, nodes: nat, pos: nat)
    requires Blanks(blanks) && ItemsOk(items) && 1 <= nodes <= STACK_LIMIT
      && At(src.doc, pos, Text(DArray(blanks, items)))
    ensures
      var d := DArray(blanks, items);
      Reads(ReadValue(src, current, nodes, pos), nodes + Levels(d) - 1, Tree(src.toDouble, d), pos + |Text(d)|)
    decreases items, 2
  {
    hide At, ReadValue, ReadItems, ReadToken, NextToken, ItemsText, ItemTrees, ItemLevels, Blanks, ItemsOk, SkipSpaces;
    var doc, p := src.doc, pos + 1;
    var body := if items == [] then blanks + [0x5d] else ItemsText(items);
    AtSplit(doc, pos, [0x5b], body);
    AtIndex(doc, pos, [0x5b], 0);
    PunctuationToken(doc, pos, 0x5b, ArrayBegin);
    if items == [] {
      AtSplit(doc, p, blanks, [0x5d]);
      AtIndex(doc, p + |blanks|, [0x5d], 0);
      BlanksRun(doc, p, blanks);
      RunSkipped(doc, p, p + |blanks|);
      EmptyArray(src, current, nodes, pos, p + |blanks|);
      NoItems(src.toDouble, items);
    } else {
      ReadsArrayItems(src, items, [], nodes, p);
      ArrayBegins(src, items, current, nodes, pos);
      NothingBefore(src.toDouble, items);
    }
  }

  lemma NoItems(toDouble: bytes -> Option<nat>, items: seq<Item>)
    requires items == []
    ensures ItemTrees(toDouble, items) == Some([]) && ItemLevels(items) == 0
  {
  }

  lemma NothingBefore(toDouble: bytes -> Option<nat>, items: seq<Item>)
    ensures var t := ItemTrees(toDouble, items); t.Some? ==> [] + t.value == t.value
  {
  }

  lemma EmptyArray(src: Source, current: Value, nodes: nat, pos: nat, p: nat)
    requires nodes <= STACK_LIMIT && pos < |src.doc| && NextToken(src.doc, pos) == Token(ArrayBegin, pos, pos + 1)
    requires pos + 1 <= p < |src.doc| && SkipSpaces(src.doc, pos + 1) == SkipSpaces(src.doc, p) && src.doc[p] == 0x5d
    ensures ReadValue(src, current, nodes, pos) == Done(true, Arr([]), p + 1, 0)
  {
    hide NextToken, ReadItems;
    assert SkipSpaces(src.doc, p) == p;
    PunctuationToken(src.doc, p, 0x5d, ArrayEnd);
  }

  lemma ItemsStart(doc: bytes, pos: nat, items: seq<Item>)
    requires items != [] && ItemsOk(items) && At(doc, pos, ItemsText(items))
    ensures var p := SkipSpaces(doc, pos); p < |doc| && doc[p] != 0x5d && BlankRun(doc, pos, p)
  {
    hide Text, GapText, At;
    var i := items[0];
    var rest := Text(i.doc) + (GapText(i.after) + if |items| == 1 then [0x5d] else [0x2c] + ItemsText(items[1..]));
    AtSplit(doc, pos, GapText(i.before), rest);
    FirstOfDoc(i.doc);
    StartOfGap(doc, pos, i.before, rest);
  }

  /** Behind the blanks a gap begins with comes a slash, or what is behind the gap. */
  lemma {:induction false} StartOfGap(doc: bytes, pos: nat, g: Gap, rest: bytes)
    requires At(doc, pos, GapText(g)) && GapOk(g) && At(doc, pos + |GapText(g)|, rest)
    requires rest != [] && !BlankByte(rest[0]) && rest[0] != 0x5d
    ensures var p := SkipSpaces(doc, pos); p < |doc| && doc[p] != 0x5d && BlankRun(doc, pos, p)
    decreases |g|
  {
    hide At, SkipSpaces, PieceText, BlankRun;
    if g == [] {
      AtIndex(doc, pos, rest, 0);
      SkipsNothing(doc, pos);
    } else {
      AtSplit(doc, pos, PieceText(g[0]), GapText(g[1..]));
      PieceStarts(doc, pos, g[0]);
      if g[0].Blank? {
        StartOfGap(doc, pos + 1, g[1..], rest);
        SkipsOne(doc, pos);
      } else {
        SkipsNothing(doc, pos);
      }
    }
  }

  lemma PieceStarts(doc: bytes, pos: nat, p: Piece)
    requires At(doc, pos, PieceText(p)) && PieceOk(p)
    ensures pos < |doc| && if p.Blank? then |PieceText(p)| == 1 && BlankByte(doc[pos]) else doc[pos] == 0x2f
  {
    AtIndex(doc, pos, PieceText(p), 0);
  }

  lemma SkipsNothing(doc: bytes, pos: nat)
    requires pos < |doc| && !BlankByte(doc[pos])
    ensures SkipSpaces(doc, pos) == pos && BlankRun(doc, pos, pos)
  {
  }

  lemma SkipsOne(doc: bytes, pos: nat)
    requires pos < |doc| && BlankByte(doc[pos])
    ensures SkipSpaces(doc, pos) == SkipSpaces(doc, pos + 1)
    ensures forall p: nat :: BlankRun(doc, pos + 1, p) ==> BlankRun(doc, pos, p)
  {
  }

  /** readArray skips the blanks before the first item, which is no closing bracket. */
  lemma ArrayBegins(src: Source, items: seq<Item>, current: Value, nodes: nat, pos: nat)
    requires items != [] && ItemsOk(items) && nodes <= STACK_LIMIT
    requires pos < |src.doc| && NextToken(src.doc, pos) == Token(ArrayBegin, pos, pos + 1)
    requires At(src.doc, pos + 1, ItemsText(items))
    ensures ReadValue(src, current, nodes, pos) == ReadItems(src, [], nodes, pos + 1)
  {
    hide At, ReadItems, NextToken, ItemsOk, ItemsText, SkipSpaces, ReadToken;
    ItemsStart(src.doc, pos + 1, items);
    var p := SkipSpaces(src.doc, pos + 1);
    RunSkipped(src.doc, pos + 1, p);
    ItemsBehind(src, [], nodes, pos + 1, p);
  }

  lemma ItemFails(src: Source, done: seq<Value>, nodes: nat, pos: nat)
    requires pos <= |src.doc|
    requires var e := ReadValue(src, Null, nodes + 1, pos); !(e.Done? && e.ok)
    ensures var r := ReadItems(src, done, nodes, pos); !(r.Done? && r.ok)
  {
    hide ReadValue, NextToken;
  }

  lemma ItemStep(src: Source, done: seq<Value>, nodes: nat, pos: nat, t: Token)
    requires pos <= |src.doc|
    requires var e := ReadValue(src, Null, nodes + 1, pos); e.Done? && e.ok && t == NextToken(src.doc, e.pos)
    requires t.kind == ArrayEnd || t.kind == Separator
    ensures
      var more := done + [ReadValue(src, Null, nodes + 1, pos).value];
      ReadItems(src, done, nodes, pos) ==
      if t.kind == ArrayEnd then Done(true, Arr(more), t.end, 0) else ReadItems(src, more, nodes, t.end)
  {
    hide ReadValue, NextToken;
  }

  lemma ConsTrees(toDouble: bytes -> Option<nat>, items: seq<Item>)
    requires items != [] && ItemsOk(items)
    ensures GapOk(items[0].before) && GapOk(items[0].after) && Ok(items[0].doc) && ItemsOk(items[1..])
    ensures ItemLevels(items) == Max(Levels(items[0].doc), ItemLevels(items[1..]))
    ensures
      var v, rest := Tree(toDouble, items[0].doc), ItemTrees(toDouble, items[1..]);
      ItemTrees(toDouble, items) == if v.Some? && rest.Some? then Some([v.value] + rest.value) else None
    ensures |items| == 1 ==> ItemTrees(toDouble, items[1..]) == Some([]) && ItemLevels(items[1..]) == 0
  {
    hide Tree, Levels, GapOk, Ok;
    assert forall k :: 0 <= k < |items| - 1 ==> items[1..][k] == items[k + 1];
  }

  /** The first item with its gaps, and the token behind it. */
  lemma ItemPlaces(doc: bytes, pos: nat, items: seq<Item>)
    requires items != [] && ItemsOk(items) && At(doc, pos, ItemsText(items))
    ensures
      var i, p := items[0], pos + |GapText(items[0].before)|;
      var q := p + |Text(i.doc)|;
      var e := q + |GapText(i.after)|;
      && p <= q <= e < |doc| && NextToken(doc, pos) == NextToken(doc, p) && At(doc, p, Text(i.doc)) && Closing(doc[q])
      && NextToken(doc, q) == Token(if |items| == 1 then ArrayEnd else Separator, e, e + 1)
      && (|items| == 1 ==> pos + |ItemsText(items)| == e + 1)
      && (|items| > 1 ==> At(doc, e + 1, ItemsText(items[1..])))
      && (|items| > 1 ==> pos + |ItemsText(items)| == e + 1 + |ItemsText(items[1..])|)
  {
    hide At, NextToken, ReadToken, Text, GapText, GapOk, Ok;
    var i, p := items[0], pos + |GapText(items[0].before)|;
    var q := p + |Text(i.doc)|;
    var e := q + |GapText(i.after)|;
    var rest := if |items| == 1 then [0x5d] else [0x2c] + ItemsText(items[1..]);
    AtSplit(doc, pos, GapText(i.before), Text(i.doc) + (GapText(i.after) + rest));
    AtSplit(doc, p, Text(i.doc), GapText(i.after) + rest);
    AtSplit(doc, q, GapText(i.after), rest);
    AtIndex(doc, e, rest, 0);
    GapSkipped(doc, pos, i.before);
    GapSkipped(doc, q, i.after);
    ClosingBehind(doc, q, i.after);
    if |items| == 1 {
      PunctuationToken(doc, e, 0x5d, ArrayEnd);
    } else {
      PunctuationToken(doc, e, 0x2c, Separator);
      AtSplit(doc, e, [0x2c], ItemsText(items[1..]));
    }
  }

  lemma ClosingBehind(doc: bytes, q: nat, g: Gap)
    requires At(doc, q, GapText(g)) && GapOk(g)
    requires var e := q + |GapText(g)|; e < |doc| && Closing(doc[e])
    ensures Closing(doc[q])
  {
    if g != [] {
      GapStarts(g);
      AtIndex(doc, q, GapText(g), 0);
    }
  }

  /** The loop of readArray over the items of a document. */
  lemma {:induction false} ReadsArrayItems(src: Source, items: seq<Item>, done: seq<Value>, nodes: nat, pos: nat)
    requires items != [] && ItemsOk(items) && 1 <= nodes <= STACK_LIMIT && At(src.doc, pos, ItemsText(items))
    ensures
      var t := ItemTrees(src.toDouble, items);
      Reads(ReadItems(src, done, nodes, pos), nodes + ItemLevels(items),
            if t.Some? then Some(Arr(done + t.value)) else None, pos + |ItemsText(items)|)
    decreases items, 1
  {
    hide At, ReadValue, ReadItems, NextToken, Text, ItemsText, ItemTrees, ItemLevels, Tree, Levels, GapText, GapOk;
    hide Ok, ItemsOk, Ends;
    var i := items[0];
    var p := pos + |GapText(i.before)|;
    var q := p + |Text(i.doc)|;
    var e := q + |GapText(i.after)|;
    ConsTrees(src.toDouble, items);
    ItemPlaces(src.doc, pos, items);
    ClosingEnds(i.doc, src.doc, q);
    ReadsDoc(src, i.doc, Null, nodes + 1, p);
    ValueBehind(src, Null, nodes + 1, pos, p);
    var v := Tree(src.toDouble, i.doc);
    if nodes + Levels(i.doc) > STACK_LIMIT || v.None? {
      ItemFails(src, done, nodes, pos);
    } else {
      ItemStep(src, done, nodes, pos, Token(if |items| == 1 then ArrayEnd else Separator, e, e + 1));
      if |items| > 1 { ReadsArrayItems(src, items[1..], done + [v.value], nodes, e + 1); }
      ItemsJoin(src.toDouble, done, v.value, items[1..]);
    }
  }

  lemma ItemsJoin(toDouble: bytes -> Option<nat>, done: seq<Value>, v: Value, items: seq<Item>)
    ensures
      var t := ItemTrees(toDouble, items);
      t.Some? ==> done + [v] + t.value == done + ([v] + t.value) && (t.value == [] ==> [v] + t.value == [v])
  {
  }

  // ---- objects -------------------------------------------------------------------------------

  lemma {:induction false} ReadsObject(src: Source, ms: seq<Entry>, tail: Gap, current: Value, nodes: nat, pos: nat)
    requires EntriesOk([], ms, tail) && 1 <= nodes <= STACK_LIMIT && At(src.doc, pos, Text(DObject(ms, tail)))
    ensures
      var d := DObject(ms, tail);
      Reads(ReadValue(src, current, nodes, pos), nodes + Levels(d) - 1, Tree(src.toDouble, d), pos + |Text(d)|)
    decreases ms, 5
  {
    hide At, ReadMembers, ReadToken, NextToken, EntriesText, EntryTrees, EntryLevels, EntriesOk;
    AtSplit(src.doc, pos, [0x7b], EntriesText(ms, tail));
    AtIndex(src.doc, pos, [0x7b], 0);
    PunctuationToken(src.doc, pos, 0x7b, ObjectBegin);
    ReadsEntries(src, ms, tail, [], [], nodes, pos + 1);
  }

  lemma ObjectEnds(src: Source, done: seq<Member>, tail: Gap, nodes: nat, pos: nat)
    requires GapOk(tail) && At(src.doc, pos, GapText(tail) + [0x7d])
    ensures ReadMembers(src, done, [], nodes, pos) == Done(true, Obj(done), pos + |GapText(tail)| + 1, 0)
  {
    hide At, ReadToken, NextToken, GapText, GapOk, MemberTail;
    AtSplit(src.doc, pos, GapText(tail), [0x7d]);
    AtIndex(src.doc, pos + |GapText(tail)|, [0x7d], 0);
    GapSkipped(src.doc, pos, tail);
    PunctuationToken(src.doc, pos + |GapText(tail)|, 0x7d, ObjectEnd);
  }

  lemma NoneLeft(toDouble: bytes -> Option<nat>, ms: seq<Entry>, tail: Gap, done: seq<Member>, name: bytes)
    requires ms == [] && EntriesOk(name, ms, tail)
    ensures name == [] && GapOk(tail) && EntriesText(ms, tail) == GapText(tail) + [0x7d]
    ensures EntryTrees(toDouble, done, ms) == Some(done) && EntryLevels(ms) == 0
  {
    hide GapOk, GapText;
  }

  lemma EntryParts(name: bytes, ms: seq<Entry>, tail: Gap)
    requires EntriesOk(name, ms, tail) && ms != []
    ensures
      var m := ms[0];
      && GapOk(m.before) && UnitsOk(m.name) && Blanks(m.afterName) && GapOk(m.beforeValue) && Ok(m.doc)
        && GapOk(m.after)
      && (m.separator.Some? ==>
            && SeparatorOk(m.separator.value) && EntriesOk(NameOf(m), ms[1..], tail)
            && (m.separator.value.Taken? ==> HasComment(m.after)))
      && (m.separator.None? ==> |ms| == 1)
  {
    hide Ok, GapOk, UnitsOk, Blanks, HasComment;
    assert EntryOk(ms[0]);
  }

  lemma ConsEntries(toDouble: bytes -> Option<nat>, done: seq<Member>, ms: seq<Entry>)
    requires ms != []
    ensures EntryLevels(ms) == Max(Levels(ms[0].doc), EntryLevels(ms[1..]))
    ensures
      var key, v := Meaning(ms[0].name), Tree(toDouble, ms[0].doc);
      EntryTrees(toDouble, done, ms) ==
      if key.Some? && v.Some? then EntryTrees(toDouble, Put(done, key.value, v.value), ms[1..]) else None
    ensures |ms| == 1 ==> EntryLevels(ms[1..]) == 0
    ensures |ms| == 1 ==> forall d: seq<Member> :: EntryTrees(toDouble, d, ms[1..]) == Some(d)
  {
    hide Tree, Levels, Meaning, Put;
  }

  /** A member fails with its name or with its value. */
  lemma EntryFails(
    src: Source, done: seq<Member>, previous: bytes, nodes: nat, pos: nat, nameToken: Token, colon: Token)
    requires pos <= |src.doc| && NextToken(src.doc, pos) == nameToken && nameToken.kind == String
    requires ReadToken(src.doc, nameToken.end) == colon && colon.kind == MemberSeparator
    requires
      var name := Decode(src.doc, nameToken.start + 1, nameToken.end - 1);
      name.Some? ==>
        var e := ReadValue(src, Lookup(done, name.value), nodes + 1, colon.end);
        !(e.Done? && e.ok)
    ensures var r := ReadMembers(src, done, previous, nodes, pos); !(r.Done? && r.ok)
  {
    hide NextToken, ReadToken, ReadValue, Decode, Put, Lookup;
    var name := Decode(src.doc, nameToken.start + 1, nameToken.end - 1);
    if name.Some? {
      assert ReadMembers(src, done, previous, nodes, pos) == MemberTail(src, done, name.value, nodes, colon.end);
    }
  }

  /** A member that is read: what the first token behind its value, and the first one behind comments, decide. */
  lemma EntryStep(
    src: Source, done: seq<Member>, previous: bytes, nodes: nat, pos: nat, nameToken: Token, key: bytes, colon: Token,
    t: Token, comma: Token)
    requires pos <= |src.doc| && NextToken(src.doc, pos) == nameToken && nameToken.kind == String
    requires Decode(src.doc, nameToken.start + 1, nameToken.end - 1) == Some(key)
    requires ReadToken(src.doc, nameToken.end) == colon && colon.kind == MemberSeparator
    requires
      var e := ReadValue(src, Lookup(done, key), nodes + 1, colon.end);
      e.Done? && e.ok && t == ReadToken(src.doc, e.pos)
    requires t.kind == ObjectEnd || t.kind == Separator || t.kind == Comment
    requires comma == if t.kind == Comment then NextToken(src.doc, t.end) else t
    ensures
      var more := Put(done, key, ReadValue(src, Lookup(done, key), nodes + 1, colon.end).value);
      ReadMembers(src, done, previous, nodes, pos) ==
      if comma.kind == ObjectEnd then Done(true, Obj(more), comma.end, 0)
        else ReadMembers(src, more, key, nodes, comma.end)
  {
    hide NextToken, ReadToken, ReadValue, Decode, Put, Lookup;
    assert ReadMembers(src, done, previous, nodes, pos) == MemberTail(src, done, key, nodes, colon.end);
  }

  /** Where the name and the colon of the first member stand. */
  lemma NamePlaces(doc: bytes, pos: nat, ms: seq<Entry>, tail: Gap)
    requires ms != [] && At(doc, pos, EntriesText(ms, tail))
    ensures
      var m, p0 := ms[0], pos + |GapText(ms[0].before)|;
      var p1 := p0 + |Quoted(m.name)|;
      var p2 := p1 + |m.afterName|;
      && At(doc, pos, GapText(m.before)) && At(doc, p0, Quoted(m.name)) && At(doc, p1, m.afterName)
      && At(doc, p2, FromColon(ms, tail)) && p2 < |doc| && doc[p2] == 0x3a
      && pos + |EntriesText(ms, tail)| == p2 + |FromColon(ms, tail)|
  {
    hide At, Quoted, FromColon, GapText;
    var m, p0 := ms[0], pos + |GapText(ms[0].before)|;
    var p1 := p0 + |Quoted(m.name)|;
    AtSplit(doc, pos, GapText(m.before), Quoted(m.name) + (m.afterName + FromColon(ms, tail)));
    AtSplit(doc, p0, Quoted(m.name), m.afterName + FromColon(ms, tail));
    AtSplit(doc, p1, m.afterName, FromColon(ms, tail));
    ColonIs(ms, tail);
    AtIndex(doc, p1 + |m.afterName|, FromColon(ms, tail), 0);
  }

  /** The name and the colon of the first member. */
  lemma EntryName(doc: bytes, pos: nat, name: bytes, ms: seq<Entry>, tail: Gap)
    requires EntriesOk(name, ms, tail) && ms != [] && At(doc, pos, EntriesText(ms, tail))
    ensures
      var m, p0 := ms[0], pos + |GapText(ms[0].before)|;
      var p1 := p0 + |Quoted(m.name)|;
      var p2 := p1 + |m.afterName|;
      && p2 < |doc| && NextToken(doc, pos) == Token(String, p0, p1) && Decode(doc, p0 + 1, p1 - 1) == Meaning(m.name)
      && ReadToken(doc, p1) == Token(MemberSeparator, p2, p2 + 1)
      && At(doc, p2, FromColon(ms, tail)) && pos + |EntriesText(ms, tail)| == p2 + |FromColon(ms, tail)|
  {
    hide At, NextToken, ReadToken, Quoted, Decode, Meaning, FromColon, EntriesOk, Ok, UnitsOk, GapText, GapOk, Blanks;
    hide EntriesText, HasComment, SeparatorOk, NameOf;
    EntryParts(name, ms, tail);
    NamePlaces(doc, pos, ms, tail);
    var m, p0 := ms[0], pos + |GapText(ms[0].before)|;
    var p1 := p0 + |Quoted(m.name)|;
    var p2 := p1 + |m.afterName|;
    GapSkipped(doc, pos, m.before);
    QuotedToken(doc, p0, m.name);
    BlanksRun(doc, p1, m.afterName);
    RunSkipped(doc, p1, p2);
    PunctuationToken(doc, p2, 0x3a, MemberSeparator);
  }

  lemma ColonIs(ms: seq<Entry>, tail: Gap)
    requires ms != []
    ensures |FromColon(ms, tail)| > 0 && FromColon(ms, tail)[0] == 0x3a
  {
  }

  lemma ColonSplit(doc: bytes, pos: nat, ms: seq<Entry>, tail: Gap)
    requires ms != [] && At(doc, pos, FromColon(ms, tail))
    ensures
      var m, p0 := ms[0], pos + 1 + |GapText(ms[0].beforeValue)|;
      var p1 := p0 + |Text(m.doc)|;
      var e := p1 + |GapText(m.after)|;
      && At(doc, pos + 1, GapText(m.beforeValue)) && At(doc, p0, Text(m.doc)) && At(doc, p1, GapText(m.after))
      && At(doc, e, BehindValue(ms, tail)) && pos + |FromColon(ms, tail)| == e + |BehindValue(ms, tail)|
  {
    hide At, Text, BehindValue, GapText;
    var m := ms[0];
    var p0 := pos + 1 + |GapText(m.beforeValue)|;
    AtSplit(doc, pos, [0x3a], GapText(m.beforeValue) + (Text(m.doc) + (GapText(m.after) + BehindValue(ms, tail))));
    AtSplit(doc, pos + 1, GapText(m.beforeValue), Text(m.doc) + (GapText(m.after) + BehindValue(ms, tail)));
    AtSplit(doc, p0, Text(m.doc), GapText(m.after) + BehindValue(ms, tail));
    AtSplit(doc, p0 + |Text(m.doc)|, GapText(m.after), BehindValue(ms, tail));
  }

  /** What begins the rest of an object: a gap, a name or the closing brace. */
  lemma RestStarts(name: bytes, ms: seq<Entry>, tail: Gap)
    requires EntriesOk(name, ms, tail)
    ensures |EntriesText(ms, tail)| > 0 && BehindJunk(EntriesText(ms, tail)[0])
  {
    hide GapOk, FromColon, UnitsText;
    var g := if ms == [] then tail else ms[0].before;
    if ms != [] { EntryParts(name, ms, tail); }
    if g != [] {
      GapStarts(g);
      hide GapText;
      assert EntriesText(ms, tail)[0] == GapText(g)[0];
    }
  }

  /** The token at the end of a gap is what readObject sees behind a value: at once, or behind a comment. */
  lemma BehindGap(doc: bytes, q: nat, g: Gap)
    requires At(doc, q, GapText(g)) && GapOk(g)
    requires
      var e := q + |GapText(g)|;
      e < |doc| && NextToken(doc, e) == ReadToken(doc, e) && ReadToken(doc, e).kind != Comment
    ensures
      var t := ReadToken(doc, q);
      (if t.kind == Comment then NextToken(doc, t.end) else t) == ReadToken(doc, q + |GapText(g)|)
    ensures
      if HasComment(g) then ReadToken(doc, q).kind == Comment
      else ReadToken(doc, q) == ReadToken(doc, q + |GapText(g)|)
  {
    hide At, NextToken, ReadToken, GapText, GapOk, HasComment;
    GapThen(doc, q, g);
  }

  /** The tokens behind the value of the first member, if it has no separator. */
  lemma EntryLast(doc: bytes, q: nat, g: Gap)
    requires At(doc, q, GapText(g)) && GapOk(g) && At(doc, q + |GapText(g)|, [0x7d])
    ensures
      var e := q + |GapText(g)|;
      && e < |doc| && Closing(doc[q])
      && var t := ReadToken(doc, q);
      var comma := if t.kind == Comment then NextToken(doc, t.end) else t;
      (t.kind == ObjectEnd || t.kind == Comment) && comma == Token(ObjectEnd, e, e + 1)
  {
    hide At, NextToken, ReadToken, GapText, GapOk, HasComment;
    var e := q + |GapText(g)|;
    AtIndex(doc, e, [0x7d], 0);
    PunctuationToken(doc, e, 0x7d, ObjectEnd);
    ClosingBehind(doc, q, g);
    BehindGap(doc, q, g);
  }

  /** The tokens behind the value of the first member, if it has one. */
  lemma EntryMore(doc: bytes, q: nat, g: Gap, sep: Sep, rest: bytes)
    requires At(doc, q, GapText(g)) && GapOk(g) && SeparatorOk(sep) && (sep.Taken? ==> HasComment(g))
    requires At(doc, q + |GapText(g)|, SeparatorText(sep) + rest) && rest != [] && BehindJunk(rest[0])
    ensures
      var f := q + |GapText(g)| + |SeparatorText(sep)|;
      && f <= |doc| && q < |doc| && Closing(doc[q]) && At(doc, f, rest)
      && var t := ReadToken(doc, q);
      var comma := if t.kind == Comment then NextToken(doc, t.end) else t;
      (t.kind == Separator || t.kind == Comment) && comma.kind != ObjectEnd && comma.end == f
  {
    hide At, NextToken, ReadToken, GapText, GapOk, HasComment, JunkText, JunkOk;
    var e, w := q + |GapText(g)|, SeparatorText(sep);
    AtSplit(doc, e, w, rest);
    AtIndex(doc, e + |w|, rest, 0);
    if sep.Comma? {
      AtIndex(doc, e, [0x2c], 0);
      PunctuationToken(doc, e, 0x2c, Separator);
      ClosingBehind(doc, q, g);
    } else {
      JunkIsToken(doc, e, sep.junk);
      CommentedGap(doc, q, g);
    }
    BehindGap(doc, q, g);
  }

  /** The tokens behind the value of the first member. */
  lemma EntryClose(doc: bytes, p2: nat, name: bytes, ms: seq<Entry>, tail: Gap)
    requires EntriesOk(name, ms, tail) && ms != [] && At(doc, p2, FromColon(ms, tail))
    ensures
      var m := ms[0];
      var q := p2 + 1 + |GapText(m.beforeValue)| + |Text(m.doc)|;
      var e := q + |GapText(m.after)|;
      && q <= e < |doc| && Closing(doc[q])
      && var t := ReadToken(doc, q);
      var comma := if t.kind == Comment then NextToken(doc, t.end) else t;
      && (t.kind == ObjectEnd || t.kind == Separator || t.kind == Comment)
      && (m.separator.None? ==> comma == Token(ObjectEnd, e, e + 1) && p2 + |FromColon(ms, tail)| == e + 1)
      && (m.separator.Some? ==>
            var f := e + |SeparatorText(m.separator.value)|;
            && comma.kind != ObjectEnd && comma.end == f && At(doc, f, EntriesText(ms[1..], tail))
            && p2 + |FromColon(ms, tail)| == f + |EntriesText(ms[1..], tail)|)
  {
    hide At, NextToken, ReadToken, Text, GapText, EntriesText, FromColon, Ok, GapOk, EntriesOk, HasComment;
    hide SeparatorText, SeparatorOk, BehindJunk, Closing, UnitsOk, Blanks, NameOf;
    var m := ms[0];
    var q := p2 + 1 + |GapText(m.beforeValue)| + |Text(m.doc)|;
    EntryParts(name, ms, tail);
    ColonSplit(doc, p2, ms, tail);
    if m.separator.None? {
      EntryLast(doc, q, m.after);
    } else {
      RestStarts(NameOf(m), ms[1..], tail);
      EntryMore(doc, q, m.after, m.separator.value, EntriesText(ms[1..], tail));
      AtIndex(doc, q + |GapText(m.after)| + |SeparatorText(m.separator.value)|, EntriesText(ms[1..], tail), 0);
    }
  }

  lemma CommentedGap(doc: bytes, q: nat, g: Gap)
    requires At(doc, q, GapText(g)) && GapOk(g) && HasComment(g)
    ensures q < |doc| && Closing(doc[q])
  {
    GapStarts(g);
    AtIndex(doc, q, GapText(g), 0);
  }

  /** Where the value of the first member stands, from behind its colon. */
  lemma EntryValuePlace(doc: bytes, p2: nat, name: bytes, ms: seq<Entry>, tail: Gap)
    requires EntriesOk(name, ms, tail) && ms != [] && At(doc, p2, FromColon(ms, tail))
    ensures
      var p := p2 + 1 + |GapText(ms[0].beforeValue)|;
      var q := p + |Text(ms[0].doc)|;
      && p <= q <= |doc| && Ok(ms[0].doc) && At(doc, p, Text(ms[0].doc)) && Ends(ms[0].doc, doc[q..])
      && NextToken(doc, p2 + 1) == NextToken(doc, p)
  {
    hide At, NextToken, ReadToken, Text, Ok, BehindValue, FromColon, GapText, GapOk, EntriesOk, Ends, SeparatorText;
    hide EntriesText, UnitsOk, Blanks, HasComment, SeparatorOk;
    EntryParts(name, ms, tail);
    ColonSplit(doc, p2, ms, tail);
    EntryClose(doc, p2, name, ms, tail);
    ClosingEnds(ms[0].doc, doc, p2 + 1 + |GapText(ms[0].beforeValue)| + |Text(ms[0].doc)|);
    GapSkipped(doc, p2 + 1, ms[0].beforeValue);
  }

  /** The value of the first member, from behind its colon. */
  lemma {:induction false} ReadsEntryValue(
    src: Source, name: bytes, ms: seq<Entry>, tail: Gap, current: Value, nodes: nat, p2: nat)
    requires EntriesOk(name, ms, tail) && ms != [] && 1 <= nodes <= STACK_LIMIT && At(src.doc, p2, FromColon(ms, tail))
    ensures
      var m := ms[0];
      p2 + 1 <= |src.doc| &&
      Reads(ReadValue(src, current, nodes + 1, p2 + 1), nodes + Levels(m.doc), Tree(src.toDouble, m.doc),
            p2 + 1 + |GapText(m.beforeValue)| + |Text(m.doc)|)
    decreases ms, 2
  {
    hide At, ReadValue, NextToken, Text, Tree, Levels, Ok, FromColon, GapText, EntriesOk, Ends;
    var p := p2 + 1 + |GapText(ms[0].beforeValue)|;
    EntryValuePlace(src.doc, p2, name, ms, tail);
    ReadsDoc(src, ms[0].doc, current, nodes + 1, p);
    ValueBehind(src, current, nodes + 1, p2 + 1, p);
  }

  /** The loop of readObject over the members of a document. */
  lemma {:induction false} ReadsEntries(
    src: Source, ms: seq<Entry>, tail: Gap, done: seq<Member>, name: bytes, nodes: nat, pos: nat)
    requires EntriesOk(name, ms, tail) && 1 <= nodes <= STACK_LIMIT && At(src.doc, pos, EntriesText(ms, tail))
    ensures
      var t := EntryTrees(src.toDouble, done, ms);
      Reads(ReadMembers(src, done, name, nodes, pos), nodes + EntryLevels(ms),
            if t.Some? then Some(Obj(t.value)) else None, pos + |EntriesText(ms, tail)|)
    decreases ms, 4
  {
    hide At, ReadMembers, EntriesOk, EntriesText, EntryTrees, EntryLevels, Reads;
    if ms == [] {
      ReadsNoEntries(src, ms, tail, done, name, nodes, pos);
    } else {
      ReadsFirstEntry(src, ms, tail, done, name, nodes, pos);
    }
  }

  lemma ReadsNoEntries(src: Source, ms: seq<Entry>, tail: Gap, done: seq<Member>, name: bytes, nodes: nat, pos: nat)
    requires ms == [] && EntriesOk(name, ms, tail) && nodes <= STACK_LIMIT && At(src.doc, pos, EntriesText(ms, tail))
    ensures
      var t := EntryTrees(src.toDouble, done, ms);
      Reads(ReadMembers(src, done, name, nodes, pos), nodes + EntryLevels(ms),
            if t.Some? then Some(Obj(t.value)) else None, pos + |EntriesText(ms, tail)|)
  {
    NoneLeft(src.toDouble, ms, tail, done, name);
    hide At, ReadMembers, GapText, GapOk, EntriesOk, EntriesText, EntryTrees, EntryLevels;
    ObjectEnds(src, done, tail, nodes, pos);
  }

  /** One round of readObject over a member whose name and value are read. */
  lemma EntryTaken(src: Source, ms: seq<Entry>, tail: Gap, done: seq<Member>, name: bytes, nodes: nat, pos: nat)
    returns (next: nat)
    requires ms != [] && EntriesOk(name, ms, tail) && At(src.doc, pos, EntriesText(ms, tail))
    requires
      var m := ms[0];
      var key, v := Meaning(m.name), Tree(src.toDouble, m.doc);
      var p2 := pos + |GapText(m.before)| + |Quoted(m.name)| + |m.afterName|;
      && key.Some? && v.Some? && p2 + 1 <= |src.doc|
      && ReadValue(src, Lookup(done, key.value), nodes + 1, p2 + 1)
         == Done(true, v.value, p2 + 1 + |GapText(m.beforeValue)| + |Text(m.doc)|, 0)
    ensures
      var more := Put(done, Meaning(ms[0].name).value, Tree(src.toDouble, ms[0].doc).value);
      var r := ReadMembers(src, done, name, nodes, pos);
      if ms[0].separator.None? then r == Done(true, Obj(more), pos + |EntriesText(ms, tail)|, 0)
      else
        && next <= |src.doc| && r == ReadMembers(src, more, Meaning(ms[0].name).value, nodes, next)
        && At(src.doc, next, EntriesText(ms[1..], tail))
        && next + |EntriesText(ms[1..], tail)| == pos + |EntriesText(ms, tail)|
  {
    hide At, ReadValue, ReadMembers, NextToken, ReadToken, Text, EntriesText, Tree, Ok, FromColon, Meaning, Decode;
    hide Quoted, Put, Lookup, UnitsOk, EntriesOk, GapText, GapOk, SeparatorText, Blanks, Closing;
    var m := ms[0];
    var p0 := pos + |GapText(m.before)|;
    var p1 := p0 + |Quoted(m.name)|;
    var p2 := p1 + |m.afterName|;
    EntryName(src.doc, pos, name, ms, tail);
    EntryClose(src.doc, p2, name, ms, tail);
    var t := ReadToken(src.doc, p2 + 1 + |GapText(m.beforeValue)| + |Text(m.doc)|);
    var comma := if t.kind == Comment then NextToken(src.doc, t.end) else t;
    EntryStep(src, done, name, nodes, pos, Token(String, p0, p1), Meaning(m.name).value,
      Token(MemberSeparator, p2, p2 + 1),
      t, comma);
    next := comma.end;
  }

  lemma {:induction false} ReadsFirstEntry(
    src: Source, ms: seq<Entry>, tail: Gap, done: seq<Member>, name: bytes, nodes: nat, pos: nat)
    requires ms != [] && EntriesOk(name, ms, tail) && 1 <= nodes <= STACK_LIMIT
    requires At(src.doc, pos, EntriesText(ms, tail))
    ensures
      var t := EntryTrees(src.toDouble, done, ms);
      Reads(ReadMembers(src, done, name, nodes, pos), nodes + EntryLevels(ms),
            if t.Some? then Some(Obj(t.value)) else None, pos + |EntriesText(ms, tail)|)
    decreases ms, 3
  {
    hide At, ReadValue, ReadMembers, NextToken, ReadToken, Text, EntriesText, EntryTrees, EntryLevels, Tree, Levels;
    hide Ok, FromColon, Meaning, Decode, Quoted, Put, Lookup, UnitsOk, EntriesOk, GapText, GapOk, SeparatorText, Blanks;
    var m := ms[0];
    var p0 := pos + |GapText(m.before)|;
    var p1 := p0 + |Quoted(m.name)|;
    var p2 := p1 + |m.afterName|;
    ConsEntries(src.toDouble, done, ms);
    EntryParts(name, ms, tail);
    EntryName(src.doc, pos, name, ms, tail);
    var key, v := Meaning(m.name), Tree(src.toDouble, m.doc);
    var nameToken, colon := Token(String, p0, p1), Token(MemberSeparator, p2, p2 + 1);
    if key.None? {
      EntryFails(src, done, name, nodes, pos, nameToken, colon);
    } else {
      ReadsEntryValue(src, name, ms, tail, Lookup(done, key.value), nodes, p2);
      if nodes + Levels(m.doc) > STACK_LIMIT || v.None? {
        EntryFails(src, done, name, nodes, pos, nameToken, colon);
      } else {
        var next := EntryTaken(src, ms, tail, done, name, nodes, pos);
        if m.separator.Some? {
          ReadsEntries(src, ms[1..], tail, Put(done, key.value, v.value), key.value, nodes, next);
        }
      }
    }
  }
}
