/**
 The documents Reader::parse takes are those of the grammar, and no others (newJson/jsoncpp.cpp, Reader::parse,
 readValue, readArray, readObject): from every successful reading a derivation is found that covers exactly the bytes
 read.
 */
module JsonSoundness {
  import opened Bytes
  import opened JsonValue
  import opened JsonNumber
  import opened JsonText
  import opened JsonReader
  import opened JsonGrammar
  import opened JsonNumberScan
  import opened JsonStringScan
  import opened JsonGapScan
  import opened JsonTokenScan
  import opened JsonAcceptance

  predicate Succeeds(r: Result) { r.Done? && r.ok }

  /** A document of the grammar stands here, behind a gap, and ends there. */
  predicate Stands(doc: bytes, pos: nat, g: Gap, d: Doc, end: nat) {
    && GapOk(g) && At(doc, pos, GapText(g)) && Ok(d) && At(doc, pos + |GapText(g)|, Text(d))
    && end == pos + |GapText(g)| + |Text(d)| && Ends(d, doc[end..])
  }

  // ---- one token -------------------------------------------------------------------------------

  /** The first token behind comments, the gap before it and the bytes it covers. */
  lemma FindToken(doc: bytes, pos: nat) returns (g: Gap)
    requires pos <= |doc| && NextToken(doc, pos).start < |doc|
    ensures GapOk(g) && At(doc, pos, GapText(g)) && pos + |GapText(g)| == NextToken(doc, pos).start
    ensures
      var t := NextToken(doc, pos);
      && (t.kind == ObjectBegin ==> doc[t.start] == 0x7b && t.end == t.start + 1)
      && (t.kind == ObjectEnd ==> doc[t.start] == 0x7d && t.end == t.start + 1)
      && (t.kind == ArrayBegin ==> doc[t.start] == 0x5b && t.end == t.start + 1)
      && (t.kind == ArrayEnd ==> doc[t.start] == 0x5d && t.end == t.start + 1)
      && (t.kind == Separator ==> doc[t.start] == 0x2c && t.end == t.start + 1)
      && (t.kind == String ==> doc[t.start] == QUOTE && ReadString(doc, t.start + 1) == Scan(true, t.end))
      && (t.kind == Number ==>
            (doc[t.start] == MINUS || IsDigit(doc[t.start])) && t.end == ReadNumber(doc, t.start + 1))
      && (t.kind == True ==> At(doc, t.start, TRUE_) && t.end == t.start + 4)
      && (t.kind == False ==> At(doc, t.start, FALSE_) && t.end == t.start + 5)
      && (t.kind == NullToken ==> At(doc, t.start, NULL_) && t.end == t.start + 4)
  {
    hide NextToken, ReadToken, GapText, GapOk, At, ReadString, ReadNumber, HasComment;
    g := FindGap(doc, pos);
    var p := NextTokenIsToken(doc, pos);
    TokenShape(doc, p);
    var t := NextToken(doc, pos);
    if IsLiteralKind(t.kind) { LiteralAt(doc, t.start, t.kind); }
  }

  lemma ByteStands(doc: bytes, pos: nat, c: byte)
    requires pos < |doc| && doc[pos] == c
    ensures At(doc, pos, [c])
  {
    assert doc[pos..pos + 1] == [c];
  }

  // ---- scalars ---------------------------------------------------------------------------------

  /** A string token that decodes is a string of the grammar. */
  lemma FindQuoted(doc: bytes, start: nat, end: nat) returns (us: seq<Unit>)
    requires start < |doc| && doc[start] == QUOTE && ReadString(doc, start + 1) == Scan(true, end)
    requires start + 2 <= end && Decode(doc, start + 1, end - 1).Some?
    ensures UnitsOk(us) && At(doc, start, Quoted(us)) && start + |Quoted(us)| == end
    ensures Meaning(us) == Decode(doc, start + 1, end - 1)
  {
    hide Decode, Meaning, UnitsText, UnitsOk, At;
    us := FindUnits(doc, start + 1, end);
    var text := UnitsText(us);
    ClosingQuote(doc, start + 1, end);
    ByteStands(doc, start, QUOTE);
    ByteStands(doc, end - 1, QUOTE);
    AtSplit(doc, start, [QUOTE], text);
    AtSplit(doc, start, [QUOTE] + text, [QUOTE]);
  }

  lemma {:induction false} ClosingQuote(doc: bytes, k: nat, end: nat)
    requires k <= |doc| && ReadString(doc, k) == Scan(true, end)
    ensures k < end <= |doc| && doc[end - 1] == QUOTE
    decreases |doc| - k
  {
    if doc[k] == BACKSLASH {
      ClosingQuote(doc, k + 2, end);
    } else if doc[k] != QUOTE {
      ClosingQuote(doc, k + 1, end);
    }
  }

  /** A value that is no array and no object: what readValue has seen. */
  lemma ScalarSucceeds(src: Source, current: Value, nodes: nat, pos: nat)
    requires pos <= |src.doc| && Succeeds(ReadValue(src, current, nodes, pos))
    requires var k := NextToken(src.doc, pos).kind; k != ArrayBegin && k != ObjectBegin
    ensures
      var t := NextToken(src.doc, pos);
      && ReadValue(src, current, nodes, pos).pos == t.end && t.start < t.end
      && (t.kind == Number || t.kind == String || IsLiteralKind(t.kind))
      && (t.kind == String ==> Decode(src.doc, t.start + 1, t.end - 1).Some?)
  {
    hide NextToken, Decode, DecodeNumber;
  }

  lemma FindScalar(src: Source, current: Value, nodes: nat, pos: nat) returns (g: Gap, d: Doc)
    requires pos <= |src.doc| && Succeeds(ReadValue(src, current, nodes, pos))
    requires var k := NextToken(src.doc, pos).kind; k != ArrayBegin && k != ObjectBegin
    ensures Stands(src.doc, pos, g, d, ReadValue(src, current, nodes, pos).pos)
  {
    hide NextToken, ReadValue, GapText, GapOk, At, ReadString, ReadNumber, Decode, NumeralText, NumeralOk, NumeralEnds;
    hide Quoted, UnitsOk;
    ScalarSucceeds(src, current, nodes, pos);
    var t := NextToken(src.doc, pos);
    g := FindToken(src.doc, pos);
    if t.kind == Number {
      var n := FindNumeral(src.doc, t.start);
      d := DNumber(n);
    } else if t.kind == String {
      var us := FindQuoted(src.doc, t.start, t.end);
      d := DString(us);
    } else {
      d := if t.kind == NullToken then DNull else DBool(t.kind == True);
    }
  }

  // ---- values ----------------------------------------------------------------------------------

  /** Whatever readValue succeeds on is a gap and a document of the grammar, up to where the cursor stands. */
  lemma {:induction false} FindDoc(src: Source, current: Value, nodes: nat, pos: nat) returns (g: Gap, d: Doc)
    requires pos <= |src.doc| && Succeeds(ReadValue(src, current, nodes, pos))
    ensures Stands(src.doc, pos, g, d, ReadValue(src, current, nodes, pos).pos)
    decreases |src.doc| - pos, 1
  {
    hide NextToken, ReadValue, Stands;
    var k := NextToken(src.doc, pos).kind;
    if k == ArrayBegin {
      g, d := FindArray(src, current, nodes, pos);
    } else if k == ObjectBegin {
      g, d := FindObject(src, current, nodes, pos);
    } else {
      g, d := FindScalar(src, current, nodes, pos);
    }
  }

  /** readArray goes on with the items, or ends at once behind blanks. */
  lemma ArraySucceeds(src: Source, current: Value, nodes: nat, pos: nat)
    requires pos <= |src.doc| && Succeeds(ReadValue(src, current, nodes, pos))
    requires NextToken(src.doc, pos).kind == ArrayBegin
    ensures
      var doc, end, r := src.doc, NextToken(src.doc, pos).end, ReadValue(src, current, nodes, pos);
      var p := SkipSpaces(doc, end);
      && BlankRun(doc, end, p)
      && if p < |doc| && doc[p] == 0x5d then r.pos == p + 1 else r == ReadItems(src, [], nodes, end)
  {
    hide NextToken, ReadToken, ReadItems, SkipSpaces;
    var end := NextToken(src.doc, pos).end;
    var p := SkipSpaces(src.doc, end);
    SkipsBlanks(src.doc, end);
    RunSkipped(src.doc, end, p);
    if p < |src.doc| && src.doc[p] == 0x5d {
      PunctuationToken(src.doc, p, 0x5d, ArrayEnd);
    } else {
      ItemsBehind(src, [], nodes, end, p);
    }
  }

  lemma {:induction false} FindArray(src: Source, current: Value, nodes: nat, pos: nat) returns (g: Gap, d: Doc)
    requires pos <= |src.doc| && Succeeds(ReadValue(src, current, nodes, pos))
    requires NextToken(src.doc, pos).kind == ArrayBegin
    ensures Stands(src.doc, pos, g, d, ReadValue(src, current, nodes, pos).pos)
    decreases |src.doc| - pos, 0
  {
    hide NextToken, ReadToken, ReadValue, ReadItems, SkipSpaces, GapText, GapOk, At, ItemsText, ItemsOk;
    hide ReadString, ReadNumber, BlankRun;
    var doc, t := src.doc, NextToken(src.doc, pos);
    g := FindToken(doc, pos);
    ByteStands(doc, t.start, 0x5b);
    ArraySucceeds(src, current, nodes, pos);
    var p := SkipSpaces(doc, t.end);
    if p < |doc| && doc[p] == 0x5d {
      d := DArray(doc[t.end..p], []);
      EmptyStands(doc, t.end, p);
      AtSplit(doc, t.start, [0x5b], doc[t.end..p] + [0x5d]);
    } else {
      var items := FindItems(src, [], nodes, t.end);
      d := DArray([], items);
      AtSplit(doc, t.start, [0x5b], ItemsText(items));
    }
  }

  lemma EmptyStands(doc: bytes, a: nat, b: nat)
    requires BlankRun(doc, a, b) && b < |doc| && doc[b] == 0x5d
    ensures Blanks(doc[a..b]) && At(doc, a, doc[a..b] + [0x5d]) && ItemsOk([])
  {
    ByteStands(doc, b, 0x5d);
    AtSplit(doc, a, doc[a..b], [0x5d]);
  }

  /** One round of readArray that succeeds. */
  lemma ItemSucceeds(src: Source, done: seq<Value>, nodes: nat, pos: nat)
    requires pos <= |src.doc| && Succeeds(ReadItems(src, done, nodes, pos))
    ensures
      var r, e := ReadItems(src, done, nodes, pos), ReadValue(src, Null, nodes + 1, pos);
      && Succeeds(e)
      && var t := NextToken(src.doc, e.pos);
      if t.kind == ArrayEnd then r.pos == t.end
      else t.kind == Separator && r == ReadItems(src, done + [e.value], nodes, t.end)
  {
    hide NextToken, ReadValue;
  }

  /** Whatever the loop of readArray succeeds on is a list of items and the closing bracket. */
  lemma {:induction false} FindItems(src: Source, done: seq<Value>, nodes: nat, pos: nat) returns (items: seq<Item>)
    requires pos <= |src.doc| && Succeeds(ReadItems(src, done, nodes, pos))
    ensures items != [] && ItemsOk(items) && At(src.doc, pos, ItemsText(items))
    ensures pos + |ItemsText(items)| == ReadItems(src, done, nodes, pos).pos
    decreases |src.doc| - pos, 2
  {
    hide NextToken, ReadValue, ReadItems, ReadString, ReadNumber, GapText, GapOk, At, ItemsText, ItemsOk, Stands;
    var doc := src.doc;
    ItemSucceeds(src, done, nodes, pos);
    var element := ReadValue(src, Null, nodes + 1, pos);
    var g, d := FindDoc(src, Null, nodes + 1, pos);
    var t := NextToken(doc, element.pos);
    var after := FindToken(doc, element.pos);
    var rest: seq<Item> := [];
    assert ItemsOk([]) by { NoItemsOk(); }
    if t.kind == Separator { rest := FindItems(src, done + [element.value], nodes, t.end); }
    items := ConsItem(doc, pos, g, d, element.pos, after, rest);
  }

  lemma NoItemsOk()
    ensures ItemsOk([])
  {
  }

  lemma ConsItem(doc: bytes, pos: nat, g: Gap, d: Doc, end: nat, after: Gap, rest: seq<Item>) returns (items: seq<Item>)
    requires Stands(doc, pos, g, d, end) && GapOk(after) && At(doc, end, GapText(after)) && ItemsOk(rest)
    requires var e := end + |GapText(after)|; e < |doc| && doc[e] == if rest == [] then 0x5d else 0x2c
    requires rest != [] ==> At(doc, end + |GapText(after)| + 1, ItemsText(rest))
    ensures items != [] && ItemsOk(items) && At(doc, pos, ItemsText(items))
    ensures pos + |ItemsText(items)| == end + |GapText(after)| + 1 + if rest == [] then 0 else |ItemsText(rest)|
  {
    hide GapText, GapOk, At, Text, Ok, Ends;
    items := [Item(g, d, after)] + rest;
    assert items[1..] == rest;
    var e := end + |GapText(after)|;
    var close := if rest == [] then [0x5d] else [0x2c] + ItemsText(rest);
    ByteStands(doc, e, doc[e]);
    if rest != [] { AtSplit(doc, e, [0x2c], ItemsText(rest)); }
    AtSplit(doc, end, GapText(after), close);
    AtSplit(doc, pos + |GapText(g)|, Text(d), GapText(after) + close);
    AtSplit(doc, pos, GapText(g), Text(d) + (GapText(after) + close));
  }

  // ---- objects ---------------------------------------------------------------------------------

  lemma {:induction false} FindObject(src: Source, current: Value, nodes: nat, pos: nat) returns (g: Gap, d: Doc)
    requires pos <= |src.doc| && Succeeds(ReadValue(src, current, nodes, pos))
    requires NextToken(src.doc, pos).kind == ObjectBegin
    ensures Stands(src.doc, pos, g, d, ReadValue(src, current, nodes, pos).pos)
    decreases |src.doc| - pos, 0
  {
    hide NextToken, ReadToken, ReadMembers, GapText, GapOk, At, EntriesText, EntriesOk;
    var doc, t := src.doc, NextToken(src.doc, pos);
    g := FindToken(doc, pos);
    ByteStands(doc, t.start, 0x7b);
    var ms, tail := FindEntries(src, [], [], nodes, t.end);
    d := DObject(ms, tail);
    AtSplit(doc, t.start, [0x7b], EntriesText(ms, tail));
  }

  /** What stands from the name of a member to its colon. */
  predicate Named(doc: bytes, pos: nat, before: Gap, name: seq<Unit>, afterName: bytes, colon: nat) {
    && GapOk(before) && UnitsOk(name) && Blanks(afterName)
    && At(doc, pos, GapText(before)) && At(doc, pos + |GapText(before)|, Quoted(name))
    && At(doc, pos + |GapText(before)| + |Quoted(name)|, afterName)
    && colon == pos + |GapText(before)| + |Quoted(name)| + |afterName| && colon < |doc| && doc[colon] == 0x3a
  }

  lemma FindName(doc: bytes, pos: nat) returns (before: Gap, name: seq<Unit>, afterName: bytes)
    requires pos <= |doc| && NextToken(doc, pos).kind == String
    requires var t := NextToken(doc, pos); Decode(doc, t.start + 1, t.end - 1).Some?
    requires ReadToken(doc, NextToken(doc, pos).end).kind == MemberSeparator
    ensures
      var t := NextToken(doc, pos);
      var colon := ReadToken(doc, t.end);
      && Named(doc, pos, before, name, afterName, colon.start) && colon.end == colon.start + 1
      && Meaning(name) == Decode(doc, t.start + 1, t.end - 1)
  {
    hide NextToken, ReadToken, GapText, GapOk, At, ReadString, Decode, Meaning, Quoted, UnitsOk, SkipSpaces;
    var t := NextToken(doc, pos);
    before := FindToken(doc, pos);
    name := FindQuoted(doc, t.start, t.end);
    TokenShape(doc, t.end);
    var colon := ReadToken(doc, t.end);
    ReadTokenStart(doc, t.end);
    SkipsBlanks(doc, t.end);
    afterName := doc[t.end..colon.start];
    SliceStands(doc, t.end, colon.start);
  }

  lemma SliceStands(doc: bytes, a: nat, b: nat)
    requires BlankRun(doc, a, b)
    ensures Blanks(doc[a..b]) && At(doc, a, doc[a..b])
  {
  }

  /** What stands behind the value of a member: the closing brace, or a separator up to this place. */
  predicate Separated(doc: bytes, pos: nat, after: Gap, sep: Option<Sep>, end: nat) {
    && GapOk(after) && At(doc, pos, GapText(after))
    && if sep.None? then At(doc, pos + |GapText(after)|, [0x7d]) && end == pos + |GapText(after)| + 1
       else
         && SeparatorOk(sep.value) && (sep.value.Taken? ==> HasComment(after))
         && At(doc, pos + |GapText(after)|, SeparatorText(sep.value))
         && end == pos + |GapText(after)| + |SeparatorText(sep.value)|
  }

  lemma FindSeparator(doc: bytes, pos: nat) returns (after: Gap, sep: Option<Sep>)
    requires pos <= |doc|
    requires var k := ReadToken(doc, pos).kind; k == ObjectEnd || k == Separator || k == Comment
    requires var comma := NextToken(doc, pos); comma.kind == ObjectEnd || comma.end < |doc|
    ensures Separated(doc, pos, after, sep, NextToken(doc, pos).end)
    ensures sep.None? <==> NextToken(doc, pos).kind == ObjectEnd
  {
    SeparatorBegins(doc, pos);
    hide NextToken, ReadToken, Separated;
    var comma := NextToken(doc, pos);
    if comma.kind == ObjectEnd || comma.kind == Separator {
      after, sep := FindPlainEnd(doc, pos);
    } else {
      after, sep := FindTakenComma(doc, pos);
    }
  }

  /** A closing brace or a comma behind a gap. */
  lemma FindPlainEnd(doc: bytes, pos: nat) returns (after: Gap, sep: Option<Sep>)
    requires pos <= |doc|
    requires var k := NextToken(doc, pos).kind; k == ObjectEnd || k == Separator
    ensures Separated(doc, pos, after, sep, NextToken(doc, pos).end)
    ensures sep.None? <==> NextToken(doc, pos).kind == ObjectEnd
  {
    hide NextToken, ReadToken, GapText, GapOk, At, HasComment, ReadString, ReadNumber;
    var comma := NextToken(doc, pos);
    after := FindToken(doc, pos);
    ByteStands(doc, comma.start, doc[comma.start]);
    sep := if comma.kind == ObjectEnd then None else Some(Comma);
  }

  lemma FindTakenComma(doc: bytes, pos: nat) returns (after: Gap, sep: Option<Sep>)
    requires pos <= |doc| && ReadToken(doc, pos).kind == Comment
    requires var t := NextToken(doc, pos); t.start < t.end < |doc| && t.kind != ObjectEnd
    ensures sep.Some? && Separated(doc, pos, after, sep, NextToken(doc, pos).end)
  {
    hide NextToken, ReadToken, GapText, GapOk, At, JunkText, JunkOk, HasComment;
    after := FindGap(doc, pos);
    var junk := FindTaken(doc, pos);
    sep := Some(Taken(junk));
  }

  lemma FindTaken(doc: bytes, pos: nat) returns (junk: Junk)
    requires pos <= |doc|
    requires var t := NextToken(doc, pos); t.start < t.end < |doc| && t.kind != ObjectEnd
    ensures
      var t := NextToken(doc, pos);
      JunkOk(junk) && At(doc, t.start, JunkText(junk)) && t.start + |JunkText(junk)| == t.end
  {
    hide NextToken, ReadToken, At, JunkText, JunkOk;
    var p := NextTokenIsToken(doc, pos);
    junk := FindJunk(doc, p);
  }

  lemma SeparatorBegins(doc: bytes, pos: nat)
    requires pos <= |doc|
    requires var k := ReadToken(doc, pos).kind; k == ObjectEnd || k == Separator || k == Comment
    requires var comma := NextToken(doc, pos); comma.kind == ObjectEnd || comma.end < |doc|
    ensures var comma := NextToken(doc, pos); comma.start < comma.end
    ensures var comma := NextToken(doc, pos); ReadToken(doc, pos).kind != Comment ==> comma == ReadToken(doc, pos)
  {
    var p := NextTokenIsToken(doc, pos);
    hide ReadToken;
  }

  /** One round of readObject that succeeds: what it has read, and where it goes on. */
  lemma RoundSucceeds(src: Source, done: seq<Member>, previous: bytes, nodes: nat, pos: nat)
    requires pos <= |src.doc| && Succeeds(ReadMembers(src, done, previous, nodes, pos))
    ensures
      var doc, t, r := src.doc, NextToken(src.doc, pos), ReadMembers(src, done, previous, nodes, pos);
      if t.kind == ObjectEnd && previous == [] then r.pos == t.end
      else
        && t.kind == String
        && var key, colon := Decode(doc, t.start + 1, t.end - 1), ReadToken(doc, t.end);
        && key.Some? && colon.kind == MemberSeparator
        && var e := ReadValue(src, Lookup(done, key.value), nodes + 1, colon.end);
        && Succeeds(e)
        && var k, comma := ReadToken(doc, e.pos).kind, NextToken(doc, e.pos);
        && (k == ObjectEnd || k == Separator || k == Comment)
        && if comma.kind == ObjectEnd then r.pos == comma.end
           else comma.end < |doc| && r == ReadMembers(src, Put(done, key.value, e.value), key.value, nodes, comma.end)
  {
    hide ReadToken, ReadValue, Decode, Put, Lookup;
    var t := NextToken(src.doc, pos);
    if !(t.kind == ObjectEnd && previous == []) {
      var key, colon := Decode(src.doc, t.start + 1, t.end - 1), ReadToken(src.doc, t.end);
      assert ReadMembers(src, done, previous, nodes, pos) == MemberTail(src, done, key.value, nodes, colon.end);
    }
  }

  /** Whatever the loop of readObject succeeds on is a list of members and the closing brace. */
  lemma {:induction false} FindEntries(src: Source, done: seq<Member>, previous: bytes, nodes: nat, pos: nat)
    returns (ms: seq<Entry>, tail: Gap)
    requires pos <= |src.doc| && Succeeds(ReadMembers(src, done, previous, nodes, pos))
    ensures EntriesOk(previous, ms, tail) && At(src.doc, pos, EntriesText(ms, tail))
    ensures pos + |EntriesText(ms, tail)| == ReadMembers(src, done, previous, nodes, pos).pos
    decreases |src.doc| - pos, 2
  {
    hide NextToken, ReadToken, ReadValue, ReadMembers, GapText, GapOk, At, Decode, Put, Lookup, EntriesText, EntriesOk;
    hide Stands, Named, Separated, Meaning;
    var doc, t := src.doc, NextToken(src.doc, pos);
    RoundSucceeds(src, done, previous, nodes, pos);
    if t.kind == ObjectEnd && previous == [] {
      ms := [];
      tail := FindToken(doc, pos);
      NoEntries(doc, pos, tail);
    } else {
      var before, name, afterName := FindName(doc, pos);
      var key, colon := Decode(doc, t.start + 1, t.end - 1).value, ReadToken(doc, t.end);
      var e := ReadValue(src, Lookup(done, key), nodes + 1, colon.end);
      var g, d := FindDoc(src, Lookup(done, key), nodes + 1, colon.end);
      var after, sep := FindSeparator(doc, e.pos);
      var comma := NextToken(doc, e.pos);
      var rest: seq<Entry> := [];
      tail := [];
      if sep.Some? {
        rest, tail := FindEntries(src, Put(done, key, e.value), key, nodes, comma.end);
      }
      ms := [Entry(before, name, afterName, g, d, after, sep)] + rest;
      assert ms[1..] == rest;
      EntryStands(doc, pos, ms, tail, colon.start, e.pos, comma.end);
      ConsEntryOk(doc, pos, previous, ms, tail, colon.start, e.pos, comma.end);
    }
  }

  lemma NoEntries(doc: bytes, pos: nat, tail: Gap)
    requires GapOk(tail) && At(doc, pos, GapText(tail))
    requires var e := pos + |GapText(tail)|; e < |doc| && doc[e] == 0x7d
    ensures EntriesOk([], [], tail) && At(doc, pos, EntriesText([], tail))
    ensures |EntriesText([], tail)| == |GapText(tail)| + 1
  {
    hide GapText, GapOk, At;
    ByteStands(doc, pos + |GapText(tail)|, 0x7d);
    AtSplit(doc, pos, GapText(tail), [0x7d]);
  }

  lemma ConsEntryOk(
    doc: bytes, pos: nat, previous: bytes, ms: seq<Entry>, tail: Gap, colon: nat, end: nat, next: nat)
    requires ms != []
    requires
      var m := ms[0];
      && Named(doc, pos, m.before, m.name, m.afterName, colon) && Stands(doc, colon + 1, m.beforeValue, m.doc, end)
      && Separated(doc, end, m.after, m.separator, next) && Meaning(m.name).Some?
      && if m.separator.None? then |ms| == 1 && tail == [] else EntriesOk(Meaning(m.name).value, ms[1..], tail)
    ensures EntriesOk(previous, ms, tail)
  {
    hide Ok, GapOk, UnitsOk, Blanks, Meaning, At, GapText, Text, HasComment, SeparatorOk, SeparatorText, Quoted, Ends;
    assert EntryOk(ms[0]);
  }

  /** The parts of a member one after the other are its text. */
  lemma EntryStands(doc: bytes, pos: nat, ms: seq<Entry>, tail: Gap, colon: nat, end: nat, next: nat)
    requires ms != []
    requires
      var m := ms[0];
      && Named(doc, pos, m.before, m.name, m.afterName, colon) && Stands(doc, colon + 1, m.beforeValue, m.doc, end)
      && Separated(doc, end, m.after, m.separator, next)
      && (m.separator.Some? ==> At(doc, next, EntriesText(ms[1..], tail)))
    ensures At(doc, pos, EntriesText(ms, tail))
    ensures
      pos + |EntriesText(ms, tail)| == next + if ms[0].separator.None? then 0 else |EntriesText(ms[1..], tail)|
  {
    hide At, GapText, GapOk, Text, Ok, Ends, Quoted, UnitsOk, Blanks, SeparatorText, SeparatorOk, HasComment;
    hide EntriesText;
    var m := ms[0];
    ValueStands(doc, ms, tail, colon, end, next);
    var from := FromColon(ms, tail);
    hide FromColon;
    var p0 := pos + |GapText(m.before)|;
    AtSplit(doc, p0 + |Quoted(m.name)|, m.afterName, from);
    AtSplit(doc, p0, Quoted(m.name), m.afterName + from);
    AtSplit(doc, pos, GapText(m.before), Quoted(m.name) + (m.afterName + from));
    TextOfEntries(ms, tail);
  }

  lemma TextOfEntries(ms: seq<Entry>, tail: Gap)
    requires ms != []
    ensures EntriesText(ms, tail)
         == GapText(ms[0].before) + (Quoted(ms[0].name) + (ms[0].afterName + FromColon(ms, tail)))
  {
  }

  lemma ValueStands(doc: bytes, ms: seq<Entry>, tail: Gap, colon: nat, end: nat, next: nat)
    requires ms != [] && colon < |doc| && doc[colon] == 0x3a
    requires
      var m := ms[0];
      && Stands(doc, colon + 1, m.beforeValue, m.doc, end) && Separated(doc, end, m.after, m.separator, next)
      && (m.separator.Some? ==> At(doc, next, EntriesText(ms[1..], tail)))
    ensures At(doc, colon, FromColon(ms, tail))
    ensures
      colon + |FromColon(ms, tail)| == next + if ms[0].separator.None? then 0 else |EntriesText(ms[1..], tail)|
  {
    hide At, GapText, GapOk, Text, Ok, Ends, SeparatorText, SeparatorOk, HasComment, EntriesText;
    var m := ms[0];
    var behind := BehindValue(ms, tail);
    var q := end + |GapText(m.after)|;
    if m.separator.Some? { AtSplit(doc, q, SeparatorText(m.separator.value), EntriesText(ms[1..], tail)); }
    AtSplit(doc, end, GapText(m.after), behind);
    AtSplit(doc, colon + 1 + |GapText(m.beforeValue)|, Text(m.doc), GapText(m.after) + behind);
    AtSplit(doc, colon + 1, GapText(m.beforeValue), Text(m.doc) + (GapText(m.after) + behind));
    ByteStands(doc, colon, 0x3a);
    AtSplit(doc, colon, [0x3a], GapText(m.beforeValue) + (Text(m.doc) + (GapText(m.after) + behind)));
  }

  // ---- parse -----------------------------------------------------------------------------------

  /** The document is a gap, a text of the grammar and a rest that does not make it go on. */
  predicate Derives(doc: bytes, before: Gap, d: Doc, rest: bytes) {
    GapOk(before) && Ok(d) && Ends(d, rest) && doc == GapText(before) + Text(d) + rest
  }

  lemma DerivesIsStands(doc: bytes, before: Gap, d: Doc, rest: bytes) returns (end: nat)
    requires Derives(doc, before, d, rest)
    ensures Stands(doc, 0, before, d, end) && end == |GapText(before)| + |Text(d)| <= |doc| && rest == doc[end..]
  {
    hide GapText, Text, Ok, GapOk, Ends;
    end := |GapText(before)| + |Text(d)|;
    var g, t := GapText(before), Text(d);
    assert doc[..|g|] == g && doc[|g|..|g| + |t|] == t;
  }

  lemma StandsDerives(doc: bytes, before: Gap, d: Doc, end: nat)
    requires Stands(doc, 0, before, d, end)
    ensures Derives(doc, before, d, doc[end..])
  {
    hide GapText, Text, Ok, GapOk, Ends;
    var g, t := GapText(before), Text(d);
    assert doc == doc[..|g|] + doc[|g|..|g| + |t|] + doc[|g| + |t|..];
  }

  /** readValue on a document of the grammar behind a gap. */
  lemma ReadsStanding(src: Source, current: Value, nodes: nat, pos: nat, g: Gap, d: Doc, end: nat)
    requires Stands(src.doc, pos, g, d, end) && nodes >= 1
    ensures
      Reads(ReadValue(src, current, nodes, pos), nodes + Levels(d) - 1, Tree(src.toDouble, d), end)
  {
    hide ReadValue, NextToken, GapText, Text, Ok, GapOk, Ends, Tree, Levels, At;
    GapSkipped(src.doc, pos, g);
    ReadsDoc(src, d, current, nodes, pos + |GapText(g)|);
    ValueBehind(src, current, nodes, pos, pos + |GapText(g)|);
  }

  /** A derivation the reader can follow, with the value it stands for. */
  predicate Accounts(src: Source, v: Value, before: Gap, d: Doc, rest: bytes) {
    Derives(src.doc, before, d, rest) && Levels(d) <= 1000 && Tree(src.toDouble, d) == Some(v)
  }

  /**
   parse succeeds with a value if and only if the document begins with a gap and a text of the grammar, at most 1000
   levels deep, that stands for this value.
   */
  lemma AcceptedIff(src: Source, root: Value, v: Value)
    ensures
      var r := Parse(src, root);
      r.Done? && r.ok && r.value == v <==> exists before, d, rest :: Accounts(src, v, before, d, rest)
  {
    hide ReadValue, NextToken, Derives, Levels, Tree;
    var r := ReadValue(src, root, 1, 0);
    if r.Done? && r.ok && r.value == v {
      var before, d := FindAccount(src, root);
      assert Accounts(src, v, before, d, src.doc[r.pos..]);
    }
    if before, d, rest :| Accounts(src, v, before, d, rest) {
      AccountRead(src, root, v, before, d, rest);
    }
  }

  lemma FindAccount(src: Source, root: Value) returns (before: Gap, d: Doc)
    requires Succeeds(ReadValue(src, root, 1, 0))
    ensures var r := ReadValue(src, root, 1, 0); Accounts(src, r.value, before, d, src.doc[r.pos..])
  {
    hide ReadValue, Derives, Stands, Levels, Tree;
    var r := ReadValue(src, root, 1, 0);
    before, d := FindDoc(src, root, 1, 0);
    StandsDerives(src.doc, before, d, r.pos);
    ReadsStanding(src, root, 1, 0, before, d, r.pos);
  }

  lemma AccountRead(src: Source, root: Value, v: Value, before: Gap, d: Doc, rest: bytes)
    requires Accounts(src, v, before, d, rest)
    ensures |src.doc| >= |rest| && ReadValue(src, root, 1, 0) == Done(true, v, |src.doc| - |rest|, 0)
  {
    hide ReadValue, Derives, Stands, Levels, Tree;
    var end := DerivesIsStands(src.doc, before, d, rest);
    ReadsStanding(src, root, 1, 0, before, d, end);
  }

  /** Two derivations of one document that have values have the same value, and the same rest behind them. */
  lemma Unambiguous(src: Source, v: Value, g: Gap, d: Doc, rest: bytes, v': Value, g': Gap, d': Doc, rest': bytes)
    requires Accounts(src, v, g, d, rest) && Accounts(src, v', g', d', rest')
    ensures v == v' && rest == rest'
  {
    hide ReadValue, Derives, Accounts;
    AccountRead(src, Null, v, g, d, rest);
    AccountRead(src, Null, v', g', d', rest');
    assert rest == src.doc[|src.doc| - |rest|..] by { RestIs(src, v, g, d, rest); }
    assert rest' == src.doc[|src.doc| - |rest'|..] by { RestIs(src, v', g', d', rest'); }
  }

  lemma RestIs(src: Source, v: Value, g: Gap, d: Doc, rest: bytes)
    requires Accounts(src, v, g, d, rest)
    ensures |rest| <= |src.doc| && rest == src.doc[|src.doc| - |rest|..]
  {
    hide GapText, Text, GapOk, Ok, Ends, Levels, Tree;
  }

  predicate BeginsValue(c: byte) {
    c == 0x7b || c == 0x5b || c == 0x22 || c == 0x2d || 0x30 <= c <= 0x39 || c == 0x74 || c == 0x66 || c == 0x6e
  }

  /** Nothing, or a byte that begins no value, no white space and no comment. */
  predicate BeginsNothing(rest: bytes) {
    || rest == []
    || (!BeginsValue(rest[0]) && !BlankByte(rest[0]) && rest[0] != 0x2f)
    || (rest[0] == 0x2f && (|rest| == 1 || (rest[1] != 0x2f && rest[1] != 0x2a)))
  }

  lemma OtherToken(doc: bytes, p: nat)
    requires p <= |doc| && BeginsNothing(doc[p..])
    ensures NextToken(doc, p).kind in {EndOfStream, Error, ObjectEnd, ArrayEnd, Separator, MemberSeparator}
  {
    var rest := doc[p..];
    assert rest != [] ==> doc[p] == rest[0];
    assert |rest| > 1 ==> doc[p + 1] == rest[1];
    assert SkipSpaces(doc, p) == p;
    hide SkipSpaces, ReadNumber, ReadString;
    assert ReadToken(doc, p).kind in {EndOfStream, Error, ObjectEnd, ArrayEnd, Separator, MemberSeparator};
  }

  /** parse refuses a document whose first byte behind white space and comments begins no value, whatever follows. */
  lemma RefusesOther(src: Source, root: Value, before: Gap, rest: bytes)
    requires GapOk(before) && src.doc == GapText(before) + rest && BeginsNothing(rest)
    ensures var r := Parse(src, root); r.Done? && !r.ok
  {
    hide GapText, GapOk, NextToken, BeginsNothing, ValueOf;
    var p := |GapText(before)|;
    assert At(src.doc, 0, GapText(before));
    assert src.doc[p..] == rest;
    GapSkipped(src.doc, 0, before);
    OtherToken(src.doc, p);
    NoValue(src, root, NextToken(src.doc, 0));
    assert ReadValue(src, root, 1, 0) == ValueOf(src, root, 1, NextToken(src.doc, 0));
  }

  lemma NoValue(src: Source, current: Value, t: Token)
    requires t.start <= t.end <= |src.doc| && (t.kind != EndOfStream ==> t.start < t.end)
    requires t.kind in {EndOfStream, Error, ObjectEnd, ArrayEnd, Separator, MemberSeparator}
    ensures ValueOf(src, current, 1, t) == Done(false, current, t.end, 1)
  {
  }

  /** A document is read to its last byte if it ends behind its text, but for white space and comments. */
  lemma AcceptsDocumentIff(toDouble: bytes -> Option<nat>, before: Gap, d: Doc, after: Gap, root: Value)
    requires Ok(d) && GapOk(before) && GapOk(after)
    ensures
      var doc := GapText(before) + Text(d) + GapText(after);
      var r, v := Parse(Source(doc, toDouble), root), Tree(toDouble, d);
      && (r.Done? && r.ok <==> Levels(d) <= 1000 && v.Some?)
      && (Levels(d) <= 1000 && v.Some? ==> r == Done(true, v.value, |doc|, 0))
  {
    hide ReadValue, NextToken, GapText, GapOk, Text, Ok, Tree, Levels, Derives, Stands;
    var doc := GapText(before) + Text(d) + GapText(after);
    GapEnds(d, after);
    assert Derives(doc, before, d, GapText(after)) by { AssertDerives(before, d, GapText(after)); }
    var end := DerivesIsStands(doc, before, d, GapText(after));
    ReadsStanding(Source(doc, toDouble), root, 1, 0, before, d, end);
    assert At(doc, end, GapText(after));
    GapSkipped(doc, end, after);
    NothingLeft(doc);
  }

  lemma AssertDerives(before: Gap, d: Doc, rest: bytes)
    requires GapOk(before) && Ok(d) && Ends(d, rest)
    ensures Derives(GapText(before) + Text(d) + rest, before, d, rest)
  {
  }

  lemma NothingLeft(doc: bytes)
    ensures NextToken(doc, |doc|).end == |doc|
  {
  }

  lemma GapEnds(d: Doc, after: Gap)
    requires GapOk(after)
    ensures Ends(d, GapText(after))
  {
    if after != [] { GapStarts(after); }
  }
}
