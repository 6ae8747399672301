/**
 Reading back what the styled writer printed: for every writable tree, Reader::parse of toStyledString throws
 exactly when the tree is too deep, and otherwise returns `Back` of the tree, which is the tree itself
 exactly when its strings are well-formed UTF-8 and its integers carry the tag the reader gives.
 */
module JsonRoundTrip {
  import opened Bytes
  import opened JsonValue
  import opened JsonNumber
  import opened JsonText
  import opened JsonReader
  import opened JsonWriter

  // ---- the tree that comes back -------------------------------------------------------

  function Retag(n: int): (v: Value) {
    if n <= MAX_INT32 then Int(n) else UInt(n)
  }

  function Back(v: Value): (r: Value)
    decreases v, 1
  {
    match v
    case Int(i) => Retag(i)
    case UInt(u) => Retag(u)
    case Str(s) => Str(Reread(s))
    case Arr(items) => Arr(BackItems(items))
    case Obj(members) => Obj(BackMembers([], members))
    case _ => v
  }

  function BackItems(items: seq<Value>): (r: seq<Value>)
    ensures |r| == |items|
    decreases items, 0
  {
    if items == [] then [] else [Back(items[0])] + BackItems(items[1..])
  }

  /** Members enter the map one by one under the name that is read. */
  function BackMembers(done: seq<Member>, ms: seq<Member>): (r: seq<Member>)
    decreases ms, 0
  {
    if ms == [] then done
    else BackMembers(Put(done, Reread(ms[0].name), Back(ms[0].value)), ms[1..])
  }

  // ---- which trees the writer may be given ----------------------------------------------

  /** Text the scanner takes as one number token. */
  predicate NumberText(s: bytes) {
    |s| > 0 && (s[0] == MINUS || IsDigit(s[0])) && ReadNumber(s, 1) == |s|
  }

  /** The platform's double printing and parsing are inverse on this double, and the text is no integer. */
  predicate GoodReal(toDouble: bytes -> Option<nat>, fmt: nat -> bytes, image: nat) {
    NumberText(fmt(image)) && DecodeNumber(fmt(image)) == AsDouble && toDouble(fmt(image)) == Some(image)
  }

  /** 64-bit integers, invertible doubles, maps in order; strings are arbitrary bytes. */
  predicate Writable(toDouble: bytes -> Option<nat>, fmt: nat -> bytes, v: Value)
    decreases v, 1
  {
    match v
    case Int(i) => MIN_INT64 <= i <= MAX_INT64
    case UInt(u) => u <= MAX_UINT64
    case Real(image) => GoodReal(toDouble, fmt, image)
    case Arr(items) => forall i :: 0 <= i < |items| ==> Writable(toDouble, fmt, items[i])
    case Obj(ms) =>
      Sorted(ms) && forall i :: 0 <= i < |ms| ==> |ms[i].name| < 0x4000_0000 && Writable(toDouble, fmt, ms[i].value)
    case _ => true
  }

  // ---- white space ---------------------------------------------------------------------

  predicate Spaces(doc: bytes, pos: nat, n: nat) {
    pos + n <= |doc| && forall i :: pos <= i < pos + n ==> IsSpace(doc[i])
  }

  lemma {:induction false} SkipRun(doc: bytes, pos: nat, n: nat)
    requires Spaces(doc, pos, n)
    ensures SkipSpaces(doc, pos) == SkipSpaces(doc, pos + n)
    decreases n
  {
    if n > 0 {
      assert IsSpace(doc[pos]);
      SkipRun(doc, pos + 1, n - 1);
    }
  }

  lemma TokenAfterSpaces(doc: bytes, pos: nat, n: nat)
    requires Spaces(doc, pos, n)
    ensures ReadToken(doc, pos) == ReadToken(doc, pos + n)
    ensures NextToken(doc, pos) == NextToken(doc, pos + n)
  {
    SkipRun(doc, pos, n);
  }

  lemma ValueAfterSpaces(src: Source, current: Value, nodes: nat, pos: nat, n: nat)
    requires Spaces(src.doc, pos, n)
    ensures ReadValue(src, current, nodes, pos) == ReadValue(src, current, nodes, pos + n)
  {
    hide NextToken, ValueOf;
    TokenAfterSpaces(src.doc, pos, n);
  }

  lemma {:induction false} TabsAreSpaces(n: nat)
    ensures forall i :: 0 <= i < n ==> IsSpace(Tabs(n)[i])
  {
    if n > 0 { TabsAreSpaces(n - 1); }
  }

  lemma NewLineIsSpaces(doc: bytes, pos: nat, n: nat)
    requires At(doc, pos, NewLine(n))
    ensures Spaces(doc, pos, n + 1)
  {
    TabsAreSpaces(n);
    var w := NewLine(n);
    assert forall i :: 0 <= i < |w| ==> IsSpace(w[i]);
    forall i | pos <= i < pos + n + 1 ensures IsSpace(doc[i]) {
      AtIndex(doc, pos, w, i - pos);
    }
  }

  // ---- single tokens ------------------------------------------------------------------

  /** Characters a number can go on with. */
  predicate NumberChar(c: byte) {
    IsDigit(c) || c == 0x2e || c == 0x65 || c == 0x45 || c == 0x2b || c == 0x2d
  }

  /** What may follow a value: nothing, or a character no number goes on with. */
  predicate Delimited(doc: bytes, pos: nat) {
    pos <= |doc| && (pos == |doc| || !NumberChar(doc[pos]))
  }

  lemma {:induction false} DigitsLocal(doc: bytes, pos: nat, s: bytes, k: nat)
    requires At(doc, pos, s) && Delimited(doc, pos + |s|) && k <= |s|
    ensures SkipDigits(doc, pos + k) == pos + SkipDigits(s, k)
    decreases |s| - k
  {
    if k < |s| {
      AtIndex(doc, pos, s, k);
      if IsDigit(s[k]) { DigitsLocal(doc, pos, s, k + 1); }
    }
  }

  lemma FractionLocal(doc: bytes, pos: nat, s: bytes, k: nat)
    requires At(doc, pos, s) && Delimited(doc, pos + |s|) && k <= |s|
    ensures ReadFraction(doc, pos + k) == pos + ReadFraction(s, k)
  {
    if k < |s| {
      AtIndex(doc, pos, s, k);
      DigitsLocal(doc, pos, s, k + 1);
    }
  }

  lemma ExponentLocal(doc: bytes, pos: nat, s: bytes, k: nat)
    requires At(doc, pos, s) && Delimited(doc, pos + |s|) && k <= |s|
    ensures ReadExponent(doc, pos + k) == pos + ReadExponent(s, k)
  {
    if k < |s| {
      AtIndex(doc, pos, s, k);
      DigitsLocal(doc, pos, s, k + 1);
      if k + 1 < |s| {
        AtIndex(doc, pos, s, k + 1);
        DigitsLocal(doc, pos, s, k + 2);
      }
    }
  }

  /** A number text followed by a delimiter is scanned as exactly one number token. */
  lemma NumberToken(doc: bytes, pos: nat, s: bytes)
    requires At(doc, pos, s) && Delimited(doc, pos + |s|) && NumberText(s)
    ensures ReadToken(doc, pos) == Token(Number, pos, pos + |s|)
    ensures doc[pos..pos + |s|] == s
  {
    hide ReadNumber, At;
    AtIndex(doc, pos, s, 0);
    NumberLocal(doc, pos, s, 1);
    assert SkipSpaces(doc, pos) == pos;
    AtSlice(doc, pos, s);
  }

  lemma AtSlice(doc: bytes, pos: nat, s: bytes)
    requires At(doc, pos, s)
    ensures doc[pos..pos + |s|] == s
  {
  }

  lemma NumberLocal(doc: bytes, pos: nat, s: bytes, k: nat)
    requires At(doc, pos, s) && Delimited(doc, pos + |s|) && k <= |s|
    ensures ReadNumber(doc, pos + k) == pos + ReadNumber(s, k)
  {
    hide At, ReadFraction, ReadExponent, SkipDigits;
    DigitsLocal(doc, pos, s, k);
    FractionLocal(doc, pos, s, SkipDigits(s, k));
    ExponentLocal(doc, pos, s, ReadFraction(s, SkipDigits(s, k)));
  }

  lemma {:induction false} AllDigitsSkipped(s: bytes, k: nat)
    requires k <= |s| && forall i :: k <= i < |s| ==> IsDigit(s[i])
    ensures SkipDigits(s, k) == |s|
    decreases |s| - k
  {
    if k < |s| { AllDigitsSkipped(s, k + 1); }
  }

  lemma IntTextIsNumber(n: int)
    ensures NumberText(IntText(n))
  {
    var s := IntText(n);
    if n >= 0 { assert IsDigit(Digits(n)[0]); }
    AllDigitsSkipped(s, 1);
  }

  lemma StringToken(doc: bytes, pos: nat, s: bytes)
    requires At(doc, pos, Quote(s))
    ensures |Quote(s)| >= 2 && pos + |Quote(s)| <= |doc|
    ensures ReadToken(doc, pos) == Token(String, pos, pos + |Quote(s)|)
    ensures Decode(doc, pos + 1, pos + |Quote(s)| - 1) == Some(Reread(s))
  {
    hide Quote, ReadString, Decode, Reread;
    QuotedReadsBack(doc, pos, s);
    assert SkipSpaces(doc, pos) == pos;
  }

  /** A single punctuation character is its own token. */
  lemma CharToken(doc: bytes, pos: nat, c: byte, kind: TokenType)
    requires pos < |doc| && doc[pos] == c
    requires
      || (c == 0x7b && kind == ObjectBegin) || (c == 0x7d && kind == ObjectEnd)
      || (c == 0x5b && kind == ArrayBegin) || (c == 0x5d && kind == ArrayEnd)
      || (c == COMMA && kind == Separator) || (c == 0x3a && kind == MemberSeparator)
    ensures ReadToken(doc, pos) == NextToken(doc, pos) == Token(kind, pos, pos + 1)
  {
    assert SkipSpaces(doc, pos) == pos;
  }

  /** The first character of a literal, its rest and its token. */
  predicate IsLiteral(c: byte, rest: bytes, kind: TokenType) {
    || (c == 0x74 && rest == RUE && kind == True)
    || (c == 0x66 && rest == ALSE && kind == False)
    || (c == 0x6e && rest == ULL && kind == NullToken)
  }

  lemma LiteralToken(doc: bytes, pos: nat, c: byte, rest: bytes, kind: TokenType)
    requires At(doc, pos, [c] + rest)
    requires IsLiteral(c, rest, kind)
    ensures ReadToken(doc, pos) == Token(kind, pos, pos + 1 + |rest|)
  {
    AtSplit(doc, pos, [c], rest);
    AtIndex(doc, pos, [c], 0);
    assert SkipSpaces(doc, pos) == pos;
  }

  /** A closing bracket on its own line is the next token, whichever way it is read. */
  lemma CloseToken(doc: bytes, pos: nat, indent: nat, c: byte, kind: TokenType)
    requires At(doc, pos, Close(indent, c))
    requires (c == 0x7d && kind == ObjectEnd) || (c == 0x5d && kind == ArrayEnd)
    ensures pos + indent + 2 <= |doc| && Delimited(doc, pos)
    ensures ReadToken(doc, pos) == NextToken(doc, pos) == Token(kind, pos + indent + 1, pos + indent + 2)
  {
    hide At, ReadToken, NextToken, Spaces;
    AtSplit(doc, pos, NewLine(indent), [c]);
    AtIndex(doc, pos, NewLine(indent), 0);
    AtIndex(doc, pos + indent + 1, [c], 0);
    NewLineIsSpaces(doc, pos, indent);
    TokenAfterSpaces(doc, pos, indent + 1);
    CharToken(doc, pos + indent + 1, c, kind);
  }

  // ---- one step of each reading function -------------------------------------------------

  lemma LiteralStep(src: Source, current: Value, nodes: nat, pos: nat, c: byte, rest: bytes, kind: TokenType)
    requires nodes <= STACK_LIMIT && At(src.doc, pos, [c] + rest)
    requires IsLiteral(c, rest, kind)
    ensures
      ReadValue(src, current, nodes, pos) ==
      Done(true, if kind == True then Bool(true) else if kind == False then Bool(false) else Null, pos + 1 + |rest|, 0)
  {
    hide At, ReadToken;
    LiteralToken(src.doc, pos, c, rest, kind);
  }

  lemma StringStep(src: Source, current: Value, nodes: nat, pos: nat, s: bytes)
    requires nodes <= STACK_LIMIT && At(src.doc, pos, Quote(s))
    ensures ReadValue(src, current, nodes, pos) == Done(true, Str(Reread(s)), pos + |Quote(s)|, 0)
  {
    hide At, ReadToken, Quote, Reread, Decode;
    StringToken(src.doc, pos, s);
  }

  lemma ArrayStep(src: Source, current: Value, nodes: nat, pos: nat, t: Token)
    requires pos <= |src.doc| && nodes <= STACK_LIMIT && NextToken(src.doc, pos) == t && t.kind == ArrayBegin
    requires var p := SkipSpaces(src.doc, t.end); p < |src.doc| && src.doc[p] != 0x5d
    ensures ReadValue(src, current, nodes, pos) == ReadItems(src, [], nodes, SkipSpaces(src.doc, t.end))
  {
    hide NextToken, ReadItems, SkipSpaces;
  }

  lemma EmptyArrayStep(src: Source, current: Value, nodes: nat, pos: nat, t: Token)
    requires pos <= |src.doc| && nodes <= STACK_LIMIT && NextToken(src.doc, pos) == t && t.kind == ArrayBegin
    requires t.end < |src.doc| && src.doc[t.end] == 0x5d
    ensures ReadValue(src, current, nodes, pos) == Done(true, Arr([]), t.end + 1, 0)
  {
    hide NextToken, ReadItems;
    assert SkipSpaces(src.doc, t.end) == t.end;
    CharToken(src.doc, t.end, 0x5d, ArrayEnd);
  }

  lemma ObjectStep(src: Source, current: Value, nodes: nat, pos: nat, t: Token)
    requires pos <= |src.doc| && nodes <= STACK_LIMIT && NextToken(src.doc, pos) == t && t.kind == ObjectBegin
    ensures ReadValue(src, current, nodes, pos) == ReadMembers(src, [], [], nodes, t.end)
  {
    hide NextToken, ReadMembers;
  }

  lemma EmptyObjectStep(src: Source, nodes: nat, pos: nat)
    requires pos < |src.doc| && src.doc[pos] == 0x7d
    ensures ReadMembers(src, [], [], nodes, pos) == Done(true, Obj([]), pos + 1, 0)
  {
    hide ReadToken, ReadValue;
    CharToken(src.doc, pos, 0x7d, ObjectEnd);
  }

  lemma ItemStep(src: Source, items: seq<Value>, nodes: nat, pos: nat, element: Result, t: Token)
    requires pos <= |src.doc| && element == ReadValue(src, Null, nodes + 1, pos)
    requires element.Done? ==> element.ok && t == NextToken(src.doc, element.pos) && t.kind in {ArrayEnd, Separator}
    ensures
      ReadItems(src, items, nodes, pos) ==
      if element.Thrown? then Thrown
      else if t.kind == ArrayEnd then Done(true, Arr(items + [element.value]), t.end, 0)
      else ReadItems(src, items + [element.value], nodes, t.end)
  {
    hide NextToken, ReadValue;
  }

  lemma MemberStep(
    src: Source, ms: seq<Member>, name: bytes, nodes: nat, pos: nat, nameToken: Token, next: bytes, colon: Token,
    element: Result, t: Token)
    requires pos <= |src.doc| && NextToken(src.doc, pos) == nameToken && nameToken.kind == String
    requires Decode(src.doc, nameToken.start + 1, nameToken.end - 1) == Some(next)
    requires ReadToken(src.doc, nameToken.end) == colon && colon.kind == MemberSeparator
    requires element == ReadValue(src, Lookup(ms, next), nodes + 1, colon.end)
    requires element.Done? ==> element.ok && t == ReadToken(src.doc, element.pos) && t.kind in {ObjectEnd, Separator}
    ensures
      ReadMembers(src, ms, name, nodes, pos) ==
      if element.Thrown? then Thrown
      else if t.kind == ObjectEnd then Done(true, Obj(Put(ms, next, element.value)), t.end, 0)
      else ReadMembers(src, Put(ms, next, element.value), next, nodes, t.end)
  {
    hide NextToken, ReadToken, ReadValue, Decode, Put, Lookup;
    assert ReadMembers(src, ms, name, nodes, pos) == MemberTail(src, ms, next, nodes, colon.end);
  }

  // ---- values ---------------------------------------------------------------------------

  lemma ReadsNumber(src: Source, current: Value, nodes: nat, pos: nat, s: bytes)
    requires nodes <= STACK_LIMIT
    requires At(src.doc, pos, s) && Delimited(src.doc, pos + |s|) && NumberText(s)
    ensures
      match DecodeNumber(s)
      case Signed(i) => ReadValue(src, current, nodes, pos) == Done(true, Int(i), pos + |s|, 0)
      case Unsigned(u) => ReadValue(src, current, nodes, pos) == Done(true, UInt(u), pos + |s|, 0)
      case AsDouble => src.toDouble(s).Some? ==>
        ReadValue(src, current, nodes, pos) == Done(true, Real(src.toDouble(s).value), pos + |s|, 0)
  {
    hide ReadToken, ReadNumber, DecodeNumber;
    NumberToken(src.doc, pos, s);
  }

  /** A written scalar is read back as the value it stands for. */
  lemma ReadsScalar(src: Source, fmt: nat -> bytes, v: Value, current: Value, nodes: nat, pos: nat)
    requires IsScalar(v) && Writable(src.toDouble, fmt, v) && nodes <= STACK_LIMIT
    requires At(src.doc, pos, ScalarText(fmt, v)) && Delimited(src.doc, pos + |ScalarText(fmt, v)|)
    ensures ReadValue(src, current, nodes, pos) == Done(true, Back(v), pos + |ScalarText(fmt, v)|, 0)
  {
    hide At, ReadValue, Decode, Quote, DecodeNumber, IntText, NumberText, Reread, Delimited;
    match v
    case Null =>
      assert NULL_TEXT == [0x6e] + ULL;
      LiteralStep(src, current, nodes, pos, 0x6e, ULL, NullToken);
    case Bool(b) =>
      assert TRUE_TEXT == [0x74] + RUE && FALSE_TEXT == [0x66] + ALSE;
      if b {
        LiteralStep(src, current, nodes, pos, 0x74, RUE, True);
      } else {
        LiteralStep(src, current, nodes, pos, 0x66, ALSE, False);
      }
    case Int(i) => ReadsInteger(src, current, nodes, pos, i);
    case UInt(u) => ReadsInteger(src, current, nodes, pos, u);
    case Real(image) => ReadsNumber(src, current, nodes, pos, fmt(image));
    case Str(s) => StringStep(src, current, nodes, pos, s);
  }

  lemma ReadsInteger(src: Source, current: Value, nodes: nat, pos: nat, n: int)
    requires nodes <= STACK_LIMIT && MIN_INT64 <= n <= MAX_UINT64
    requires At(src.doc, pos, IntText(n)) && Delimited(src.doc, pos + |IntText(n)|)
    ensures ReadValue(src, current, nodes, pos) == Done(true, Retag(n), pos + |IntText(n)|, 0)
  {
    hide At, ReadValue, DecodeNumber, IntText, NumberText, Delimited;
    IntTextIsNumber(n);
    DecodeInvertsPrint(n);
    ReadsNumber(src, current, nodes, pos, IntText(n));
  }

  /** Outcome of reading text at nesting `nodes` whose deepest level is `depth` levels below. */
  function Expected(nodes: nat, depth: nat, v: Value, pos: nat): (r: Result) {
    if nodes + depth <= STACK_LIMIT then Done(true, v, pos, 0) else Thrown
  }

  /**
   Wherever the text of a writable value stands, followed by a delimiter, readValue consumes exactly that
   text and returns the value that comes back, unless the nesting limit is passed.
   */
  lemma {:induction false} ReadsValue(
    src: Source, fmt: nat -> bytes, v: Value, indent: nat, indented: bool, current: Value, nodes: nat, pos: nat)
    requires Writable(src.toDouble, fmt, v) && nodes >= 1
    requires At(src.doc, pos, Write(fmt, v, indent, indented))
      && Delimited(src.doc, pos + |Write(fmt, v, indent, indented)|)
    ensures
      ReadValue(src, current, nodes, pos) ==
      Expected(nodes, Depth(v) - 1, Back(v), pos + |Write(fmt, v, indent, indented)|)
    decreases v, 3
  {
    hide At, Write, ReadItems, ReadMembers, NextToken, NumberValue, BackItems, BackMembers;
    if nodes <= STACK_LIMIT {
      match v
      case Arr(items) => ReadsArray(src, fmt, items, indent, indented, current, nodes, pos);
      case Obj(members) => ReadsObject(src, fmt, members, indent, indented, current, nodes, pos);
      case _ =>
        ScalarWrite(fmt, v, indent, indented);
        ReadsScalar(src, fmt, v, current, nodes, pos);
    }
  }

  lemma ScalarWrite(fmt: nat -> bytes, v: Value, indent: nat, indented: bool)
    requires IsScalar(v)
    ensures Write(fmt, v, indent, indented) == ScalarText(fmt, v) && Depth(v) == 1
  {
  }

  /** An opening bracket, with or without a line break before it. */
  lemma OpenToken(doc: bytes, pos: nat, indent: nat, indented: bool, c: byte, kind: TokenType)
    requires At(doc, pos, Open(indent, indented, c))
    requires (c == 0x7b && kind == ObjectBegin) || (c == 0x5b && kind == ArrayBegin)
    ensures
      var end := pos + |Open(indent, indented, c)|;
      end <= |doc| && NextToken(doc, pos) == Token(kind, end - 1, end)
  {
    hide At, ReadToken, NextToken, NewLine, Spaces;
    if indented {
      assert Open(indent, indented, c) == [c];
      AtIndex(doc, pos, [c], 0);
      CharToken(doc, pos, c, kind);
    } else {
      AtSplit(doc, pos, NewLine(indent), [c]);
      AtIndex(doc, pos + indent + 1, [c], 0);
      NewLineIsSpaces(doc, pos, indent);
      TokenAfterSpaces(doc, pos, indent + 1);
      CharToken(doc, pos + indent + 1, c, kind);
    }
  }

  /**
   The text of a value written where the line is already indented starts with a character that is neither space nor
   ']'.
   */
  lemma FirstChar(toDouble: bytes -> Option<nat>, fmt: nat -> bytes, v: Value, indent: nat)
    requires Writable(toDouble, fmt, v)
    ensures var w := Write(fmt, v, indent, true); |w| > 0 && !IsSpace(w[0]) && w[0] != 0x5d
  {
    hide Quote, Reread, WriteItems, WriteMembers, IntText;
    match v
    case Int(i) => IntTextIsNumber(i);
    case UInt(u) => IntTextIsNumber(u);
    case Str(s) => QuoteIsEscape(s);
    case _ =>
  }

  lemma {:induction false} ReadsArray(
    src: Source, fmt: nat -> bytes, items: seq<Value>, indent: nat, indented: bool, current: Value, nodes: nat,
    pos: nat)
    requires Writable(src.toDouble, fmt, Arr(items)) && 1 <= nodes <= STACK_LIMIT
    requires At(src.doc, pos, Write(fmt, Arr(items), indent, indented))
    ensures
      ReadValue(src, current, nodes, pos) ==
      Expected(nodes, ItemsDepth(items), Arr(BackItems(items)), pos + |Write(fmt, Arr(items), indent, indented)|)
    decreases items, 2
  {
    hide At, ReadValue, ReadItems, WriteItems, ReadToken, NextToken, NewLine, Close, Open, Writable, BackItems, Spaces;
    var doc := src.doc;
    if items == [] {
      AtIndex(doc, pos, [0x5b, 0x5d], 0);
      AtIndex(doc, pos, [0x5b, 0x5d], 1);
      CharToken(doc, pos, 0x5b, ArrayBegin);
      EmptyArrayStep(src, current, nodes, pos, Token(ArrayBegin, pos, pos + 1));
      assert BackItems(items) == [];
    } else {
      var open, line := Open(indent, indented, 0x5b), NewLine(indent + 1);
      var body := WriteItems(fmt, items, indent + 1) + Close(indent, 0x5d);
      var p1 := pos + |open|;
      var p2 := p1 + indent + 2;
      AtSplit(doc, pos, open + line, body);
      AtSplit(doc, pos, open, line);
      OpenToken(doc, pos, indent, indented, 0x5b, ArrayBegin);
      NewLineIsSpaces(doc, p1, indent + 1);
      SkipRun(doc, p1, indent + 2);
      assert Writable(src.toDouble, fmt, items[0]) by { WritableItems(src.toDouble, fmt, items); }
      ItemsStart(src.toDouble, fmt, items, indent + 1, doc, p2, Close(indent, 0x5d));
      assert SkipSpaces(doc, p2) == p2;
      WritableItems(src.toDouble, fmt, items);
      ReadsItems(src, fmt, items, indent, [], nodes, p2);
      ArrayStep(src, current, nodes, pos, Token(ArrayBegin, p1 - 1, p1));
      assert [] + BackItems(items) == BackItems(items);
    }
  }

  lemma WritableItems(toDouble: bytes -> Option<nat>, fmt: nat -> bytes, items: seq<Value>)
    requires Writable(toDouble, fmt, Arr(items))
    ensures forall i :: 0 <= i < |items| ==> Writable(toDouble, fmt, items[i])
  {
  }

  lemma ItemsStart(
    toDouble: bytes -> Option<nat>, fmt: nat -> bytes, items: seq<Value>, indent: nat, doc: bytes, pos: nat,
    tail: bytes)
    requires items != [] && Writable(toDouble, fmt, items[0])
    requires At(doc, pos, WriteItems(fmt, items, indent) + tail)
    ensures pos < |doc| && !IsSpace(doc[pos]) && doc[pos] != 0x5d
  {
    hide Write, Writable;
    FirstChar(toDouble, fmt, items[0], indent);
    var w := WriteItems(fmt, items, indent) + tail;
    AtIndex(doc, pos, w, 0);
    assert w[0] == Write(fmt, items[0], indent, true)[0];
  }

  lemma NoItems(items: seq<Value>)
    requires |items| == 0
    ensures ItemsDepth(items) == 0 && BackItems(items) == []
  {
  }

  lemma ConsItems(fmt: nat -> bytes, items: seq<Value>, indent: nat)
    requires items != []
    ensures
      WriteItems(fmt, items, indent) ==
      Write(fmt, items[0], indent, true)
        + (if |items| == 1 then [] else Separation(indent) + WriteItems(fmt, items[1..], indent))
    ensures BackItems(items) == [Back(items[0])] + BackItems(items[1..])
    ensures ItemsDepth(items) == Max(Depth(items[0]), ItemsDepth(items[1..]))
  {
  }

  /** readArray's loop from an item on: the remaining items are read in order up to the closing bracket. */
  lemma {:induction false} ReadsItems(
    src: Source, fmt: nat -> bytes, items: seq<Value>, indent: nat, done: seq<Value>, nodes: nat, pos: nat)
    requires items != [] && 1 <= nodes <= STACK_LIMIT
    requires forall i :: 0 <= i < |items| ==> Writable(src.toDouble, fmt, items[i])
    requires At(src.doc, pos, WriteItems(fmt, items, indent + 1) + Close(indent, 0x5d))
    ensures
      ReadItems(src, done, nodes, pos) ==
      Expected(nodes, ItemsDepth(items), Arr(done + BackItems(items)),
               pos + |WriteItems(fmt, items, indent + 1)| + indent + 2)
    decreases items, 1
  {
    hide At, Write, WriteItems, Back, BackItems, Depth, ItemsDepth, ReadItems, ReadToken, NextToken, Close, Writable;
    hide Separation, Spaces, Delimited;
    ConsItems(fmt, items, indent + 1);
    var doc := src.doc;
    var first := Write(fmt, items[0], indent + 1, true);
    var p1 := pos + |first|;
    if |items| == 1 {
      ReadsLastItem(src, fmt, items, indent, done, nodes, pos);
    } else {
      var more := done + [Back(items[0])];
      var rest, close := WriteItems(fmt, items[1..], indent + 1), Close(indent, 0x5d);
      AtThree(doc, pos, first, Separation(indent + 1), rest, close);
      SeparationToken(doc, p1, indent + 1);
      ReadsItem(src, fmt, items[0], indent, done, nodes, pos, Token(Separator, p1, p1 + 1));
      ReadsItems(src, fmt, items[1..], indent, more, nodes, p1 + indent + 3);
      ItemsAfterSpaces(src, more, nodes, p1 + 1, indent + 2);
      SeqAssoc(done, [Back(items[0])], BackItems(items[1..]));
    }
  }

  lemma SeqAssoc<T>(a: seq<T>, b: seq<T>, c: seq<T>)
    ensures (a + b) + c == a + (b + c)
  {
  }

  lemma AtThree(doc: bytes, pos: nat, first: bytes, separation: bytes, rest: bytes, close: bytes)
    requires At(doc, pos, (first + (separation + rest)) + close)
    ensures At(doc, pos, first) && At(doc, pos + |first|, separation)
      && At(doc, pos + |first| + |separation|, rest + close)
  {
    hide At;
    assert (first + (separation + rest)) + close == first + (separation + (rest + close));
    AtSplit(doc, pos, first, separation + (rest + close));
    AtSplit(doc, pos + |first|, separation, rest + close);
  }

  lemma {:induction false} ReadsLastItem(
    src: Source, fmt: nat -> bytes, items: seq<Value>, indent: nat, done: seq<Value>, nodes: nat, pos: nat)
    requires |items| == 1 && 1 <= nodes <= STACK_LIMIT && Writable(src.toDouble, fmt, items[0])
    requires At(src.doc, pos, WriteItems(fmt, items, indent + 1) + Close(indent, 0x5d))
    ensures
      ReadItems(src, done, nodes, pos) ==
      Expected(nodes, ItemsDepth(items), Arr(done + BackItems(items)),
               pos + |WriteItems(fmt, items, indent + 1)| + indent + 2)
    decreases items, 0
  {
    hide At, Write, WriteItems, Back, BackItems, Depth, ItemsDepth, ReadItems, ReadToken, NextToken, Close, Writable;
    hide Delimited;
    var first := Write(fmt, items[0], indent + 1, true);
    var p1 := pos + |first|;
    ConsItems(fmt, items, indent + 1);
    NoItems(items[1..]);
    assert WriteItems(fmt, items, indent + 1) == first && BackItems(items) == [Back(items[0])];
    AtSplit(src.doc, pos, first, Close(indent, 0x5d));
    CloseToken(src.doc, p1, indent, 0x5d, ArrayEnd);
    ReadsItem(src, fmt, items[0], indent, done, nodes, pos, Token(ArrayEnd, p1 + indent + 1, p1 + indent + 2));
  }

  /** One round of readArray's loop over a written item, up to the token `t` after it. */
  lemma {:induction false} ReadsItem(
    src: Source, fmt: nat -> bytes, v: Value, indent: nat, done: seq<Value>, nodes: nat, pos: nat, t: Token)
    requires Writable(src.toDouble, fmt, v) && 1 <= nodes <= STACK_LIMIT
    requires At(src.doc, pos, Write(fmt, v, indent + 1, true))
    requires
      var end := pos + |Write(fmt, v, indent + 1, true)|;
      Delimited(src.doc, end) && NextToken(src.doc, end) == t && t.kind in {ArrayEnd, Separator}
    ensures
      ReadItems(src, done, nodes, pos) ==
      if nodes + Depth(v) > STACK_LIMIT then Thrown
      else if t.kind == ArrayEnd then Done(true, Arr(done + [Back(v)]), t.end, 0)
      else ReadItems(src, done + [Back(v)], nodes, t.end)
    decreases v, 4
  {
    hide At, Write, Back, Depth, ReadValue, ReadItems, NextToken, Writable, Delimited;
    ReadsValue(src, fmt, v, indent + 1, true, Null, nodes + 1, pos);
    ItemStep(src, done, nodes, pos, ReadValue(src, Null, nodes + 1, pos), t);
  }

  lemma ItemsAfterSpaces(src: Source, items: seq<Value>, nodes: nat, pos: nat, n: nat)
    requires Spaces(src.doc, pos, n)
    ensures ReadItems(src, items, nodes, pos) == ReadItems(src, items, nodes, pos + n)
  {
    hide ReadValue, ReadToken, NextToken;
    ValueAfterSpaces(src, Null, nodes + 1, pos, n);
  }

  lemma SeparationToken(doc: bytes, pos: nat, indent: nat)
    requires At(doc, pos, Separation(indent))
    ensures Delimited(doc, pos) && Spaces(doc, pos + 1, indent + 1)
    ensures ReadToken(doc, pos) == NextToken(doc, pos) == Token(Separator, pos, pos + 1)
  {
    AtSplit(doc, pos, [COMMA], NewLine(indent));
    AtIndex(doc, pos, [COMMA], 0);
    CharToken(doc, pos, COMMA, Separator);
    NewLineIsSpaces(doc, pos + 1, indent);
  }

  lemma {:induction false} ReadsObject(
    src: Source, fmt: nat -> bytes, ms: seq<Member>, indent: nat, indented: bool, current: Value, nodes: nat,
    pos: nat)
    requires Writable(src.toDouble, fmt, Obj(ms)) && 1 <= nodes <= STACK_LIMIT
    requires At(src.doc, pos, Write(fmt, Obj(ms), indent, indented))
    ensures
      ReadValue(src, current, nodes, pos) ==
      Expected(nodes, MembersDepth(ms), Obj(BackMembers([], ms)), pos + |Write(fmt, Obj(ms), indent, indented)|)
    decreases ms, 2
  {
    hide At, ReadValue, WriteMembers, ReadMembers, ReadToken, NextToken, NewLine, Close, Open, Writable, Spaces;
    var doc := src.doc;
    if ms == [] {
      AtIndex(doc, pos, [0x7b, 0x7d], 0);
      AtIndex(doc, pos, [0x7b, 0x7d], 1);
      CharToken(doc, pos, 0x7b, ObjectBegin);
      ObjectStep(src, current, nodes, pos, Token(ObjectBegin, pos, pos + 1));
      EmptyObjectStep(src, nodes, pos + 1);
    } else {
      var open, line := Open(indent, indented, 0x7b), NewLine(indent + 1);
      var body := WriteMembers(fmt, ms, indent + 1) + Close(indent, 0x7d);
      var p1 := pos + |open|;
      AtSplit(doc, pos, open + line, body);
      AtSplit(doc, pos, open, line);
      OpenToken(doc, pos, indent, indented, 0x7b, ObjectBegin);
      NewLineIsSpaces(doc, p1, indent + 1);
      MembersAfterSpaces(src, [], [], nodes, p1, indent + 2);
      WritableMembers(src.toDouble, fmt, ms);
      ReadsMembers(src, fmt, ms, indent, [], [], nodes, p1 + indent + 2);
      ObjectStep(src, current, nodes, pos, Token(ObjectBegin, p1 - 1, p1));
    }
  }

  lemma WritableMembers(toDouble: bytes -> Option<nat>, fmt: nat -> bytes, ms: seq<Member>)
    requires Writable(toDouble, fmt, Obj(ms))
    ensures forall i :: 0 <= i < |ms| ==> Writable(toDouble, fmt, ms[i].value)
  {
  }

  lemma MembersAfterSpaces(src: Source, ms: seq<Member>, name: bytes, nodes: nat, pos: nat, n: nat)
    requires Spaces(src.doc, pos, n)
    ensures ReadMembers(src, ms, name, nodes, pos) == ReadMembers(src, ms, name, nodes, pos + n)
  {
    hide NextToken, MemberRound;
    TokenAfterSpaces(src.doc, pos, n);
  }

  /** A member's name and colon: the name token, its decoding, the colon token and the space after it. */
  lemma NameAndColon(doc: bytes, pos: nat, name: bytes, text: bytes)
    requires At(doc, pos, Quote(name) + (COLON + text))
    ensures |Quote(name)| >= 2 && pos + |Quote(name)| + 3 <= |doc|
    ensures
      var p := pos + |Quote(name)|;
      && NextToken(doc, pos) == Token(String, pos, p)
      && Decode(doc, pos + 1, p - 1) == Some(Reread(name))
      && ReadToken(doc, p) == Token(MemberSeparator, p + 1, p + 2)
      && Spaces(doc, p + 2, 1)
      && At(doc, p + 3, text)
  {
    hide Quote, ReadString, Decode, Reread, At, ReadToken;
    var p := pos + |Quote(name)|;
    AtSplit(doc, pos, Quote(name), COLON + text);
    AtSplit(doc, p, COLON, text);
    StringToken(doc, pos, name);
    AtIndex(doc, p, COLON, 0);
    AtIndex(doc, p, COLON, 1);
    AtIndex(doc, p, COLON, 2);
    TokenAfterSpaces(doc, p, 1);
    CharToken(doc, p + 1, 0x3a, MemberSeparator);
  }

  lemma NoMembers(done: seq<Member>, ms: seq<Member>)
    requires |ms| == 0
    ensures MembersDepth(ms) == 0 && BackMembers(done, ms) == done
  {
  }

  lemma ConsMembers(fmt: nat -> bytes, done: seq<Member>, ms: seq<Member>, indent: nat)
    requires ms != []
    ensures
      WriteMembers(fmt, ms, indent) ==
      WriteMember(fmt, ms[0], indent)
        + (if |ms| == 1 then [] else Separation(indent) + WriteMembers(fmt, ms[1..], indent))
    ensures BackMembers(done, ms) == BackMembers(Put(done, Reread(ms[0].name), Back(ms[0].value)), ms[1..])
    ensures MembersDepth(ms) == Max(Depth(ms[0].value), MembersDepth(ms[1..]))
  {
  }

  lemma {:induction false} ReadsLastMember(
    src: Source, fmt: nat -> bytes, ms: seq<Member>, indent: nat, done: seq<Member>, name: bytes, nodes: nat,
    pos: nat)
    requires |ms| == 1 && 1 <= nodes <= STACK_LIMIT && Writable(src.toDouble, fmt, ms[0].value)
    requires At(src.doc, pos, WriteMembers(fmt, ms, indent + 1) + Close(indent, 0x7d))
    ensures
      ReadMembers(src, done, name, nodes, pos) ==
      Expected(nodes, MembersDepth(ms), Obj(BackMembers(done, ms)),
               pos + |WriteMembers(fmt, ms, indent + 1)| + indent + 2)
    decreases ms, 0
  {
    hide At, WriteMember, WriteMembers, Back, BackMembers, Depth, MembersDepth, ReadMembers, ReadToken, NextToken;
    hide Close, Writable, Reread, Put, Delimited;
    var first := WriteMember(fmt, ms[0], indent + 1);
    var p1 := pos + |first|;
    ConsMembers(fmt, done, ms, indent + 1);
    NoMembers(Put(done, Reread(ms[0].name), Back(ms[0].value)), ms[1..]);
    assert WriteMembers(fmt, ms, indent + 1) == first;
    AtSplit(src.doc, pos, first, Close(indent, 0x7d));
    CloseToken(src.doc, p1, indent, 0x7d, ObjectEnd);
    ReadsMember(src, fmt, ms[0], indent, done, name, nodes, pos, Token(ObjectEnd, p1 + indent + 1, p1 + indent + 2));
  }

  /** readObject's loop from a member on. */
  lemma {:induction false} ReadsMembers(
    src: Source, fmt: nat -> bytes, ms: seq<Member>, indent: nat, done: seq<Member>, name: bytes, nodes: nat,
    pos: nat)
    requires ms != [] && 1 <= nodes <= STACK_LIMIT
    requires forall i :: 0 <= i < |ms| ==> Writable(src.toDouble, fmt, ms[i].value)
    requires At(src.doc, pos, WriteMembers(fmt, ms, indent + 1) + Close(indent, 0x7d))
    ensures
      ReadMembers(src, done, name, nodes, pos) ==
      Expected(nodes, MembersDepth(ms), Obj(BackMembers(done, ms)),
               pos + |WriteMembers(fmt, ms, indent + 1)| + indent + 2)
    decreases ms, 1
  {
    hide At, WriteMember, WriteMembers, Back, BackMembers, Depth, MembersDepth, ReadMembers, ReadToken, NextToken;
    hide Close, Writable, Separation, Reread, Put, Spaces, Delimited;
    ConsMembers(fmt, done, ms, indent + 1);
    var doc, m, first := src.doc, ms[0], WriteMember(fmt, ms[0], indent + 1);
    var p1 := pos + |first|;
    if |ms| == 1 {
      ReadsLastMember(src, fmt, ms, indent, done, name, nodes, pos);
    } else {
      var next := Reread(m.name);
      var more := Put(done, next, Back(m.value));
      var rest, close := WriteMembers(fmt, ms[1..], indent + 1), Close(indent, 0x7d);
      AtThree(doc, pos, first, Separation(indent + 1), rest, close);
      SeparationToken(doc, p1, indent + 1);
      ReadsMember(src, fmt, m, indent, done, name, nodes, pos, Token(Separator, p1, p1 + 1));
      ReadsMembers(src, fmt, ms[1..], indent, more, next, nodes, p1 + indent + 3);
      MembersAfterSpaces(src, more, next, nodes, p1 + 1, indent + 2);
    }
  }

  /** One round of readObject's loop over a written member, up to the token `t` after it. */
  lemma {:induction false} ReadsMember(
    src: Source, fmt: nat -> bytes, m: Member, indent: nat, done: seq<Member>, name: bytes, nodes: nat, pos: nat,
    t: Token)
    requires Writable(src.toDouble, fmt, m.value) && 1 <= nodes <= STACK_LIMIT
    requires At(src.doc, pos, WriteMember(fmt, m, indent + 1))
    requires
      var end := pos + |WriteMember(fmt, m, indent + 1)|;
      Delimited(src.doc, end) && ReadToken(src.doc, end) == t && t.kind in {ObjectEnd, Separator}
    ensures
      var next := Reread(m.name);
      ReadMembers(src, done, name, nodes, pos) ==
      if nodes + Depth(m.value) > STACK_LIMIT then Thrown
      else if t.kind == ObjectEnd then Done(true, Obj(Put(done, next, Back(m.value))), t.end, 0)
      else ReadMembers(src, Put(done, next, Back(m.value)), next, nodes, t.end)
    decreases m, 5
  {
    hide At, Write, Back, Depth, ReadValue, ReadMembers, ReadToken, NextToken, Writable, Quote, Decode, Reread, Put;
    hide Lookup, Spaces, Delimited;
    var p0 := pos + |Quote(m.name)|;
    var next := Reread(m.name);
    NameAndColon(src.doc, pos, m.name, Write(fmt, m.value, indent + 1, false));
    ReadsMemberValue(src, fmt, m, indent, Lookup(done, next), nodes + 1, p0 + 3);
    MemberStep(src, done, name, nodes, pos, Token(String, pos, p0), next, Token(MemberSeparator, p0 + 1, p0 + 2),
      ReadValue(src, Lookup(done, next), nodes + 1, p0 + 2), t);
  }

  lemma {:induction false} ReadsMemberValue(
    src: Source, fmt: nat -> bytes, m: Member, indent: nat, current: Value, nodes: nat, pos: nat)
    requires Writable(src.toDouble, fmt, m.value) && nodes >= 1 && pos >= 1
    requires Spaces(src.doc, pos - 1, 1)
    requires At(src.doc, pos, Write(fmt, m.value, indent + 1, false))
    requires Delimited(src.doc, pos + |Write(fmt, m.value, indent + 1, false)|)
    ensures
      ReadValue(src, current, nodes, pos - 1) ==
      Expected(nodes, Depth(m.value) - 1, Back(m.value), pos + |Write(fmt, m.value, indent + 1, false)|)
    decreases m, 4
  {
    hide At, Write, Back, Depth, ReadValue, Writable, Spaces, Delimited;
    ReadsValue(src, fmt, m.value, indent + 1, false, current, nodes, pos);
    ValueAfterSpaces(src, current, nodes, pos - 1, 1);
  }

  /**
   Parsing the styled text of any writable tree throws exactly when the tree has more than 1000 levels;
   otherwise it succeeds without errors and the root holds the tree that comes back.
   */
  lemma ParseOfStyled(toDouble: bytes -> Option<nat>, fmt: nat -> bytes, v: Value, root: Value)
    requires Writable(toDouble, fmt, v)
    ensures
      Parse(Source(ToStyledString(fmt, v), toDouble), root) ==
      if Depth(v) <= 1000 then Done(true, Back(v), |ToStyledString(fmt, v)|, 0) else Thrown
  {
    hide Write, Back, Depth, ReadValue, Writable;
    var text := Write(fmt, v, 0, true);
    var doc := ToStyledString(fmt, v);
    assert doc[0..|text|] == text;
    ReadsValue(Source(doc, toDouble), fmt, v, 0, true, root, 1, 0);
    LastLineEnd(doc);
  }

  /** Behind the value only the final line end is left. */
  lemma LastLineEnd(doc: bytes)
    requires |doc| > 0 && doc[|doc| - 1] == 0x0a
    ensures NextToken(doc, |doc| - 1).end == |doc|
  {
    assert SkipSpaces(doc, |doc| - 1) == SkipSpaces(doc, |doc|) == |doc|;
  }

  // ---- when the same tree comes back -----------------------------------------------------

  /** Strings and names well-formed UTF-8, integers tagged as the reader tags them. */
  predicate Canonical(v: Value)
    decreases v, 1
  {
    match v
    case Int(i) => i <= MAX_INT32
    case UInt(u) => u > MAX_INT32
    case Str(s) => WellFormed(s)
    case Arr(items) => forall i :: 0 <= i < |items| ==> Canonical(items[i])
    case Obj(ms) => forall i :: 0 <= i < |ms| ==> WellFormed(ms[i].name) && Canonical(ms[i].value)
    case _ => true
  }

  predicate WellNamed(ms: seq<Member>) {
    forall i :: 0 <= i < |ms| ==> WellFormed(ms[i].name)
  }

  lemma {:induction false} BackItemsAt(items: seq<Value>, k: nat)
    requires k < |items|
    ensures BackItems(items)[k] == Back(items[k])
  {
    hide Back;
    if k > 0 { BackItemsAt(items[1..], k - 1); }
  }

  lemma {:induction false} PutNames(ms: seq<Member>, name: bytes, v: Value)
    requires WellNamed(ms) && WellFormed(name)
    ensures WellNamed(Put(ms, name, v))
  {
    hide WellFormed;
    if ms != [] {
      PutNames(ms[1..], name, v);
    }
  }

  /** Every name that comes back is well formed. */
  lemma {:induction false} BackNames(done: seq<Member>, ms: seq<Member>)
    requires WellNamed(done)
    ensures WellNamed(BackMembers(done, ms))
    decreases |ms|
  {
    hide Put, Back, Reread;
    if ms != [] {
      RereadIsWellFormed(ms[0].name);
      PutNames(done, Reread(ms[0].name), Back(ms[0].value));
      BackNames(Put(done, Reread(ms[0].name), Back(ms[0].value)), ms[1..]);
    }
  }

  function BackEach(ms: seq<Member>): (r: seq<Member>)
    ensures |r| == |ms|
  {
    seq(|ms|, i requires 0 <= i < |ms| => Member(ms[i].name, Back(ms[i].value)))
  }

  /** With well-formed names in map order, members come back one for one. */
  lemma {:induction false} BackWellNamed(done: seq<Member>, ms: seq<Member>)
    requires WellNamed(ms) && Sorted(ms)
    requires forall i, j :: 0 <= i < |done| && 0 <= j < |ms| ==> Less(done[i].name, ms[j].name)
    ensures BackMembers(done, ms) == done + BackEach(ms)
    decreases |ms|
  {
    hide Put, Back, Reread, Less, WellFormed;
    if ms == [] {
      assert done + BackEach(ms) == done;
    } else {
      var m := ms[0];
      var entry := Member(m.name, Back(m.value));
      WellFormedRereads(m.name);
      PutAtEnd(done, m.name, Back(m.value));
      BackWellNamed(done + [entry], ms[1..]);
      assert done + [entry] + BackEach(ms[1..]) == done + BackEach(ms);
    }
  }

  /** The tree that comes back is the tree itself exactly for canonical trees. */
  lemma {:induction false} BackUnchangedIff(toDouble: bytes -> Option<nat>, fmt: nat -> bytes, v: Value)
    requires Writable(toDouble, fmt, v)
    ensures Back(v) == v <==> Canonical(v)
    decreases v
  {
    hide Reread, WellFormed, GoodReal, BackMembers, BackItems, Sorted;
    match v
    case Str(s) => RereadUnchangedIff(s);
    case Arr(items) =>
      forall k | 0 <= k < |items|
        ensures BackItems(items)[k] == Back(items[k]) && (Back(items[k]) == items[k] <==> Canonical(items[k]))
      {
        BackItemsAt(items, k);
        BackUnchangedIff(toDouble, fmt, items[k]);
      }
      BackArrayIff(items);
    case Obj(ms) =>
      forall k | 0 <= k < |ms| ensures Back(ms[k].value) == ms[k].value <==> Canonical(ms[k].value) {
        BackUnchangedIff(toDouble, fmt, ms[k].value);
      }
      BackObjectIff(ms);
    case _ =>
  }

  lemma BackArrayIff(items: seq<Value>)
    requires forall k :: 0 <= k < |items| ==>
      BackItems(items)[k] == Back(items[k]) && (Back(items[k]) == items[k] <==> Canonical(items[k]))
    ensures Back(Arr(items)) == Arr(items) <==> Canonical(Arr(items))
  {
    hide BackItems;
    var r := BackItems(items);
    if Canonical(Arr(items)) {
      assert forall k :: 0 <= k < |items| ==> r[k] == items[k];
    }
    if r == items {
      assert forall k :: 0 <= k < |items| ==> r[k] == items[k];
    }
  }

  lemma BackObjectIff(ms: seq<Member>)
    requires Sorted(ms)
    requires forall k :: 0 <= k < |ms| ==> (Back(ms[k].value) == ms[k].value <==> Canonical(ms[k].value))
    ensures Back(Obj(ms)) == Obj(ms) <==> Canonical(Obj(ms))
  {
    hide BackMembers, BackEach, WellFormed, Less, Sorted;
    BackNames([], ms);
    if WellNamed(ms) {
      BackWellNamed([], ms);
      assert [] + BackEach(ms) == BackEach(ms);
      BackEachIff(ms);
    }
  }

  lemma BackEachIff(ms: seq<Member>)
    ensures BackEach(ms) == ms <==> forall k :: 0 <= k < |ms| ==> Back(ms[k].value) == ms[k].value
  {
    hide Back;
    var r := BackEach(ms);
    assert forall k :: 0 <= k < |ms| ==> r[k] == Member(ms[k].name, Back(ms[k].value));
    if r == ms {
      forall k | 0 <= k < |ms| ensures Back(ms[k].value) == ms[k].value {
        assert r[k] == ms[k];
      }
    }
  }

  /** parse(toStyledString(v)) succeeds and gives v back exactly when v is canonical and at most 1000 levels deep. */
  lemma StyledRoundTripIff(toDouble: bytes -> Option<nat>, fmt: nat -> bytes, v: Value, root: Value)
    requires Writable(toDouble, fmt, v)
    ensures
      var r := Parse(Source(ToStyledString(fmt, v), toDouble), root);
      (r.Done? && r.ok && r.value == v) <==> (Depth(v) <= 1000 && Canonical(v))
  {
    hide Writable, Parse, Back, Canonical, Depth;
    ParseOfStyled(toDouble, fmt, v, root);
    BackUnchangedIff(toDouble, fmt, v);
  }
}
