/**
 The reader of ClientSession (newJson/jsoncpp.cpp, class Reader, Features::all()) as functions of the
 document and the cursor: tokens, recursive descent, error recovery, the nesting limit.
 Comment text and source offsets stored in values are not kept.
 */
module JsonReader {
  import opened Bytes
  import opened JsonValue
  import opened JsonNumber
  import opened JsonText

  /** stackLimit_g: readValue throws when more nodes than this are on the stack. */
  const STACK_LIMIT: nat := 1000

  datatype TokenType =
    | ObjectBegin | ObjectEnd | ArrayBegin | ArrayEnd | String | Number | True | False | NullToken
    | Separator | MemberSeparator | Comment | EndOfStream | Error

  datatype Token = Token(kind: TokenType, start: nat, end: nat)

  /** A document, and the conversion of number text that is no 64-bit integer: a double image or failure. */
  datatype Source = Source(doc: bytes, toDouble: bytes -> Option<nat>)

  // ---- tokens -----------------------------------------------------------------------

  predicate IsSpace(c: byte) { c == 0x20 || c == 0x09 || c == 0x0d || c == 0x0a }

  function SkipSpaces(doc: bytes, pos: nat): (p: nat)
    requires pos <= |doc|
    ensures pos <= p <= |doc|
    decreases |doc| - pos
  {
    if pos < |doc| && IsSpace(doc[pos]) then SkipSpaces(doc, pos + 1) else pos
  }

  function SkipDigits(doc: bytes, pos: nat): (p: nat)
    requires pos <= |doc|
    ensures pos <= p <= |doc|
    decreases |doc| - pos
  {
    if pos < |doc| && IsDigit(doc[pos]) then SkipDigits(doc, pos + 1) else pos
  }

  /** readNumber: integral, fractional and exponent part, each optional; returns the end of the token. */
  function ReadNumber(doc: bytes, pos: nat): (p: nat)
    requires pos <= |doc|
    ensures pos <= p <= |doc|
  {
    ReadExponent(doc, ReadFraction(doc, SkipDigits(doc, pos)))
  }

  function ReadFraction(doc: bytes, pos: nat): (p: nat)
    requires pos <= |doc|
    ensures pos <= p <= |doc|
  {
    if pos < |doc| && doc[pos] == 0x2e then SkipDigits(doc, pos + 1) else pos
  }

  function ReadExponent(doc: bytes, pos: nat): (p: nat)
    requires pos <= |doc|
    ensures pos <= p <= |doc|
  {
    if pos < |doc| && (doc[pos] == 0x65 || doc[pos] == 0x45) then
      if pos + 1 < |doc| && (doc[pos + 1] == 0x2b || doc[pos + 1] == 0x2d) then SkipDigits(doc, pos + 2)
      else SkipDigits(doc, pos + 1)
    else pos
  }

  /** readCStyleComment, from after the opening slash and star. */
  function ReadBlockComment(doc: bytes, pos: nat): (r: Scan)
    requires pos <= |doc|
    ensures pos <= r.pos <= |doc|
    decreases |doc| - pos
  {
    if pos + 1 < |doc| then
      if doc[pos] == 0x2a && doc[pos + 1] == 0x2f then Scan(true, pos + 2) else ReadBlockComment(doc, pos + 1)
    else if pos < |doc| then Scan(doc[pos] == 0x2f, pos + 1)
    else Scan(false, pos)
  }

  /** readCppStyleComment, from after the two slashes to after the line end. */
  function ReadLineComment(doc: bytes, pos: nat): (p: nat)
    requires pos <= |doc|
    ensures pos <= p <= |doc|
    decreases |doc| - pos
  {
    if pos == |doc| then pos
    else if doc[pos] == 0x0a then pos + 1
    else if doc[pos] == 0x0d then
      if pos + 1 < |doc| && doc[pos + 1] == 0x0a then pos + 2 else pos + 1
    else ReadLineComment(doc, pos + 1)
  }

  /** readComment, from after the first slash. */
  function ReadComment(doc: bytes, pos: nat): (r: Scan)
    requires pos <= |doc|
    ensures pos <= r.pos <= |doc|
  {
    if pos == |doc| then Scan(false, pos)
    else if doc[pos] == 0x2a then ReadBlockComment(doc, pos + 1)
    else if doc[pos] == 0x2f then Scan(true, ReadLineComment(doc, pos + 1))
    else Scan(false, pos + 1)
  }

  const RUE: bytes := [0x72, 0x75, 0x65]
  const ALSE: bytes := [0x61, 0x6c, 0x73, 0x65]
  const ULL: bytes := [0x75, 0x6c, 0x6c]

  /** match: the rest of a literal, or an error that does not move the cursor. */
  function MatchRest(doc: bytes, start: nat, pos: nat, rest: bytes, kind: TokenType): (t: Token)
    requires start <= pos <= |doc|
    ensures t.start == start && pos <= t.end <= |doc|
    ensures t.kind == kind || t.kind == Error
  {
    if At(doc, pos, rest) then Token(kind, start, pos + |rest|) else Token(Error, start, pos)
  }

  /** readToken; the cursor afterwards is the end of the token. A zero byte counts as the end of the stream. */
  function ReadToken(doc: bytes, pos: nat): (t: Token)
    requires pos <= |doc|
    ensures pos <= t.start <= t.end <= |doc|
    ensures t.kind != EndOfStream ==> t.start < t.end
    ensures t.kind == EndOfStream ==> t.start == t.end == |doc| || (t.end == t.start + 1 && doc[t.start] == 0)
    ensures t.kind == String ==> t.start + 2 <= t.end && doc[t.start] == QUOTE
    ensures t.kind == Number ==> doc[t.start] == MINUS || IsDigit(doc[t.start])
  {
    var start := SkipSpaces(doc, pos);
    if start == |doc| then Token(EndOfStream, start, start) else
    var c, next := doc[start], start + 1;
    if c == 0x7b then Token(ObjectBegin, start, next)
    else if c == 0x7d then Token(ObjectEnd, start, next)
    else if c == 0x5b then Token(ArrayBegin, start, next)
    else if c == 0x5d then Token(ArrayEnd, start, next)
    else if c == QUOTE then
      var s := ReadString(doc, next); Token(if s.ok then String else Error, start, s.pos)
    else if c == 0x2f then
      var s := ReadComment(doc, next); Token(if s.ok then Comment else Error, start, s.pos)
    else if IsDigit(c) || c == MINUS then Token(Number, start, ReadNumber(doc, next))
    else if c == 0x74 then MatchRest(doc, start, next, RUE, True)
    else if c == 0x66 then MatchRest(doc, start, next, ALSE, False)
    else if c == 0x6e then MatchRest(doc, start, next, ULL, NullToken)
    else if c == 0x2c then Token(Separator, start, next)
    else if c == 0x3a then Token(MemberSeparator, start, next)
    else if c == 0 then Token(EndOfStream, start, next)
    else Token(Error, start, next)
  }

  /** skipCommentTokens: the first token that is not a comment. */
  function NextToken(doc: bytes, pos: nat): (t: Token)
    requires pos <= |doc|
    ensures t.kind != Comment
    ensures pos <= t.start <= t.end <= |doc|
    ensures t.kind != EndOfStream ==> t.start < t.end
    ensures t.kind == String ==> t.start + 2 <= t.end && doc[t.start] == QUOTE
    ensures t.kind == Number ==> doc[t.start] == MINUS || IsDigit(doc[t.start])
    decreases |doc| - pos
  {
    var t := ReadToken(doc, pos);
    if t.kind == Comment then NextToken(doc, t.end) else t
  }

  /** recoverFromError: tokens are skipped up to and including the target or the end of the stream. */
  function Recover(doc: bytes, pos: nat, target: TokenType): (p: nat)
    requires pos <= |doc|
    ensures pos <= p <= |doc|
    decreases |doc| - pos
  {
    var t := ReadToken(doc, pos);
    if t.kind == target || t.kind == EndOfStream then t.end else Recover(doc, t.end, target)
  }

  // ---- recursive descent -------------------------------------------------------------

  /**
   Outcome of a reading function: the exception for too deep nesting, or success flag, the value left in the
   current node, the cursor and the number of errors recorded.
   */
  datatype Result = Thrown | Done(ok: bool, value: Value, pos: nat, errors: nat)

  /** addErrorAndRecover */
  function Fail(doc: bytes, value: Value, pos: nat, target: TokenType): (r: Result)
    requires pos <= |doc|
    ensures r.Done? && !r.ok && r.value == value && pos <= r.pos <= |doc| && r.errors == 1
  {
    Done(false, value, Recover(doc, pos, target), 1)
  }

  /** decodeNumber into the current node */
  function NumberValue(src: Source, current: Value, t: Token): (r: Result)
    requires t.start < t.end <= |src.doc|
  {
    var text := src.doc[t.start..t.end];
    match DecodeNumber(text)
    case Signed(i) => Done(true, Int(i), t.end, 0)
    case Unsigned(u) => Done(true, UInt(u), t.end, 0)
    case AsDouble =>
      match src.toDouble(text)
      case Some(image) => Done(true, Real(image), t.end, 0)
      case None => Done(false, current, t.end, 1)
  }

  /** readValue: `current` is what the node holds before, `nodes` the stack size including it. */
  function ReadValue(src: Source, current: Value, nodes: nat, pos: nat): (r: Result)
    requires pos <= |src.doc|
    ensures r.Done? ==> pos <= r.pos <= |src.doc| && (r.ok ==> pos < r.pos) && (r.ok <==> r.errors == 0)
    decreases |src.doc| - pos, 1
  {
    if nodes > STACK_LIMIT then Thrown else ValueOf(src, current, nodes, NextToken(src.doc, pos))
  }

  /** The switch of readValue on its first token. */
  function ValueOf(src: Source, current: Value, nodes: nat, t: Token): (r: Result)
    requires t.start <= t.end <= |src.doc| && (t.kind != EndOfStream ==> t.start < t.end)
    requires t.kind == String ==> t.start + 2 <= t.end
    ensures r.Done? ==> t.end <= r.pos <= |src.doc| && (r.ok ==> t.start < r.pos) && (r.ok <==> r.errors == 0)
    decreases |src.doc| - t.start, 0
  {
    if t.kind == ObjectBegin then ReadMembers(src, [], [], nodes, t.end)
    else if t.kind == ArrayBegin then
      var p := SkipSpaces(src.doc, t.end);
      if p < |src.doc| && src.doc[p] == 0x5d then Done(true, Arr([]), ReadToken(src.doc, p).end, 0)
      else ReadItems(src, [], nodes, p)
    else if t.kind == Number then NumberValue(src, current, t)
    else if t.kind == String then
      match Decode(src.doc, t.start + 1, t.end - 1)
      case Some(s) => Done(true, Str(s), t.end, 0)
      case None => Done(false, current, t.end, 1)
    else if t.kind == True then Done(true, Bool(true), t.end, 0)
    else if t.kind == False then Done(true, Bool(false), t.end, 0)
    else if t.kind == NullToken then Done(true, Null, t.end, 0)
    else Done(false, current, t.end, 1)
  }

  /** The loop of readArray: `items` are read already, the next one starts at `pos`. */
  function ReadItems(src: Source, items: seq<Value>, nodes: nat, pos: nat): (r: Result)
    requires pos <= |src.doc|
    ensures r.Done? ==> pos <= r.pos <= |src.doc| && (r.ok ==> pos < r.pos) && (r.ok <==> r.errors == 0)
    decreases |src.doc| - pos, 2
  {
    var element := ReadValue(src, Null, nodes + 1, pos);
    if element.Thrown? then Thrown else
    var more := items + [element.value];
    if !element.ok then Done(false, Arr(more), Recover(src.doc, element.pos, ArrayEnd), element.errors) else
    var t := NextToken(src.doc, element.pos);
    if t.kind == ArrayEnd then Done(true, Arr(more), t.end, 0)
    else if t.kind == Separator then ReadItems(src, more, nodes, t.end)
    else Fail(src.doc, Arr(more), t.end, ArrayEnd)
  }

  /**
   The loop of readObject: `name` is the name read in the previous round, kept because an object may end
   after a comma when that name was empty.
   */
  function ReadMembers(src: Source, members: seq<Member>, name: bytes, nodes: nat, pos: nat): (r: Result)
    requires pos <= |src.doc|
    ensures r.Done? ==> pos <= r.pos <= |src.doc| && (r.ok ==> pos < r.pos) && (r.ok <==> r.errors == 0)
    decreases |src.doc| - pos, 1
  {
    MemberRound(src, members, name, nodes, NextToken(src.doc, pos))
  }

  /** One round of readObject from its first token on. */
  function MemberRound(src: Source, members: seq<Member>, name: bytes, nodes: nat, nameToken: Token): (r: Result)
    requires nameToken.start <= nameToken.end <= |src.doc|
    requires nameToken.kind != EndOfStream ==> nameToken.start < nameToken.end
    requires nameToken.kind == String ==> nameToken.start + 2 <= nameToken.end
    ensures r.Done? ==>
      nameToken.end <= r.pos <= |src.doc| && (r.ok ==> nameToken.start < r.pos) && (r.ok <==> r.errors == 0)
    decreases |src.doc| - nameToken.start, 0
  {
    if nameToken.kind == ObjectEnd && name == [] then Done(true, Obj(members), nameToken.end, 0)
    else if nameToken.kind != String then Fail(src.doc, Obj(members), nameToken.end, ObjectEnd)
    else
      var decoded := Decode(src.doc, nameToken.start + 1, nameToken.end - 1);
      if decoded.None? then Fail(src.doc, Obj(members), nameToken.end, ObjectEnd) else
      var colon := ReadToken(src.doc, nameToken.end);
      if colon.kind != MemberSeparator then Fail(src.doc, Obj(members), colon.end, ObjectEnd)
      else
        MemberTail(src, members, decoded.value, nodes, colon.end)
  }

  /** The rest of the round: the value of the member `key`, and what follows it. */
  function MemberTail(src: Source, members: seq<Member>, key: bytes, nodes: nat, pos: nat): (r: Result)
    requires pos <= |src.doc|
    ensures r.Done? ==> pos <= r.pos <= |src.doc| && (r.ok ==> pos < r.pos) && (r.ok <==> r.errors == 0)
    decreases |src.doc| - pos, 2
  {
    var element := ReadValue(src, Lookup(members, key), nodes + 1, pos);
    if element.Thrown? then Thrown else
    var more := Put(members, key, element.value);
    if !element.ok then Done(false, Obj(more), Recover(src.doc, element.pos, ObjectEnd), element.errors) else
    var t := ReadToken(src.doc, element.pos);
    if t.kind != ObjectEnd && t.kind != Separator && t.kind != Comment
    then Fail(src.doc, Obj(more), t.end, ObjectEnd)
    else
      // After a comment any token that is not the closing brace is taken as the comma.
      var comma := if t.kind == Comment then NextToken(src.doc, t.end) else t;
      if comma.kind == ObjectEnd then Done(true, Obj(more), comma.end, 0)
      else ReadMembers(src, more, key, nodes, comma.end)
  }

  /**
   Reader::parse: one node, the root, is on the stack; after the value the next token that is no comment is consumed.
   */
  function Parse(src: Source, root: Value): (r: Result)
    ensures r.Done? ==> r.pos <= |src.doc| && (r.ok <==> r.errors == 0)
  {
    var r := ReadValue(src, root, 1, 0);
    if r.Thrown? then Thrown else r.(pos := NextToken(src.doc, r.pos).end)
  }

  // ---- what the reader accepts beyond the grammar ------------------------------------------

  /** A closing brace where a name is due ends the object if and only if the name before it was empty. */
  lemma ClosesAfterCommaIff(src: Source, members: seq<Member>, name: bytes, nodes: nat, pos: nat)
    requires pos <= |src.doc| && NextToken(src.doc, pos).kind == ObjectEnd
    ensures ReadMembers(src, members, name, nodes, pos).Done?
    ensures ReadMembers(src, members, name, nodes, pos).ok <==> name == []
  {
  }

  /**
   After a member value that was read: another member is looked for if and only if a comma comes next, or a comment
   and behind the comments any token but the closing brace. Otherwise the object ends, successfully if and only if the
   closing brace comes next or behind comments.
   */
  lemma GoesOnIff(src: Source, members: seq<Member>, key: bytes, nodes: nat, pos: nat)
    requires pos <= |src.doc|
    ensures
      var element := ReadValue(src, Lookup(members, key), nodes + 1, pos);
      element.Done? && element.ok ==>
        var t, more := ReadToken(src.doc, element.pos), Put(members, key, element.value);
        var comma := if t.kind == Comment then NextToken(src.doc, t.end) else t;
        var r := MemberTail(src, members, key, nodes, pos);
        if t.kind == Separator || (t.kind == Comment && comma.kind != ObjectEnd)
        then r == ReadMembers(src, more, key, nodes, comma.end)
        else r.Done? && r.value == Obj(more) && (r.ok <==> comma.kind == ObjectEnd)
  {
    hide ReadValue, ReadMembers, NextToken, ReadToken, Put, Lookup;
  }

  /** A lone minus is the integer 0. */
  lemma LoneMinusIsZero(src: Source, current: Value, t: Token)
    requires t.start + 1 == t.end <= |src.doc| && src.doc[t.start] == MINUS
    ensures NumberValue(src, current, t) == Done(true, Int(0), t.end, 0)
  {
    var text := src.doc[t.start..t.end];
    assert text == [MINUS] && Body(text) == [];
  }
}
