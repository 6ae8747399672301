/**
 The reader object of the source, with its cursor, node stack and error list changed in place
 (newJson/jsoncpp.cpp, class Reader). Each method is proved against the function of the same name.
 Of the node stack the size is kept; the value of the top node is passed in and returned.
 */
module JsonReaderObject {
  import opened Bytes
  import opened JsonValue
  import opened JsonNumber
  import opened JsonText
  import opened JsonReader

  lemma MembersUnfold(src: Source, members: seq<Member>, name: bytes, nodes: nat, pos: nat)
    requires pos <= |src.doc|
    ensures ReadMembers(src, members, name, nodes, pos) ==
      MemberRound(src, members, name, nodes, NextToken(src.doc, pos))
  {
  }

  lemma ItemsUnfold(src: Source, items: seq<Value>, nodes: nat, pos: nat)
    requires pos <= |src.doc|
    ensures
      var element := ReadValue(src, Null, nodes + 1, pos);
      ReadItems(src, items, nodes, pos) ==
      if element.Thrown? then Thrown
      else if !element.ok then Done(false, Arr(items + [element.value]), Recover(src.doc, element.pos, ArrayEnd),
        element.errors)
      else
        var t := NextToken(src.doc, element.pos);
        if t.kind == ArrayEnd then Done(true, Arr(items + [element.value]), t.end, 0)
        else if t.kind == Separator then ReadItems(src, items + [element.value], nodes, t.end)
        else Fail(src.doc, Arr(items + [element.value]), t.end, ArrayEnd)
  {
  }

  class Reader {
    const document: bytes
    const toDouble: bytes -> Option<nat>
    var current: nat
    var errors: nat
    var nodes: nat

    constructor (document: bytes, toDouble: bytes -> Option<nat>)
      ensures this.document == document && this.toDouble == toDouble
      ensures current == 0 && errors == 0 && nodes == 0
    {
      this.document, this.toDouble := document, toDouble;
      current, errors, nodes := 0, 0, 0;
    }

    ghost predicate Valid()
      reads this
    {
      current <= |document|
    }

    function Src(): (s: Source) {
      Source(document, toDouble)
    }

    /** getNextChar: zero at the end of the document. */
    method GetNextChar() returns (c: byte)
      requires Valid()
      modifies this`current
      ensures Valid()
      ensures old(current) == |document| ==> c == 0 && current == old(current)
      ensures old(current) < |document| ==> c == document[old(current)] && current == old(current) + 1
    {
      if current == |document| {
        return 0;
      }
      c := document[current];
      current := current + 1;
    }

    method SkipBlanks()
      requires Valid()
      modifies this`current
      ensures Valid() && current == SkipSpaces(document, old(current))
    {
      while current != |document|
        invariant Valid() && SkipSpaces(document, old(current)) == SkipSpaces(document, current)
        decreases |document| - current
      {
        var c := document[current];
        if c == 0x20 || c == 0x09 || c == 0x0d || c == 0x0a {
          current := current + 1;
        } else {
          break;
        }
      }
    }

    /** The digit loops of readNumber: `p` runs one ahead of the cursor, `c` is the character under it. */
    method EatDigits(p0: nat) returns (p: nat, c: byte)
      requires p0 <= |document|
      modifies this`current
      ensures Valid() && current == SkipDigits(document, p0)
      ensures if current < |document| then c == document[current] && p == current + 1 else c == 0 && p == current
    {
      p := p0;
      c := ZERO;
      current := p0;
      while IsDigit(c)
        invariant p0 <= p <= |document| && Valid()
        invariant IsDigit(c) ==> SkipDigits(document, p0) == SkipDigits(document, p)
        invariant !IsDigit(c) ==>
          current == SkipDigits(document, p0) &&
          if current < |document| then c == document[current] && p == current + 1 else c == 0 && p == current
        decreases IsDigit(c), |document| - p
      {
        current := p;
        if current < |document| {
          c := document[p];
          p := p + 1;
        } else {
          c := 0;
        }
      }
    }

    method ReadNumberToken()
      requires Valid()
      modifies this`current
      ensures Valid() && current == ReadNumber(document, old(current))
    {
      var p, c := EatDigits(current);
      if c == 0x2e {
        p, c := EatDigits(p);
      }
      if c == 0x65 || c == 0x45 {
        current := p;
        c := 0;
        if current < |document| {
          c := document[p];
          p := p + 1;
        }
        if c == 0x2b || c == 0x2d {
          p, c := EatDigits(p);
        } else {
          p, c := EatDigits(current);
        }
      }
    }

    method ReadStringToken() returns (ok: bool)
      requires Valid()
      modifies this`current
      ensures Valid() && Scan(ok, current) == ReadString(document, old(current))
    {
      var c: byte := 0;
      while current != |document|
        invariant Valid() && c != QUOTE
        invariant ReadString(document, old(current)) == ReadString(document, current)
        decreases |document| - current
      {
        c := GetNextChar();
        if c == BACKSLASH {
          var _ := GetNextChar();
        } else if c == QUOTE {
          break;
        }
      }
      return c == QUOTE;
    }

    method ReadCommentToken() returns (ok: bool)
      requires Valid()
      modifies this`current
      ensures Valid() && Scan(ok, current) == ReadComment(document, old(current))
    {
      var c := GetNextChar();
      ok := false;
      if c == 0x2a {
        ok := ReadCStyle();
      } else if c == 0x2f {
        ReadCppStyle();
        ok := true;
      }
    }

    method ReadCStyle() returns (ok: bool)
      requires Valid()
      modifies this`current
      ensures Valid() && Scan(ok, current) == ReadBlockComment(document, old(current))
    {
      while current + 1 < |document|
        invariant Valid()
        invariant ReadBlockComment(document, old(current)) == ReadBlockComment(document, current)
        decreases |document| - current
      {
        var c := GetNextChar();
        if c == 0x2a && document[current] == 0x2f {
          current := current + 1;
          return true;
        }
      }
      var c := GetNextChar();
      return c == 0x2f;
    }

    method ReadCppStyle()
      requires Valid()
      modifies this`current
      ensures Valid() && current == ReadLineComment(document, old(current))
    {
      while current != |document|
        invariant Valid()
        invariant ReadLineComment(document, old(current)) == ReadLineComment(document, current)
        decreases |document| - current
      {
        var c := GetNextChar();
        if c == 0x0a {
          break;
        }
        if c == 0x0d {
          if current != |document| && document[current] == 0x0a {
            var _ := GetNextChar();
          }
          break;
        }
      }
    }

    /** match: compares backwards and moves the cursor only on success. */
    method Match(pattern: bytes) returns (ok: bool)
      requires Valid()
      modifies this`current
      ensures Valid() && ok == At(document, old(current), pattern)
      ensures current == if ok then old(current) + |pattern| else old(current)
    {
      if |document| - current < |pattern| {
        return false;
      }
      var index := |pattern|;
      while index > 0
        invariant 0 <= index <= |pattern| && current == old(current)
        invariant forall k :: index <= k < |pattern| ==> document[current + k] == pattern[k]
      {
        index := index - 1;
        if document[current + index] != pattern[index] {
          assert document[current..current + |pattern|][index] != pattern[index];
          return false;
        }
      }
      assert document[current..current + |pattern|] == pattern;
      current := current + |pattern|;
      return true;
    }

    /** readToken */
    method NextRawToken() returns (t: Token)
      requires Valid()
      modifies this`current
      ensures Valid() && t == ReadToken(document, old(current)) && current == t.end
    {
      hide SkipSpaces, ReadString, ReadNumber, ReadComment, At;
      SkipBlanks();
      var start := current;
      var atEnd := start == |document|;
      var c := GetNextChar();
      var ok, kind := true, EndOfStream;
      if atEnd {
      } else if c == 0x7b {
        kind := ObjectBegin;
      } else if c == 0x7d {
        kind := ObjectEnd;
      } else if c == 0x5b {
        kind := ArrayBegin;
      } else if c == 0x5d {
        kind := ArrayEnd;
      } else if c == QUOTE {
        kind := String;
        ok := ReadStringToken();
      } else if c == 0x2f {
        kind := Comment;
        ok := ReadCommentToken();
      } else if IsDigit(c) || c == MINUS {
        kind := Number;
        ReadNumberToken();
      } else if c == 0x74 {
        kind := True;
        ok := Match(RUE);
      } else if c == 0x66 {
        kind := False;
        ok := Match(ALSE);
      } else if c == 0x6e {
        kind := NullToken;
        ok := Match(ULL);
      } else if c == 0x2c {
        kind := Separator;
      } else if c == 0x3a {
        kind := MemberSeparator;
      } else if c == 0 {
        kind := EndOfStream;
      } else {
        ok := false;
      }
      return Token(if ok then kind else Error, start, current);
    }

    method SkipCommentTokens() returns (t: Token)
      requires Valid()
      modifies this`current
      ensures Valid() && t == NextToken(document, old(current)) && current == t.end
    {
      hide ReadToken;
      t := NextRawToken();
      while t.kind == Comment
        invariant Valid() && current == t.end && t.start <= t.end && (t.kind != EndOfStream ==> t.start < t.end)
        invariant NextToken(document, old(current)) == if t.kind == Comment then NextToken(document, current) else t
        decreases |document| - t.start
      {
        t := NextRawToken();
      }
    }

    /** recoverFromError: skips to the target token or the end of the stream and returns false. */
    method RecoverFromError(target: TokenType)
      requires Valid()
      modifies this`current, this`errors
      ensures Valid() && current == Recover(document, old(current), target) && errors == old(errors)
    {
      hide ReadToken;
      var errorCount := errors;
      var skip := NextRawToken();
      while skip.kind != target && skip.kind != EndOfStream
        invariant Valid() && current == skip.end && skip.start <= skip.end
          && (skip.kind != EndOfStream ==> skip.start < skip.end)
        invariant
          Recover(document, old(current), target) ==
          if skip.kind == target || skip.kind == EndOfStream then current else Recover(document, current, target)
        decreases |document| - skip.start
      {
        skip := NextRawToken();
      }
      errors := errorCount;
    }

    method AddErrorAndRecover(target: TokenType)
      requires Valid()
      modifies this`current, this`errors
      ensures Valid() && current == Recover(document, old(current), target) && errors == old(errors) + 1
    {
      errors := errors + 1;
      RecoverFromError(target);
    }

    /** The state after a reading method is what its result says; an exception leaves the nodes of its levels behind. */
    twostate predicate Follows(r: Result)
      reads this
    {
      if r.Thrown? then nodes > STACK_LIMIT
      else nodes == old(nodes) && current == r.pos <= |document| && errors == old(errors) + r.errors
    }

    /** readValue */
    method ReadNode(node: Value) returns (r: Result)
      requires Valid()
      modifies this
      ensures r == ReadValue(Src(), node, old(nodes), old(current)) && Follows(r)
      decreases |document| - current, 1
    {
      hide ReadToken, NextToken, ReadMembers, ReadItems, Decode, NumberValue, SkipSpaces;
      if nodes > STACK_LIMIT {
        return Thrown;
      }
      var t := SkipCommentTokens();
      if t.kind == ObjectBegin {
        r := ReadObject();
      } else if t.kind == ArrayBegin {
        r := ReadArray();
      } else {
        r := ReadScalar(node, t);
      }
    }

    /** The cases of readValue that need no further token. */
    method ReadScalar(node: Value, t: Token) returns (r: Result)
      requires t.start <= t.end <= |document| && (t.kind != EndOfStream ==> t.start < t.end)
      requires t.kind == String ==> t.start + 2 <= t.end
      requires current == t.end && t.kind != ObjectBegin && t.kind != ArrayBegin
      modifies this`errors
      ensures r == ValueOf(Src(), node, nodes, t) && r.Done? && r.pos == t.end && errors == old(errors) + r.errors
    {
      hide Decode, DecodeNumber;
      if t.kind == Number {
        var text := document[t.start..t.end];
        var d := DecodeNumberLoop(text);
        match d
        case Signed(i) => return Done(true, Int(i), current, 0);
        case Unsigned(u) => return Done(true, UInt(u), current, 0);
        case AsDouble =>
          var x := toDouble(text);
          if x.Some? {
            return Done(true, Real(x.value), current, 0);
          }
      } else if t.kind == String {
        var s := DecodeLoop(document, t.start, t.end);
        if s.Some? {
          return Done(true, Str(s.value), current, 0);
        }
      } else if t.kind == True {
        return Done(true, Bool(true), current, 0);
      } else if t.kind == False {
        return Done(true, Bool(false), current, 0);
      } else if t.kind == NullToken {
        return Done(true, Null, current, 0);
      }
      errors := errors + 1;
      r := Done(false, node, current, 1);
    }

    /** readArray, from after its opening bracket */
    method ReadArray() returns (r: Result)
      requires Valid()
      modifies this
      ensures
        var p := SkipSpaces(document, old(current));
        r == if p < |document| && document[p] == 0x5d then Done(true, Arr([]), ReadToken(document, p).end, 0)
             else ReadItems(Src(), [], old(nodes), p)
      ensures Follows(r)
      decreases |document| - current, 3
    {
      hide ReadToken, NextToken, ReadValue, ReadItems, SkipSpaces, Recover;
      SkipBlanks();
      if current != |document| && document[current] == 0x5d {
        var t := NextRawToken();
        return Done(true, Arr([]), current, 0);
      }
      ghost var first := current;
      ghost var goal := ReadItems(Src(), [], nodes, current);
      var items: seq<Value> := [];
      while true
        invariant Valid() && old(current) <= first <= current
        invariant nodes == old(nodes) && errors == old(errors)
        invariant goal == ReadItems(Src(), items, nodes, current)
        decreases |document| - current
      {
        ItemsUnfold(Src(), items, nodes, current);
        nodes := nodes + 1;
        var element := ReadNode(Null);
        if element.Thrown? {
          return Thrown;
        }
        nodes := nodes - 1;
        items := items + [element.value];
        if !element.ok {
          RecoverFromError(ArrayEnd);
          return Done(false, Arr(items), current, element.errors);
        }
        var t := SkipCommentTokens();
        if t.kind != Separator && t.kind != ArrayEnd {
          AddErrorAndRecover(ArrayEnd);
          return Done(false, Arr(items), current, 1);
        }
        if t.kind == ArrayEnd {
          return Done(true, Arr(items), current, 0);
        }
      }
    }

    /** readObject, from after its opening brace */
    method ReadObject() returns (r: Result)
      requires Valid()
      modifies this
      ensures r == ReadMembers(Src(), [], [], old(nodes), old(current))
      ensures Follows(r)
      decreases |document| - current, 3
    {
      hide ReadMembers, MemberTail;
      var members: seq<Member> := [];
      var name: bytes := [];
      ghost var goal := ReadMembers(Src(), [], [], nodes, current);
      while true
        invariant Valid() && old(current) <= current
        invariant nodes == old(nodes) && errors == old(errors)
        invariant goal == ReadMembers(Src(), members, name, nodes, current)
        decreases |document| - current
      {
        var finished;
        finished, name, r := ReadName(members, name);
        if finished {
          return r;
        }
        finished, members, r := ReadMember(members, name);
        if finished {
          return r;
        }
      }
    }

    /** The first part of a round of readObject: the closing brace, or a name and its colon. */
    method ReadName(members: seq<Member>, previous: bytes) returns (finished: bool, name: bytes, r: Result)
      requires Valid()
      modifies this
      ensures finished ==> r == ReadMembers(Src(), members, previous, old(nodes), old(current)) && Follows(r)
      ensures !finished ==> Valid() && current > old(current) && nodes == old(nodes) && errors == old(errors)
      ensures !finished ==>
        ReadMembers(Src(), members, previous, nodes, old(current)) == MemberTail(Src(), members, name, nodes, current)
    {
      hide ReadToken, ReadMembers, MemberTail, Decode, NextToken, Recover;
      MembersUnfold(Src(), members, previous, nodes, current);
      var nameToken := SkipCommentTokens();
      if nameToken.kind == ObjectEnd && previous == [] {
        return true, [], Done(true, Obj(members), current, 0);
      }
      if nameToken.kind == String {
        var decoded := DecodeLoop(document, nameToken.start, nameToken.end);
        if decoded.Some? {
          var colon := NextRawToken();
          if colon.kind == MemberSeparator {
            return false, decoded.value, Thrown;
          }
        }
      }
      AddErrorAndRecover(ObjectEnd);
      return true, [], Done(false, Obj(members), current, 1);
    }

    /** The rest of a round of readObject, from after the colon; unfinished when another round follows. */
    method ReadMember(members: seq<Member>, name: bytes) returns (finished: bool, more: seq<Member>, r: Result)
      requires Valid()
      modifies this
      ensures finished ==> r == MemberTail(Src(), members, name, old(nodes), old(current)) && Follows(r)
      ensures !finished ==> Valid() && current > old(current) && nodes == old(nodes) && errors == old(errors)
      ensures !finished ==>
        MemberTail(Src(), members, name, nodes, old(current)) == ReadMembers(Src(), more, name, nodes, current)
      decreases |document| - current, 2
    {
      hide ReadToken, ReadValue, ReadMembers, NextToken, Put, Lookup, Recover;
      nodes := nodes + 1;
      var element := ReadNode(Lookup(members, name));
      if element.Thrown? {
        return true, [], Thrown;
      }
      nodes := nodes - 1;
      more := Put(members, name, element.value);
      if !element.ok {
        RecoverFromError(ObjectEnd);
        return true, more, Done(false, Obj(more), current, element.errors);
      }
      var comma := NextRawToken();
      if comma.kind != ObjectEnd && comma.kind != Separator && comma.kind != Comment {
        AddErrorAndRecover(ObjectEnd);
        return true, more, Done(false, Obj(more), current, 1);
      }
      if comma.kind == Comment {
        comma := SkipCommentTokens();
      }
      r := Done(true, Obj(more), current, 0);
      finished := comma.kind == ObjectEnd;
    }

    /** parse: restarts the cursor, the error list and the node stack, reads the root and one token behind it. */
    method ParseDocument(root: Value) returns (r: Result)
      modifies this
      ensures r == Parse(Src(), root)
      ensures r.Done? ==> current == r.pos <= |document| && errors == r.errors
    {
      hide ReadValue, NextToken;
      current, errors := 0, 0;
      nodes := 1;
      r := ReadNode(root);
      if r.Done? {
        var t := SkipCommentTokens();
        r := r.(pos := t.end);
      }
    }
  }
}
