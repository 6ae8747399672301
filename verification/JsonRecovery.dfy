/**
 Facts about reading any document at all: where error recovery stops and when the nesting exception can occur
 (newJson/jsoncpp.cpp, Reader::recoverFromError and the stack limit of readValue).
 */
module JsonRecovery {
  import opened Bytes
  import opened JsonValue
  import opened JsonText
  import opened JsonReader

  /** The tokens of a document from an offset on, up to and including the first end of stream. */
  function Tokens(doc: bytes, pos: nat): (ts: seq<Token>)
    requires pos <= |doc|
    ensures |ts| > 0 && ts[|ts| - 1].kind == EndOfStream
    decreases |doc| - pos
  {
    var t := ReadToken(doc, pos);
    if t.kind == EndOfStream then [t] else [t] + Tokens(doc, t.end)
  }

  /**
   Recovery leaves the cursor after the first token of the remaining document that is the target or the end of
   the stream; no such token is skipped and none beyond it is consumed.
   */
  lemma {:induction false} RecoverStopsAtFirst(doc: bytes, pos: nat, target: TokenType) returns (k: nat)
    requires pos <= |doc|
    ensures var ts := Tokens(doc, pos);
      && k < |ts| && Recover(doc, pos, target) == ts[k].end
      && (ts[k].kind == target || ts[k].kind == EndOfStream)
      && forall j :: 0 <= j < k ==> ts[j].kind != target
    decreases |doc| - pos
  {
    hide ReadToken;
    var t := ReadToken(doc, pos);
    if t.kind == target || t.kind == EndOfStream {
      k := 0;
    } else {
      var rest := RecoverStopsAtFirst(doc, t.end, target);
      k := rest + 1;
    }
  }

  predicate IsOpener(c: byte) { c == 0x5b || c == 0x7b }

  /** Number of opening brackets and braces from an offset on. */
  function Openers(doc: bytes, pos: nat): (n: nat)
    requires pos <= |doc|
    decreases |doc| - pos
  {
    if pos == |doc| then 0 else (if IsOpener(doc[pos]) then 1 else 0) + Openers(doc, pos + 1)
  }

  lemma {:induction false} OpenersAntitone(doc: bytes, a: nat, b: nat)
    requires a <= b <= |doc|
    ensures Openers(doc, b) <= Openers(doc, a)
    decreases b - a
  {
    if a < b { OpenersAntitone(doc, a + 1, b); }
  }

  lemma OpenerToken(doc: bytes, pos: nat)
    requires pos <= |doc|
    ensures
      var t := ReadToken(doc, pos);
      t.kind == ObjectBegin || t.kind == ArrayBegin ==> t.end == t.start + 1 && IsOpener(doc[t.start])
  {
    hide SkipSpaces, ReadString, ReadComment, ReadNumber, At;
  }

  lemma {:induction false} OpenerNext(doc: bytes, pos: nat)
    requires pos <= |doc|
    ensures
      var t := NextToken(doc, pos);
      t.kind == ObjectBegin || t.kind == ArrayBegin ==> Openers(doc, t.end) + 1 <= Openers(doc, pos)
    decreases |doc| - pos
  {
    hide ReadToken;
    var t := ReadToken(doc, pos);
    if t.kind == Comment {
      OpenerNext(doc, t.end);
      OpenersAntitone(doc, pos, t.end);
    } else if t.kind == ObjectBegin || t.kind == ArrayBegin {
      OpenerToken(doc, pos);
      OpenersAntitone(doc, pos, t.start);
    }
  }

  /** The exception at nesting `nodes` needs enough opening brackets ahead to pass the limit. */
  lemma {:induction false} ThrownNeedsOpeners(src: Source, current: Value, nodes: nat, pos: nat)
    requires pos <= |src.doc| && ReadValue(src, current, nodes, pos).Thrown?
    ensures nodes + Openers(src.doc, pos) > STACK_LIMIT
    decreases |src.doc| - pos, 1
  {
    hide ReadItems, ReadMembers, NextToken, Decode, Openers;
    if nodes <= STACK_LIMIT {
      var t := NextToken(src.doc, pos);
      OpenerNext(src.doc, pos);
      if t.kind == ObjectBegin {
        MembersThrown(src, [], [], nodes, t.end);
      } else if t.kind == ArrayBegin {
        var p := SkipSpaces(src.doc, t.end);
        OpenersAntitone(src.doc, t.end, p);
        ItemsThrown(src, [], nodes, p);
      }
    }
  }

  lemma {:induction false} ItemsThrown(src: Source, items: seq<Value>, nodes: nat, pos: nat)
    requires pos <= |src.doc| && ReadItems(src, items, nodes, pos).Thrown?
    ensures nodes + 1 + Openers(src.doc, pos) > STACK_LIMIT
    decreases |src.doc| - pos, 2
  {
    hide ReadValue, NextToken, Openers;
    var element := ReadValue(src, Null, nodes + 1, pos);
    if element.Thrown? {
      ThrownNeedsOpeners(src, Null, nodes + 1, pos);
    } else if element.ok {
      var t := NextToken(src.doc, element.pos);
      ItemsThrown(src, items + [element.value], nodes, t.end);
      OpenersAntitone(src.doc, pos, t.end);
    }
  }

  lemma {:induction false} MembersThrown(src: Source, members: seq<Member>, name: bytes, nodes: nat, pos: nat)
    requires pos <= |src.doc| && ReadMembers(src, members, name, nodes, pos).Thrown?
    ensures nodes + 1 + Openers(src.doc, pos) > STACK_LIMIT
    decreases |src.doc| - pos, 3
  {
    hide MemberTail, NextToken, ReadToken, Decode, Openers;
    var nameToken := NextToken(src.doc, pos);
    var decoded := Decode(src.doc, nameToken.start + 1, nameToken.end - 1);
    var colon := ReadToken(src.doc, nameToken.end);
    TailThrown(src, members, decoded.value, nodes, colon.end);
    OpenersAntitone(src.doc, pos, colon.end);
  }

  lemma {:induction false} TailThrown(src: Source, members: seq<Member>, key: bytes, nodes: nat, pos: nat)
    requires pos <= |src.doc| && MemberTail(src, members, key, nodes, pos).Thrown?
    ensures nodes + 1 + Openers(src.doc, pos) > STACK_LIMIT
    decreases |src.doc| - pos, 2
  {
    hide ReadValue, ReadMembers, NextToken, ReadToken, Put, Lookup, Openers;
    var element := ReadValue(src, Lookup(members, key), nodes + 1, pos);
    if element.Thrown? {
      ThrownNeedsOpeners(src, Lookup(members, key), nodes + 1, pos);
    } else if element.ok {
      var t := ReadToken(src.doc, element.pos);
      var comma := if t.kind == Comment then NextToken(src.doc, t.end) else t;
      MembersThrown(src, Put(members, key, element.value), key, nodes, comma.end);
      OpenersAntitone(src.doc, pos, comma.end);
    }
  }

  /** parse throws only on a document with at least 1000 opening brackets; every other document gets an answer. */
  lemma ParseThrowsOnlyWhenDeep(src: Source, root: Value)
    ensures Parse(src, root).Thrown? ==> Openers(src.doc, 0) >= 1000
  {
    hide ReadValue, Openers;
    if Parse(src, root).Thrown? { ThrownNeedsOpeners(src, root, 1, 0); }
  }
}
