/**
 Single tokens (newJson/jsoncpp.cpp, Reader::readToken and match) against the grammar, both ways: punctuation, literals,
 and the tokens readObject takes for a comma behind a comment.
 */
module JsonTokenScan {
  import opened Bytes
  import opened JsonNumber
  import opened JsonText
  import opened JsonReader
  import opened JsonGrammar
  import opened JsonNumberScan
  import opened JsonStringScan
  import opened JsonGapScan

  lemma PunctuationToken(doc: bytes, pos: nat, c: byte, kind: TokenType)
    requires pos < |doc| && doc[pos] == c
    requires
      || (c == 0x7b && kind == ObjectBegin) || (c == 0x7d && kind == ObjectEnd)
      || (c == 0x5b && kind == ArrayBegin) || (c == 0x5d && kind == ArrayEnd)
      || (c == 0x2c && kind == Separator) || (c == 0x3a && kind == MemberSeparator)
    ensures ReadToken(doc, pos) == NextToken(doc, pos) == Token(kind, pos, pos + 1)
  {
    assert SkipSpaces(doc, pos) == pos;
  }

  function LiteralText(kind: TokenType): (s: bytes) {
    if kind == True then TRUE_ else if kind == False then FALSE_ else NULL_
  }

  predicate IsLiteralKind(kind: TokenType) { kind == True || kind == False || kind == NullToken }

  lemma LiteralIsToken(doc: bytes, pos: nat, kind: TokenType)
    requires IsLiteralKind(kind) && At(doc, pos, LiteralText(kind))
    ensures ReadToken(doc, pos) == NextToken(doc, pos) == Token(kind, pos, pos + |LiteralText(kind)|)
  {
    var w := LiteralText(kind);
    assert w == [w[0]] + w[1..];
    assert w[1..] == if kind == True then RUE else if kind == False then ALSE else ULL;
    AtSplit(doc, pos, [w[0]], w[1..]);
    AtIndex(doc, pos, [w[0]], 0);
    assert SkipSpaces(doc, pos) == pos;
  }

  /** What every token tells about the bytes it covers. */
  lemma TokenShape(doc: bytes, pos: nat)
    requires pos <= |doc|
    ensures
      var t := ReadToken(doc, pos);
      && (t.kind == ObjectBegin ==> doc[t.start] == 0x7b && t.end == t.start + 1)
      && (t.kind == ObjectEnd ==> doc[t.start] == 0x7d && t.end == t.start + 1)
      && (t.kind == ArrayBegin ==> doc[t.start] == 0x5b && t.end == t.start + 1)
      && (t.kind == ArrayEnd ==> doc[t.start] == 0x5d && t.end == t.start + 1)
      && (t.kind == Separator ==> doc[t.start] == 0x2c && t.end == t.start + 1)
      && (t.kind == MemberSeparator ==> doc[t.start] == 0x3a && t.end == t.start + 1)
      && (t.kind == String ==> doc[t.start] == QUOTE && ReadString(doc, t.start + 1) == Scan(true, t.end))
      && (t.kind == Number ==>
            (doc[t.start] == MINUS || IsDigit(doc[t.start])) && t.end == ReadNumber(doc, t.start + 1))
      && (t.kind == True ==> doc[t.start] == 0x74 && At(doc, t.start + 1, RUE) && t.end == t.start + 4)
      && (t.kind == False ==> doc[t.start] == 0x66 && At(doc, t.start + 1, ALSE) && t.end == t.start + 5)
      && (t.kind == NullToken ==> doc[t.start] == 0x6e && At(doc, t.start + 1, ULL) && t.end == t.start + 4)
  {
    hide SkipSpaces, ReadString, ReadComment, ReadNumber, At;
  }

  lemma {:induction false} NextTokenIsToken(doc: bytes, pos: nat) returns (p: nat)
    requires pos <= |doc|
    ensures pos <= p <= |doc| && NextToken(doc, pos) == ReadToken(doc, p)
    decreases |doc| - pos
  {
    hide ReadToken;
    var t := ReadToken(doc, pos);
    if t.kind == Comment { p := NextTokenIsToken(doc, t.end); } else { p := pos; }
  }

  lemma LiteralAt(doc: bytes, pos: nat, kind: TokenType)
    requires IsLiteralKind(kind) && pos < |doc| && doc[pos] == LiteralText(kind)[0]
    requires At(doc, pos + 1, if kind == True then RUE else if kind == False then ALSE else ULL)
    ensures At(doc, pos, LiteralText(kind))
  {
    var w := LiteralText(kind);
    var rest := if kind == True then RUE else if kind == False then ALSE else ULL;
    assert w == [w[0]] + rest;
    assert doc[pos..pos + 1] == [w[0]];
    AtSplit(doc, pos, [w[0]], rest);
  }

  // ---- tokens taken for a comma ----------------------------------------------------------------------

  /** What stands behind such a token: the next name or the closing brace, or a gap before it. */
  predicate BehindJunk(c: byte) { BlankByte(c) || c == 0x2f || c == QUOTE || c == 0x7d }

  lemma JunkIsToken(doc: bytes, pos: nat, j: Junk)
    requires At(doc, pos, JunkText(j)) && JunkOk(j)
    requires var e := pos + |JunkText(j)|; e < |doc| && BehindJunk(doc[e])
    ensures
      var t := ReadToken(doc, pos);
      t == NextToken(doc, pos) && t.start == pos && t.end == pos + |JunkText(j)| && t.kind != Comment
        && t.kind != ObjectEnd
  {
    var e := pos + |JunkText(j)|;
    match j
    case JunkByte(c) => JunkByteToken(doc, pos, c);
    case JunkSlash(c) =>
      AtIndex(doc, pos, [0x2f, c], 0);
      AtIndex(doc, pos, [0x2f, c], 1);
      assert SkipSpaces(doc, pos) == pos;
    case JunkString(ss) => JunkStringToken(doc, pos, ss);
    case JunkNumber(n) =>
      assert doc[e..][0] == doc[e];
      NumeralToken(doc, pos, n);
    case JunkTrue => LiteralIsToken(doc, pos, True);
    case JunkFalse => LiteralIsToken(doc, pos, False);
    case JunkNull => LiteralIsToken(doc, pos, NullToken);
  }

  lemma JunkByteToken(doc: bytes, pos: nat, c: byte)
    requires pos + 1 < |doc| && doc[pos..pos + 1] == [c] && JunkOk(JunkByte(c)) && BehindJunk(doc[pos + 1])
    ensures
      var t := ReadToken(doc, pos);
      t == NextToken(doc, pos) && t.start == pos && t.end == pos + 1 && t.kind != Comment && t.kind != ObjectEnd
  {
    assert doc[pos] == doc[pos..pos + 1][0] == c;
    assert SkipSpaces(doc, pos) == pos;
    NotLetters(doc, pos + 1);
  }

  lemma NotLetters(doc: bytes, pos: nat)
    requires pos < |doc| && BehindJunk(doc[pos])
    ensures !At(doc, pos, RUE) && !At(doc, pos, ALSE) && !At(doc, pos, ULL)
  {
    if At(doc, pos, RUE) { AtIndex(doc, pos, RUE, 0); }
    if At(doc, pos, ALSE) { AtIndex(doc, pos, ALSE, 0); }
    if At(doc, pos, ULL) { AtIndex(doc, pos, ULL, 0); }
  }

  lemma JunkStringToken(doc: bytes, pos: nat, ss: seq<Skip>)
    requires At(doc, pos, [QUOTE] + SkipsText(ss) + [QUOTE]) && forall i :: 0 <= i < |ss| ==> SkipOk(ss[i])
    ensures
      var end := pos + |SkipsText(ss)| + 2;
      end <= |doc| && ReadToken(doc, pos) == NextToken(doc, pos) == Token(String, pos, end)
  {
    hide SkipsText, ReadString, SkipOk;
    var text := SkipsText(ss);
    Enclosed(doc, pos, text);
    SkipsScanned(doc, pos + 1, ss);
    ScanQuote(doc, pos + 1 + |text|);
    assert SkipSpaces(doc, pos) == pos;
  }

  /** Every token but a closing brace and a comment, with something behind it, is one of these. */
  lemma FindJunk(doc: bytes, pos: nat) returns (j: Junk)
    requires pos <= |doc|
    requires var t := ReadToken(doc, pos); t.start < t.end < |doc| && t.kind != Comment && t.kind != ObjectEnd
    ensures var t := ReadToken(doc, pos); JunkOk(j) && At(doc, t.start, JunkText(j)) && t.start + |JunkText(j)| == t.end
  {
    hide ReadToken, ReadString, ReadNumber, At, NumeralText, SkipsText, JunkOk;
    var t := ReadToken(doc, pos);
    TokenShape(doc, pos);
    NotBlank(doc, pos);
    if t.kind == String {
      var ss := FindSkips(doc, t.start + 1, t.end);
      j := JunkString(ss);
      assert JunkOk(j) by { StringJunkOk(ss); }
      EncloseSkips(doc, t.start, ss);
    } else if t.kind == Number {
      var n := FindNumeral(doc, t.start);
      j := JunkNumber(n);
      assert JunkOk(j) by { NumberJunkOk(n); }
    } else if IsLiteralKind(t.kind) {
      LiteralAt(doc, t.start, t.kind);
      j := if t.kind == True then JunkTrue else if t.kind == False then JunkFalse else JunkNull;
      assert JunkOk(j) by { LiteralJunkOk(); }
    } else if doc[t.start] == 0x2f {
      j := SlashJunk(doc, pos);
    } else {
      j := JunkByte(doc[t.start]);
      ByteAt(doc, pos);
      assert JunkOk(j) by { ByteJunkOk(doc[t.start]); }
    }
  }

  lemma StringJunkOk(ss: seq<Skip>)
    requires forall i :: 0 <= i < |ss| ==> SkipOk(ss[i])
    ensures JunkOk(JunkString(ss))
  {
  }

  lemma NumberJunkOk(n: Numeral)
    requires NumeralOk(n)
    ensures JunkOk(JunkNumber(n))
  {
  }

  lemma LiteralJunkOk()
    ensures JunkOk(JunkTrue) && JunkOk(JunkFalse) && JunkOk(JunkNull)
  {
  }

  lemma ByteJunkOk(c: byte)
    requires !BlankByte(c) && !DigitByte(c) && c != 0x7d && c != 0x2f && c != QUOTE && c != MINUS
    ensures JunkOk(JunkByte(c))
  {
  }

  lemma NotBlank(doc: bytes, pos: nat)
    requires pos <= |doc| && ReadToken(doc, pos).start < |doc|
    ensures !BlankByte(doc[ReadToken(doc, pos).start])
  {
    hide ReadToken;
    ReadTokenStart(doc, pos);
    SkipsBlanks(doc, pos);
  }

  lemma EncloseSkips(doc: bytes, pos: nat, ss: seq<Skip>)
    requires pos < |doc| && doc[pos] == QUOTE && At(doc, pos + 1, SkipsText(ss))
    requires var e := pos + 1 + |SkipsText(ss)|; e < |doc| && doc[e] == QUOTE
    ensures At(doc, pos, [QUOTE] + SkipsText(ss) + [QUOTE])
  {
    var text := SkipsText(ss);
    hide SkipsText;
    var e := pos + 1 + |text|;
    assert doc[pos..pos + 1] == [QUOTE] && doc[e..e + 1] == [QUOTE];
    AtSplit(doc, pos, [QUOTE], text);
    AtSplit(doc, pos, [QUOTE] + text, [QUOTE]);
  }

  lemma SlashJunk(doc: bytes, pos: nat) returns (j: Junk)
    requires pos <= |doc|
    requires var t := ReadToken(doc, pos); t.start < t.end < |doc| && t.kind != Comment && doc[t.start] == 0x2f
    ensures var t := ReadToken(doc, pos); JunkOk(j) && At(doc, t.start, JunkText(j)) && t.start + |JunkText(j)| == t.end
  {
    hide SkipSpaces;
    var t := ReadToken(doc, pos);
    var p := t.start + 1;
    assert ReadComment(doc, p) == Scan(false, t.end);
    if doc[p] == 0x2a { UnclosedBlock(doc, p + 1); }
    j := JunkSlash(doc[p]);
    assert doc[t.start..t.end] == [0x2f, doc[p]];
  }

  lemma {:induction false} UnclosedBlock(doc: bytes, k: nat)
    requires k <= |doc|
    ensures !ReadBlockComment(doc, k).ok ==> ReadBlockComment(doc, k).pos == |doc|
    decreases |doc| - k
  {
    if k + 1 < |doc| { UnclosedBlock(doc, k + 1); }
  }

  lemma ByteAt(doc: bytes, pos: nat)
    requires pos <= |doc|
    requires var t := ReadToken(doc, pos); t.start < t.end < |doc| && doc[t.start] != 0x2f
    requires
      var k := ReadToken(doc, pos).kind;
      k != Comment && k != String && k != Number && !IsLiteralKind(k) && k != ObjectEnd
    ensures
      var t := ReadToken(doc, pos);
      && t.end == t.start + 1 && At(doc, t.start, [doc[t.start]]) && doc[t.start] != QUOTE && doc[t.start] != MINUS
      && !DigitByte(doc[t.start]) && doc[t.start] != 0x7d
  {
    hide SkipSpaces, ReadNumber;
    var t := ReadToken(doc, pos);
    if doc[t.start] == QUOTE { UnclosedString(doc, t.start + 1); }
    assert doc[t.start..t.start + 1] == [doc[t.start]];
  }

  lemma {:induction false} UnclosedString(doc: bytes, k: nat)
    requires k <= |doc|
    ensures !ReadString(doc, k).ok ==> ReadString(doc, k).pos == |doc|
    decreases |doc| - k
  {
    if k < |doc| && doc[k] == BACKSLASH {
      if k + 1 < |doc| { UnclosedString(doc, k + 2); }
    } else if k < |doc| && doc[k] != QUOTE {
      UnclosedString(doc, k + 1);
    }
  }
}
