/**
 White space, comments and single tokens (newJson/jsoncpp.cpp, Reader::skipSpaces, readComment, skipCommentTokens and
 readToken) against the grammar, both ways.
 */
module JsonGapScan {
  import opened Bytes
  import opened JsonNumber
  import opened JsonText
  import opened JsonReader
  import opened JsonGrammar
  import opened JsonNumberScan
  import opened JsonStringScan

  // ---- blanks --------------------------------------------------------------------------------

  predicate BlankRun(doc: bytes, a: nat, b: nat) {
    a <= b <= |doc| && forall i :: a <= i < b ==> BlankByte(doc[i])
  }

  lemma {:induction false} RunSkipped(doc: bytes, a: nat, b: nat)
    requires BlankRun(doc, a, b)
    ensures SkipSpaces(doc, a) == SkipSpaces(doc, b) && ReadToken(doc, a) == ReadToken(doc, b)
    ensures NextToken(doc, a) == NextToken(doc, b)
    decreases b - a
  {
    hide ReadString, ReadComment, ReadNumber, MatchRest;
    if a < b {
      assert BlankByte(doc[a]);
      RunSkipped(doc, a + 1, b);
    }
  }

  lemma {:induction false} SkipsBlanks(doc: bytes, a: nat)
    requires a <= |doc|
    ensures var p := SkipSpaces(doc, a); BlankRun(doc, a, p) && (p < |doc| ==> !BlankByte(doc[p]))
    decreases |doc| - a
  {
    if a < |doc| && IsSpace(doc[a]) { SkipsBlanks(doc, a + 1); }
  }

  lemma BlanksRun(doc: bytes, pos: nat, s: bytes)
    requires At(doc, pos, s) && Blanks(s)
    ensures BlankRun(doc, pos, pos + |s|)
  {
    forall i | pos <= i < pos + |s| ensures BlankByte(doc[i]) { AtIndex(doc, pos, s, i - pos); }
  }

  // ---- comments --------------------------------------------------------------------------------

  lemma {:induction false} BlockScanned(doc: bytes, a: nat, body: bytes, k: nat)
    requires At(doc, a, body + [0x2a, 0x2f]) && PieceOk(Block(body)) && k <= |body|
    ensures a + |body| + 2 <= |doc| && ReadBlockComment(doc, a + k) == Scan(true, a + |body| + 2)
    decreases |body| - k
  {
    var w := body + [0x2a, 0x2f];
    AtIndex(doc, a, w, k);
    AtIndex(doc, a, w, k + 1);
    if k < |body| {
      assert w[k] == body[k] && (k + 1 < |body| ==> w[k + 1] == body[k + 1]);
      BlockScanned(doc, a, body, k + 1);
    } else {
      assert w[k] == 0x2a && w[k + 1] == 0x2f;
    }
  }

  lemma {:induction false} LineScanned(doc: bytes, a: nat, text: bytes, end: byte, k: nat)
    requires At(doc, a, text + [end]) && PieceOk(Line(text, end)) && k <= |text|
    ensures
      var e := a + |text| + 1;
      && e <= |doc|
      && ReadLineComment(doc, a + k) == if end == 0x0d && e < |doc| && doc[e] == 0x0a then e + 1 else e
    decreases |text| - k
  {
    var w := text + [end];
    AtIndex(doc, a, w, k);
    if k < |text| {
      assert w[k] == text[k];
      LineScanned(doc, a, text, end, k + 1);
    }
  }

  /** A comment is one token, which may take one line end more. */
  lemma CommentToken(doc: bytes, pos: nat, p: Piece)
    requires At(doc, pos, PieceText(p)) && PieceOk(p) && !p.Blank?
    ensures
      var t, e := ReadToken(doc, pos), pos + |PieceText(p)|;
      t.kind == Comment && t.start == pos && e <= t.end && BlankRun(doc, e, t.end)
  {
    var w := PieceText(p);
    AtIndex(doc, pos, w, 0);
    AtIndex(doc, pos, w, 1);
    assert SkipSpaces(doc, pos) == pos;
    if p.Block? {
      AtSplit(doc, pos, [0x2f, 0x2a], p.body + [0x2a, 0x2f]);
      BlockScanned(doc, pos + 2, p.body, 0);
    } else {
      AtSplit(doc, pos, [0x2f, 0x2f], p.text + [p.end]);
      LineScanned(doc, pos + 2, p.text, p.end, 0);
    }
  }

  lemma PieceSkipped(doc: bytes, pos: nat, p: Piece)
    requires At(doc, pos, PieceText(p)) && PieceOk(p)
    ensures pos + |PieceText(p)| <= |doc| && NextToken(doc, pos) == NextToken(doc, pos + |PieceText(p)|)
    ensures p.Blank? ==> ReadToken(doc, pos) == ReadToken(doc, pos + |PieceText(p)|)
    ensures !p.Blank? ==>
      ReadToken(doc, pos).kind == Comment
        && NextToken(doc, ReadToken(doc, pos).end) == NextToken(doc, pos + |PieceText(p)|)
  {
    hide ReadToken, PieceOk;
    if p.Blank? {
      AtIndex(doc, pos, PieceText(p), 0);
      assert BlankByte(p.single) by { BlankPiece(p); }
      RunSkipped(doc, pos, pos + 1);
    } else {
      CommentToken(doc, pos, p);
      RunSkipped(doc, pos + |PieceText(p)|, ReadToken(doc, pos).end);
    }
  }

  lemma BlankPiece(p: Piece)
    requires PieceOk(p) && p.Blank?
    ensures BlankByte(p.single)
  {
  }

  // ---- gaps --------------------------------------------------------------------------------------

  /** skipCommentTokens passes over a gap. */
  lemma {:induction false} GapSkipped(doc: bytes, pos: nat, g: Gap)
    requires At(doc, pos, GapText(g)) && GapOk(g)
    ensures pos + |GapText(g)| <= |doc| && NextToken(doc, pos) == NextToken(doc, pos + |GapText(g)|)
    decreases |g|
  {
    hide At, NextToken, PieceText, PieceOk, ReadToken;
    if g == [] {
      AtEmpty(doc, pos);
    } else {
      AtSplit(doc, pos, PieceText(g[0]), GapText(g[1..]));
      PieceSkipped(doc, pos, g[0]);
      GapSkipped(doc, pos + |PieceText(g[0])|, g[1..]);
    }
  }

  /** The first token of a gap and what follows: a comment if the gap holds one, else the token behind it. */
  lemma {:induction false} GapThen(doc: bytes, pos: nat, g: Gap)
    requires At(doc, pos, GapText(g)) && GapOk(g)
    ensures pos + |GapText(g)| <= |doc|
    ensures
      var t, e := ReadToken(doc, pos), pos + |GapText(g)|;
      if HasComment(g) then t.kind == Comment && NextToken(doc, t.end) == NextToken(doc, e) else t == ReadToken(doc, e)
    decreases |g|
  {
    hide At, NextToken, PieceText, PieceOk, ReadToken;
    if g == [] {
      AtEmpty(doc, pos);
    } else {
      var p, rest := pos + |PieceText(g[0])|, g[1..];
      AtSplit(doc, pos, PieceText(g[0]), GapText(rest));
      PieceSkipped(doc, pos, g[0]);
      GapSkipped(doc, p, rest);
      GapThen(doc, p, rest);
      assert HasComment(g) <==> !g[0].Blank? || HasComment(rest) by { CommentIn(g); }
    }
  }

  lemma CommentIn(g: Gap)
    requires g != []
    ensures HasComment(g) <==> !g[0].Blank? || HasComment(g[1..])
  {
    var rest := g[1..];
    if i :| 0 <= i < |rest| && !rest[i].Blank? { assert !g[i + 1].Blank?; }
    if i :| 0 < i < |g| && !g[i].Blank? { assert !rest[i - 1].Blank?; }
  }

  /** A gap begins with a blank or a slash. */
  lemma GapStarts(g: Gap)
    requires GapOk(g) && g != []
    ensures |GapText(g)| > 0 && (BlankByte(GapText(g)[0]) || GapText(g)[0] == 0x2f)
  {
    assert PieceOk(g[0]);
  }

  // ---- gaps the reader passed over -----------------------------------------------------------------

  function BlankPieces(s: bytes): (g: Gap) {
    if s == [] then [] else [Blank(s[0])] + BlankPieces(s[1..])
  }

  lemma {:induction false} BlankPiecesText(s: bytes)
    requires Blanks(s)
    ensures GapOk(BlankPieces(s)) && GapText(BlankPieces(s)) == s && !HasComment(BlankPieces(s))
    decreases |s|
  {
    if s != [] {
      BlankPiecesText(s[1..]);
      var g := BlankPieces(s);
      assert g[1..] == BlankPieces(s[1..]);
      CommentIn(g);
      assert s == [s[0]] + s[1..];
    }
  }

  lemma {:induction false} FindBlock(doc: bytes, a: nat, k: nat, e: nat)
    requires a <= k <= |doc| && ReadBlockComment(doc, k) == Scan(true, e) && e < |doc|
    requires forall i :: a <= i < k - 1 ==> !(doc[i] == 0x2a && doc[i + 1] == 0x2f)
    requires a < k < |doc| ==> !(doc[k - 1] == 0x2a && doc[k] == 0x2f)
    ensures k + 2 <= e && doc[e - 2] == 0x2a && doc[e - 1] == 0x2f
    ensures forall i :: a <= i < e - 3 ==> !(doc[i] == 0x2a && doc[i + 1] == 0x2f)
    decreases |doc| - k
  {
    if k + 1 < |doc| && !(doc[k] == 0x2a && doc[k + 1] == 0x2f) { FindBlock(doc, a, k + 1, e); }
  }

  lemma {:induction false} FindLine(doc: bytes, k: nat) returns (m: nat)
    requires k <= |doc| && ReadLineComment(doc, k) < |doc|
    ensures
      var e := ReadLineComment(doc, k);
      && k <= m < |doc| && (doc[m] == 0x0a || doc[m] == 0x0d) && m + 1 <= e && BlankRun(doc, m + 1, e)
      && forall i :: k <= i < m ==> doc[i] != 0x0a && doc[i] != 0x0d
    decreases |doc| - k
  {
    if doc[k] == 0x0a || doc[k] == 0x0d { m := k; } else { m := FindLine(doc, k + 1); }
  }

  /** A comment token with something behind it is a comment of the grammar, and perhaps one line end more. */
  lemma FindComment(doc: bytes, pos: nat) returns (p: Piece)
    requires pos < |doc| && doc[pos] == 0x2f && ReadComment(doc, pos + 1).ok && ReadComment(doc, pos + 1).pos < |doc|
    ensures PieceOk(p) && !p.Blank? && At(doc, pos, PieceText(p))
    ensures var e, m := ReadComment(doc, pos + 1).pos, pos + |PieceText(p)|; m <= e && BlankRun(doc, m, e)
  {
    var e := ReadComment(doc, pos + 1).pos;
    if doc[pos + 1] == 0x2a {
      FindBlock(doc, pos + 2, pos + 2, e);
      p := Block(doc[pos + 2..e - 2]);
      assert doc[pos..e] == [0x2f, 0x2a] + (doc[pos + 2..e - 2] + [0x2a, 0x2f]);
    } else {
      var m := FindLine(doc, pos + 2);
      p := Line(doc[pos + 2..m], doc[m]);
      assert doc[pos..m + 1] == [0x2f, 0x2f] + (doc[pos + 2..m] + [doc[m]]);
    }
  }

  lemma GapJoin(doc: bytes, a: nat, g: Gap, h: Gap)
    requires GapOk(g) && GapOk(h) && At(doc, a, GapText(g)) && At(doc, a + |GapText(g)|, GapText(h))
    ensures GapOk(g + h) && GapText(g + h) == GapText(g) + GapText(h) && At(doc, a, GapText(g + h))
    ensures HasComment(g + h) <==> HasComment(g) || HasComment(h)
  {
    GapTextJoin(g, h);
    AtSplit(doc, a, GapText(g), GapText(h));
    hide GapText, PieceOk, At;
    if i :| 0 <= i < |h| && !h[i].Blank? { assert !(g + h)[|g| + i].Blank?; }
    if i :| 0 <= i < |g| && !g[i].Blank? { assert !(g + h)[i].Blank?; }
  }

  lemma {:induction false} GapTextJoin(g: Gap, h: Gap)
    ensures GapText(g + h) == GapText(g) + GapText(h)
    decreases |g|
  {
    hide PieceText;
    if g == [] {
      assert g + h == h;
    } else {
      assert (g + h)[0] == g[0] && (g + h)[1..] == g[1..] + h;
      GapTextJoin(g[1..], h);
    }
  }

  lemma FindBlanks(doc: bytes, a: nat, b: nat) returns (g: Gap)
    requires BlankRun(doc, a, b)
    ensures GapOk(g) && !HasComment(g) && GapText(g) == doc[a..b] && At(doc, a, GapText(g)) && |GapText(g)| == b - a
  {
    assert Blanks(doc[a..b]);
    BlankPiecesText(doc[a..b]);
    g := BlankPieces(doc[a..b]);
  }

  lemma ReadTokenStart(doc: bytes, pos: nat)
    requires pos <= |doc|
    ensures ReadToken(doc, pos).start == SkipSpaces(doc, pos)
    ensures
      var t := ReadToken(doc, pos);
      t.kind == Comment ==>
        t.start < |doc| && doc[t.start] == 0x2f && ReadComment(doc, t.start + 1) == Scan(true, t.end)
  {
    hide SkipSpaces, ReadString, ReadComment, ReadNumber, At;
  }

  /** What skipCommentTokens passed over before a token inside the document is a gap. */
  lemma {:induction false} FindGap(doc: bytes, pos: nat) returns (g: Gap)
    requires pos <= |doc| && NextToken(doc, pos).start < |doc|
    ensures GapOk(g) && At(doc, pos, GapText(g)) && pos + |GapText(g)| == NextToken(doc, pos).start
    ensures HasComment(g) <==> ReadToken(doc, pos).kind == Comment
    decreases |doc| - pos
  {
    hide ReadToken, At, GapText, GapOk, SkipSpaces, ReadComment;
    var t := ReadToken(doc, pos);
    ReadTokenStart(doc, pos);
    SkipsBlanks(doc, pos);
    var blanks := FindBlanks(doc, pos, t.start);
    if t.kind != Comment {
      g := blanks;
    } else {
      var p := FindComment(doc, t.start);
      var m := t.start + |PieceText(p)|;
      var lineEnd := FindBlanks(doc, m, t.end);
      var rest := FindGap(doc, t.end);
      GapJoin(doc, m, lineEnd, rest);
      g := blanks + ([p] + (lineEnd + rest));
      OnePiece(doc, t.start, p);
      GapJoin(doc, t.start, [p], lineEnd + rest);
      GapJoin(doc, pos, blanks, [p] + (lineEnd + rest));
    }
  }

  lemma OnePiece(doc: bytes, pos: nat, p: Piece)
    requires PieceOk(p) && At(doc, pos, PieceText(p)) && !p.Blank?
    ensures GapOk([p]) && GapText([p]) == PieceText(p) && At(doc, pos, GapText([p])) && HasComment([p])
  {
    assert [p][1..] == [];
    assert GapText([p]) == PieceText(p) + [];
    assert ![p][0].Blank?;
  }
}
