/**
 Number tokens (newJson/jsoncpp.cpp, Reader::readNumber and decodeNumber) against the grammar, both ways: a numeral is
 scanned as one token and decoded to its value, and every number token is a numeral.
 */
module JsonNumberScan {
  import opened Bytes
  import opened JsonValue
  import opened JsonNumber
  import opened JsonText
  import opened JsonReader
  import opened JsonGrammar

  lemma {:induction false} RunScanned(doc: bytes, a: nat, s: bytes, x: nat)
    requires At(doc, a, s) && DigitRun(s) && a <= x <= a + |s|
    requires a + |s| < |doc| ==> !DigitByte(doc[a + |s|])
    ensures SkipDigits(doc, x) == a + |s|
    decreases a + |s| - x
  {
    if x < a + |s| {
      AtIndex(doc, a, s, x - a);
      assert DigitByte(s[x - a]);
      RunScanned(doc, a, s, x + 1);
    }
  }

  lemma FracScanned(doc: bytes, b: nat, f: Option<bytes>)
    requires At(doc, b, FracText(f)) && (f.Some? ==> DigitRun(f.value))
    requires var c := b + |FracText(f)|; c < |doc| ==> !DigitByte(doc[c]) && (f.None? ==> doc[c] != 0x2e)
    ensures ReadFraction(doc, b) == b + |FracText(f)|
  {
    if f.Some? {
      AtSplit(doc, b, [0x2e], f.value);
      AtIndex(doc, b, [0x2e], 0);
      RunScanned(doc, b + 1, f.value, b + 1);
    }
  }

  lemma ExpScanned(doc: bytes, c: nat, e: Option<Exponent>)
    requires At(doc, c, ExpText(e)) && (e.Some? ==> ExponentOk(e.value))
    requires
      var end := c + |ExpText(e)|;
      end < |doc| ==>
        && !DigitByte(doc[end]) && (e.None? ==> doc[end] != 0x65 && doc[end] != 0x45)
        && (e.Some? && e.value.sign.None? && e.value.digits == [] ==> doc[end] != 0x2b && doc[end] != 0x2d)
    ensures ReadExponent(doc, c) == c + |ExpText(e)|
  {
    hide SkipDigits, At;
    if e.Some? {
      var x := e.value;
      ExpParts(doc, c, x);
      var d := c + 1 + |SignText(x.sign)|;
      if x.sign.None? && x.digits != [] {
        AtIndex(doc, d, x.digits, 0);
        assert DigitByte(x.digits[0]);
      }
      RunScanned(doc, d, x.digits, d);
    }
  }

  lemma ExpParts(doc: bytes, c: nat, x: Exponent)
    requires At(doc, c, ExpText(Some(x)))
    ensures
      var d := c + 1 + |SignText(x.sign)|;
      && c < |doc| && doc[c] == x.letter && At(doc, d, x.digits) && d + |x.digits| == c + |ExpText(Some(x))|
      && (x.sign.Some? ==> c + 1 < |doc| && doc[c + 1] == x.sign.value && d == c + 2)
  {
    hide At;
    AtSplit(doc, c, [x.letter], SignText(x.sign) + x.digits);
    AtSplit(doc, c + 1, SignText(x.sign), x.digits);
    AtIndex(doc, c, [x.letter], 0);
    if x.sign.Some? { AtIndex(doc, c + 1, SignText(x.sign), 0); }
  }

  /** Where the parts of a numeral stand. */
  lemma NumeralParts(doc: bytes, pos: nat, n: Numeral)
    requires At(doc, pos, NumeralText(n))
    ensures
      var a := if n.minus then pos + 1 else pos;
      var b := a + |n.whole|;
      var c := b + |FracText(n.frac)|;
      && At(doc, a, n.whole) && At(doc, b, FracText(n.frac)) && At(doc, c, ExpText(n.exp))
      && c + |ExpText(n.exp)| == pos + |NumeralText(n)| && (n.minus ==> pos < |doc| && doc[pos] == MINUS)
  {
    hide At, FracText, ExpText;
    var sign := if n.minus then [MINUS] else [];
    var a := pos + |sign|;
    AtSplit(doc, pos, sign, n.whole + (FracText(n.frac) + ExpText(n.exp)));
    AtSplit(doc, a, n.whole, FracText(n.frac) + ExpText(n.exp));
    AtSplit(doc, a + |n.whole|, FracText(n.frac), ExpText(n.exp));
    if n.minus { AtIndex(doc, pos, sign, 0); }
  }

  /** What stands behind a numeral that does not go on. */
  lemma NumeralStops(doc: bytes, end: nat, n: Numeral)
    requires end <= |doc| && NumeralEnds(n, doc[end..])
    ensures end < |doc| ==>
      && !DigitByte(doc[end]) && (n.exp.None? ==> doc[end] != 0x65 && doc[end] != 0x45)
      && (n.exp.None? && n.frac.None? ==> doc[end] != 0x2e)
      && (n.exp.Some? && n.exp.value.sign.None? && n.exp.value.digits == [] ==> doc[end] != 0x2b && doc[end] != 0x2d)
  {
    if end < |doc| { assert doc[end] == doc[end..][0]; }
  }

  lemma NumeralScanned(doc: bytes, pos: nat, n: Numeral)
    requires At(doc, pos, NumeralText(n)) && NumeralOk(n) && NumeralEnds(n, doc[pos + |NumeralText(n)|..])
    ensures pos < |doc| && (doc[pos] == MINUS || IsDigit(doc[pos]))
    ensures ReadNumber(doc, pos + 1) == pos + |NumeralText(n)|
  {
    hide At, ReadFraction, ReadExponent, SkipDigits, FracText, ExpText, NumeralText, NumeralEnds;
    var a := if n.minus then pos + 1 else pos;
    var b := a + |n.whole|;
    var c := b + |FracText(n.frac)|;
    NumeralParts(doc, pos, n);
    PlacedInside(doc, c, ExpText(n.exp));
    NumeralStops(doc, c + |ExpText(n.exp)|, n);
    ExpScanned(doc, c, n.exp);
    PartStarts(doc, c, n.exp);
    NoText(n);
    FracScanned(doc, b, n.frac);
    FracStarts(doc, b, n.frac);
    if !n.minus {
      AtIndex(doc, a, n.whole, 0);
      assert DigitByte(n.whole[0]);
    }
    RunScanned(doc, a, n.whole, pos + 1);
  }

  lemma PlacedInside(doc: bytes, pos: nat, w: bytes)
    requires At(doc, pos, w)
    ensures pos + |w| <= |doc|
  {
  }

  lemma NoText(n: Numeral)
    ensures n.exp.None? ==> |ExpText(n.exp)| == 0
    ensures n.frac.None? ==> |FracText(n.frac)| == 0
  {
  }

  /** A numeral that does not go on is one token. */
  lemma NumeralToken(doc: bytes, pos: nat, n: Numeral)
    requires At(doc, pos, NumeralText(n)) && NumeralOk(n) && NumeralEnds(n, doc[pos + |NumeralText(n)|..])
    ensures ReadToken(doc, pos) == NextToken(doc, pos) == Token(Number, pos, pos + |NumeralText(n)|)
  {
    NumeralScanned(doc, pos, n);
    hide ReadNumber, At, NumeralText, NumeralOk, NumeralEnds, ReadString, ReadComment;
    assert SkipSpaces(doc, pos) == pos;
  }

  lemma PartStarts(doc: bytes, c: nat, e: Option<Exponent>)
    requires At(doc, c, ExpText(e)) && (e.Some? ==> ExponentOk(e.value))
    ensures e.Some? ==> c < |doc| && (doc[c] == 0x65 || doc[c] == 0x45)
  {
    if e.Some? { AtIndex(doc, c, ExpText(e), 0); }
  }

  lemma FracStarts(doc: bytes, b: nat, f: Option<bytes>)
    requires At(doc, b, FracText(f))
    ensures f.Some? ==> b < |doc| && doc[b] == 0x2e
  {
    if f.Some? { AtIndex(doc, b, FracText(f), 0); }
  }

  lemma {:induction false} SkipsDigits(doc: bytes, x: nat)
    requires x <= |doc|
    ensures var y := SkipDigits(doc, x); DigitRun(doc[x..y]) && (y < |doc| ==> !DigitByte(doc[y]))
    decreases |doc| - x
  {
    if x < |doc| && IsDigit(doc[x]) {
      SkipsDigits(doc, x + 1);
      var y := SkipDigits(doc, x + 1);
      assert doc[x..y] == [doc[x]] + doc[x + 1..y];
    }
  }

  /** Every number token is a numeral that does not go on. */
  lemma FindNumeral(doc: bytes, start: nat) returns (n: Numeral)
    requires start < |doc| && (doc[start] == MINUS || IsDigit(doc[start]))
    ensures NumeralOk(n) && At(doc, start, NumeralText(n)) && start + |NumeralText(n)| == ReadNumber(doc, start + 1)
    ensures NumeralEnds(n, doc[ReadNumber(doc, start + 1)..])
  {
    var minus := doc[start] == MINUS;
    var a := if minus then start + 1 else start;
    var b := SkipDigits(doc, start + 1);
    SkipsDigits(doc, start + 1);
    var whole := doc[a..b];
    if !minus { assert whole == [doc[start]] + doc[start + 1..b]; }
    var c := ReadFraction(doc, b);
    var frac := FindFrac(doc, b);
    var end := ReadExponent(doc, c);
    var exp := FindExp(doc, c);
    n := Numeral(minus, whole, frac, exp);
    hide ReadFraction, ReadExponent, SkipDigits, FracText, ExpText;
    NumeralPlaced(doc, start, n, b, c, end);
  }

  lemma NumeralPlaced(doc: bytes, start: nat, n: Numeral, b: nat, c: nat, end: nat)
    requires start < |doc| && (n.minus ==> doc[start] == MINUS)
    requires var a := if n.minus then start + 1 else start; a <= b <= c <= end <= |doc| && n.whole == doc[a..b]
    requires FracText(n.frac) == doc[b..c] && ExpText(n.exp) == doc[c..end]
    ensures At(doc, start, NumeralText(n)) && start + |NumeralText(n)| == end
  {
    var a := if n.minus then start + 1 else start;
    hide FracText, ExpText;
    assert doc[b..end] == doc[b..c] + doc[c..end];
    assert doc[a..end] == doc[a..b] + doc[b..end];
    if n.minus { assert doc[start..end] == [MINUS] + doc[a..end]; }
    assert NumeralText(n) == doc[start..end];
  }

  lemma FindFrac(doc: bytes, b: nat) returns (f: Option<bytes>)
    requires b <= |doc|
    ensures var c := ReadFraction(doc, b); FracText(f) == doc[b..c] && (f.Some? ==> DigitRun(f.value))
    ensures
      var c := ReadFraction(doc, b);
      (f.None? ==> c == b && (b < |doc| ==> doc[b] != 0x2e)) && (f.Some? ==> c < |doc| ==> !DigitByte(doc[c]))
  {
    if b < |doc| && doc[b] == 0x2e {
      var c := SkipDigits(doc, b + 1);
      SkipsDigits(doc, b + 1);
      assert doc[b..c] == [0x2e] + doc[b + 1..c];
      f := Some(doc[b + 1..c]);
    } else {
      f := None;
    }
  }

  lemma FindExp(doc: bytes, c: nat) returns (e: Option<Exponent>)
    requires c <= |doc|
    ensures var end := ReadExponent(doc, c); ExpText(e) == doc[c..end] && (e.Some? ==> ExponentOk(e.value))
    ensures
      var end := ReadExponent(doc, c);
      && (e.None? ==> end == c && (c < |doc| ==> doc[c] != 0x65 && doc[c] != 0x45))
      && (e.Some? && end < |doc| ==> !DigitByte(doc[end]))
      && (e.Some? && end < |doc| && e.value.sign.None? && e.value.digits == [] ==> doc[end] != 0x2b && doc[end] != 0x2d)
  {
    if c < |doc| && (doc[c] == 0x65 || doc[c] == 0x45) {
      var end := ReadExponent(doc, c);
      var signed := c + 1 < |doc| && (doc[c + 1] == 0x2b || doc[c + 1] == 0x2d);
      var d := if signed then c + 2 else c + 1;
      SkipsDigits(doc, d);
      e := Some(Exponent(doc[c], if signed then Some(doc[c + 1]) else None, doc[d..end]));
      assert doc[c..end] == [doc[c]] + (SignText(e.value.sign) + doc[d..end]);
    } else {
      e := None;
    }
  }

  lemma {:induction false} DecimalSnoc(s: bytes, c: byte)
    ensures Decimal(s + [c]) == Decimal(s) * 10 + (c - 0x30)
    decreases |s|
  {
    if s == [] {
      assert [c][1..] == [];
      assert s + [c] == [c];
    } else {
      var w := s + [c];
      assert w[0] == s[0] && w[1..] == s[1..] + [c];
      DecimalSnoc(s[1..], c);
      var d: int := s[0];
      TenTimes(d - 0x30, |s| - 1);
    }
  }

  lemma TenTimes(d: int, k: nat)
    ensures d * TenTo(k + 1) == 10 * (d * TenTo(k))
  {
  }

  lemma {:induction false} DecimalIsValue(s: bytes)
    requires AllDigits(s)
    ensures Decimal(s) == DecVal(s)
    decreases |s|
  {
    if s != [] {
      var front, c := s[..|s| - 1], s[|s| - 1];
      assert s == front + [c];
      DecimalIsValue(front);
      DecimalSnoc(front, c);
    }
  }

  /** Behind the minus an integer is its digits; with a fraction or an exponent it is not digits alone. */
  lemma NumeralBody(n: Numeral)
    requires NumeralOk(n)
    ensures Negative(NumeralText(n)) <==> n.minus
    ensures n.frac.None? && n.exp.None? ==> Body(NumeralText(n)) == n.whole && AllDigits(n.whole)
    ensures n.frac.Some? || n.exp.Some? ==> !AllDigits(Body(NumeralText(n)))
  {
    var text := NumeralText(n);
    var rest := n.whole + (FracText(n.frac) + ExpText(n.exp));
    if n.minus {
      assert text[1..] == rest;
    } else {
      assert text == rest && DigitByte(n.whole[0]);
    }
    assert Body(text) == rest;
    if n.frac.None? && n.exp.None? {
      assert rest == n.whole;
      assert forall i :: 0 <= i < |n.whole| ==> DigitByte(n.whole[i]);
    } else if n.frac.Some? {
      assert rest[|n.whole|] == FracText(n.frac)[0] == 0x2e;
      assert !IsDigit(rest[|n.whole|]);
    } else {
      assert rest[|n.whole|] == ExpText(n.exp)[0] == n.exp.value.letter;
      assert !IsDigit(rest[|n.whole|]);
    }
  }

  /** decodeNumber takes a numeral for an integer if it has no fraction and no exponent and fits 64 bits. */
  lemma DecodeOfNumeral(n: Numeral)
    requires NumeralOk(n)
    ensures
      var x := Decimal(n.whole);
      var k := if n.minus then -x else x;
      DecodeNumber(NumeralText(n)) ==
      if n.frac.None? && n.exp.None? && -0x8000_0000_0000_0000 <= k <= 0xffff_ffff_ffff_ffff
      then (if k <= 0x7fff_ffff then Signed(k) else Unsigned(k)) else AsDouble
  {
    NumeralBody(n);
    if n.frac.None? && n.exp.None? { DecimalIsValue(n.whole); }
    hide NumeralText, NumeralOk, Decimal, DecVal, Body, Negative;
  }

  /** decodeNumber gives a numeral its value. */
  lemma NumeralValue(src: Source, current: Value, t: Token, n: Numeral)
    requires t.start < t.end <= |src.doc| && src.doc[t.start..t.end] == NumeralText(n) && NumeralOk(n)
    ensures
      var r, v := NumberValue(src, current, t), NumeralTree(src.toDouble, n);
      if v.Some? then r == Done(true, v.value, t.end, 0) else r.Done? && !r.ok
  {
    hide NumeralText, NumeralOk, DecodeNumber, Decimal;
    DecodeOfNumeral(n);
  }

  /**
   Text that the reader takes as a 64-bit integer is a number of RFC 8259 if and only if it has digits and no leading
   zero; a lone minus and leading zeros are taken beyond it.
   */
  lemma TakenIntegerIsGrammaticalIff(text: bytes)
    requires FitsInteger(text)
    ensures
      (exists n :: NumeralOk(n) && StandardNumeral(n) && NumeralText(n) == text) <==>
      Body(text) != [] && (|Body(text)| > 1 ==> Body(text)[0] != ZERO)
  {
    forall n | NumeralOk(n) && StandardNumeral(n) && NumeralText(n) == text
      ensures Body(text) != [] && (|Body(text)| > 1 ==> Body(text)[0] != ZERO)
    {
      NumeralBody(n);
    }
    if Body(text) != [] && (|Body(text)| > 1 ==> Body(text)[0] != ZERO) {
      var n := Numeral(Negative(text), Body(text), None, None);
      assert forall i :: 0 <= i < |n.whole| ==> IsDigit(n.whole[i]);
      assert NumeralText(n) == text;
      assert NumeralOk(n) && StandardNumeral(n);
    }
  }
}
