/**
 String tokens (newJson/jsoncpp.cpp, Reader::readString and decodeString) against the grammar, both ways: a string of
 the grammar is scanned as one token and decoded to its meaning, and every string token that decodes is one of the
 grammar.
 */
module JsonStringScan {
  import opened Bytes
  import opened JsonText
  import opened JsonReader
  import opened JsonGrammar

  // ---- from the grammar to the reader ----------------------------------------------------------

  lemma NibbleIsHex(n: Nibble)
    requires NibbleOk(n)
    ensures HexValue(NibbleByte(n)) == Some(n.value) && NibbleByte(n) != QUOTE && NibbleByte(n) != BACKSLASH
  {
  }

  lemma ShortIsUnescaped(letter: byte)
    ensures Unescaped(letter).Some? <==> letter in SHORT
    ensures letter in SHORT ==> Unescaped(letter).value == SHORT[letter] && letter != LETTER_U
  {
  }

  lemma UnitHead(doc: bytes, pos: nat, u: Unit)
    requires At(doc, pos, UnitText(u)) && UnitOk(u)
    ensures pos + |UnitText(u)| <= |doc| && doc[pos] == UnitText(u)[0]
    ensures u.Short? ==> pos + 2 <= |doc| && doc[pos + 1] == u.letter
    ensures u.Hex? ==> pos + 6 <= |doc| && doc[pos + 1] == LETTER_U
    ensures u.Hex? ==> doc[pos + 2] == NibbleByte(u.n3) && doc[pos + 3] == NibbleByte(u.n2)
    ensures u.Hex? ==> doc[pos + 4] == NibbleByte(u.n1) && doc[pos + 5] == NibbleByte(u.n0)
  {
    var w := UnitText(u);
    hide NibbleByte, At;
    AtIndex(doc, pos, w, 0);
    AtIndex(doc, pos, w, |w| - 1);
    if u.Hex? {
      AtIndex(doc, pos, w, 1);
      AtIndex(doc, pos, w, 2);
      AtIndex(doc, pos, w, 3);
      AtIndex(doc, pos, w, 4);
    }
  }

  lemma ScanOneUnit(doc: bytes, pos: nat, u: Unit)
    requires At(doc, pos, UnitText(u)) && UnitOk(u)
    ensures pos + |UnitText(u)| <= |doc| && ReadString(doc, pos) == ReadString(doc, pos + |UnitText(u)|)
  {
    hide At, NibbleByte;
    UnitHead(doc, pos, u);
    if u.Hex? {
      NibbleIsHex(u.n3);
      NibbleIsHex(u.n2);
      NibbleIsHex(u.n1);
      NibbleIsHex(u.n0);
      assert ReadString(doc, pos) == ReadString(doc, pos + 2);
      ScanPlain(doc, pos + 2);
      ScanPlain(doc, pos + 3);
      ScanPlain(doc, pos + 4);
      ScanPlain(doc, pos + 5);
    }
  }

  lemma {:induction false} ScanUnits(doc: bytes, pos: nat, us: seq<Unit>)
    requires At(doc, pos, UnitsText(us)) && UnitsOk(us)
    ensures pos + |UnitsText(us)| <= |doc| && ReadString(doc, pos) == ReadString(doc, pos + |UnitsText(us)|)
    decreases |us|
  {
    hide At, UnitOk, UnitText, ReadString;
    if us != [] {
      AtSplit(doc, pos, UnitText(us[0]), UnitsText(us[1..]));
      ScanOneUnit(doc, pos, us[0]);
      ScanUnits(doc, pos + |UnitText(us[0])|, us[1..]);
    } else {
      AtEmpty(doc, pos);
    }
  }

  lemma AtEmpty(doc: bytes, pos: nat)
    requires At(doc, pos, [])
    ensures pos <= |doc|
  {
  }

  lemma HexUnit(doc: bytes, pos: nat, u: Unit, end: nat)
    requires At(doc, pos, UnitText(u)) && UnitOk(u) && u.Hex? && pos + 6 <= end <= |doc|
    ensures doc[pos] == BACKSLASH && doc[pos + 1] == LETTER_U && Hex4(doc, pos + 2, end) == Some(HexOf(u))
  {
    hide At, NibbleByte, HexValue;
    UnitHead(doc, pos, u);
    NibbleIsHex(u.n3);
    NibbleIsHex(u.n2);
    NibbleIsHex(u.n1);
    NibbleIsHex(u.n0);
  }

  function UnitMeaning(u: Unit): (s: bytes) {
    match u
    case Raw(c) => [c]
    case Short(letter) => [if letter in SHORT then SHORT[letter] else letter]
    case Hex(_, _, _, _) => Utf8(HexOf(u))
  }

  /** A unit that stands for itself. */
  lemma DecodeSingle(doc: bytes, pos: nat, u: Unit, end: nat)
    requires At(doc, pos, UnitText(u)) && UnitOk(u) && pos + |UnitText(u)| <= end <= |doc|
    requires u.Hex? ==> !IsHigh(HexOf(u))
    ensures Decode(doc, pos, end) == Before(UnitMeaning(u), Decode(doc, pos + |UnitText(u)|, end))
  {
    hide At, Hex4, Utf8, HexOf, NibbleByte;
    UnitHead(doc, pos, u);
    if u.Short? { ShortIsUnescaped(u.letter); }
    hide Unescaped;
    if u.Hex? {
      HexUnit(doc, pos, u, end);
      assert DecodeCodePoint(doc, pos + 2, end) == Some(Head(HexOf(u), 4));
    }
  }

  lemma DecodeHighPair(doc: bytes, pos: nat, u: Unit, v: Unit, end: nat)
    requires At(doc, pos, UnitText(u)) && UnitOk(u) && u.Hex? && IsHigh(HexOf(u))
    requires At(doc, pos + 6, UnitText(v)) && UnitOk(v) && v.Hex? && pos + 12 <= end <= |doc|
    ensures
      Decode(doc, pos, end) == Before(Utf8(PairOf(HexOf(u), HexOf(v))), Decode(doc, pos + 12, end))
  {
    hide At, Hex4, Utf8, HexOf, UnitText;
    HexUnit(doc, pos, u, end);
    HexUnit(doc, pos + 6, v, end);
    assert HexOf(u) % 1024 * 1024 == (HexOf(u) - 0xD800) * 0x400;
    assert DecodeCodePoint(doc, pos + 2, end) == Some(Head(PairOf(HexOf(u), HexOf(v)), 10));
  }

  /** A high surrogate with nothing behind it, or with a unit that is no hexadecimal escape. */
  lemma DecodeLoneHigh(doc: bytes, pos: nat, u: Unit, end: nat)
    requires At(doc, pos, UnitText(u)) && UnitOk(u) && u.Hex? && IsHigh(HexOf(u)) && pos + 6 <= end <= |doc|
    requires pos + 6 < end ==> doc[pos + 6] != BACKSLASH || (pos + 7 < end && doc[pos + 7] != LETTER_U)
    ensures Decode(doc, pos, end) == None
  {
    hide At, Hex4, Utf8, HexOf, UnitText;
    HexUnit(doc, pos, u, end);
    assert DecodeCodePoint(doc, pos + 2, end) == None;
  }

  lemma {:induction false} DecodeUnits(doc: bytes, pos: nat, us: seq<Unit>, end: nat)
    requires At(doc, pos, UnitsText(us)) && UnitsOk(us) && end == pos + |UnitsText(us)| <= |doc|
    ensures Decode(doc, pos, end) == Meaning(us)
    decreases |us|
  {
    hide At, Decode, UnitOk, UnitText, HexOf, Utf8, IsHigh;
    if us == [] {
      DecodeNothing(doc, pos);
    } else {
      var u, rest := us[0], us[1..];
      AtSplit(doc, pos, UnitText(u), UnitsText(rest));
      if u.Hex? && IsHigh(HexOf(u)) {
        DecodeHigh(doc, pos, us, end);
      } else {
        DecodeSingle(doc, pos, u, end);
        DecodeUnits(doc, pos + |UnitText(u)|, rest, end);
      }
    }
  }

  lemma {:induction false} DecodeHigh(doc: bytes, pos: nat, us: seq<Unit>, end: nat)
    requires us != [] && us[0].Hex? && UnitsOk(us) && IsHigh(HexOf(us[0]))
    requires At(doc, pos, UnitText(us[0])) && At(doc, pos + |UnitText(us[0])|, UnitsText(us[1..]))
    requires end == pos + |UnitsText(us)| <= |doc|
    ensures Decode(doc, pos, end) == Meaning(us)
    decreases |us| - 1
  {
    hide At, Decode, HexOf, Utf8, IsHigh, NibbleByte;
    var u, rest := us[0], us[1..];
    if rest == [] {
      DecodeLoneHigh(doc, pos, u, end);
    } else {
      var v := rest[0];
      AtSplit(doc, pos + 6, UnitText(v), UnitsText(rest[1..]));
      if v.Hex? {
        DecodeHighPair(doc, pos, u, v, end);
        assert rest[1..] == us[2..];
        DecodeUnits(doc, pos + 12, us[2..], end);
      } else {
        UnitHead(doc, pos + 6, v);
        if v.Short? { ShortIsUnescaped(v.letter); }
        DecodeLoneHigh(doc, pos, u, end);
      }
    }
  }

  lemma DecodeNothing(doc: bytes, pos: nat)
    requires pos <= |doc|
    ensures Decode(doc, pos, pos) == Some([])
  {
  }

  /** A string of the grammar is one token, and decodes to its meaning. */
  lemma QuotedToken(doc: bytes, pos: nat, us: seq<Unit>)
    requires At(doc, pos, Quoted(us)) && UnitsOk(us)
    ensures
      var end := pos + |Quoted(us)|;
      && end <= |doc| && ReadToken(doc, pos) == NextToken(doc, pos) == Token(String, pos, end)
      && Decode(doc, pos + 1, end - 1) == Meaning(us)
  {
    hide UnitsText, ReadString, Decode, Meaning, UnitsOk;
    var text := UnitsText(us);
    Enclosed(doc, pos, text);
    ScanUnits(doc, pos + 1, us);
    ScanQuote(doc, pos + 1 + |text|);
    DecodeUnits(doc, pos + 1, us, pos + 1 + |text|);
    assert SkipSpaces(doc, pos) == pos;
  }

  // ---- from the reader to the grammar ----------------------------------------------------------

  lemma FindNibble(c: byte) returns (n: Nibble)
    requires HexValue(c).Some?
    ensures NibbleOk(n) && NibbleByte(n) == c && HexValue(c) == Some(n.value) && c != QUOTE && c != BACKSLASH
  {
    n := Nibble(HexValue(c).value, 0x41 <= c <= 0x46);
  }

  /** Four digits that decode behind a backslash and u are a hexadecimal escape, and the scanner passes over them. */
  lemma FindHex(doc: bytes, pos: nat, end: nat) returns (u: Unit)
    requires pos + 2 <= end <= |doc| && doc[pos] == BACKSLASH && doc[pos + 1] == LETTER_U
      && Hex4(doc, pos + 2, end).Some?
    ensures u.Hex? && UnitOk(u) && At(doc, pos, UnitText(u)) && |UnitText(u)| == 6
    ensures Hex4(doc, pos + 2, end) == Some(HexOf(u)) && pos + 6 <= end
    ensures ReadString(doc, pos) == ReadString(doc, pos + 6)
  {
    hide ReadString, NibbleByte, HexValue;
    var a := FindNibble(doc[pos + 2]);
    var b := FindNibble(doc[pos + 3]);
    var c := FindNibble(doc[pos + 4]);
    var d := FindNibble(doc[pos + 5]);
    u := Hex(a, b, c, d);
    assert doc[pos..pos + 6] == UnitText(u);
    ScanOneUnit(doc, pos, u);
  }

  /** The bytes between the quotes of a string token that decodes are units of the grammar with that meaning. */
  lemma {:induction false} FindUnits(doc: bytes, pos: nat, close: nat) returns (us: seq<Unit>)
    requires pos <= |doc| && ReadString(doc, pos) == Scan(true, close) && Decode(doc, pos, close - 1).Some?
    ensures UnitsOk(us) && At(doc, pos, UnitsText(us)) && pos + |UnitsText(us)| == close - 1
    ensures Meaning(us) == Decode(doc, pos, close - 1)
    decreases close - pos
  {
    hide At, UnitText, UnitOk;
    us := FindUnitsStep(doc, pos, close);
    ScanUnits(doc, pos, us);
    DecodeUnits(doc, pos, us, close - 1);
  }

  lemma {:induction false} FindUnitsStep(doc: bytes, pos: nat, close: nat) returns (us: seq<Unit>)
    requires pos <= |doc| && ReadString(doc, pos) == Scan(true, close) && Decode(doc, pos, close - 1).Some?
    ensures UnitsOk(us) && At(doc, pos, UnitsText(us)) && pos + |UnitsText(us)| == close - 1
    decreases close - pos
  {
    hide Hex4, Utf8, HexOf, UnitText, At;
    if doc[pos] == QUOTE {
      us := [];
      NothingAt(doc, pos);
    } else if doc[pos] != BACKSLASH {
      var rest := FindUnitsStep(doc, pos + 1, close);
      us := ConsUnit(doc, pos, Raw(doc[pos]), rest);
    } else if doc[pos + 1] == LETTER_U {
      us := FindEscape(doc, pos, close);
    } else {
      ShortIsUnescaped(doc[pos + 1]);
      var rest := FindUnitsStep(doc, pos + 2, close);
      us := ConsUnit(doc, pos, Short(doc[pos + 1]), rest);
    }
  }

  lemma {:induction false} FindEscape(doc: bytes, pos: nat, close: nat) returns (us: seq<Unit>)
    requires pos + 1 < |doc| && doc[pos] == BACKSLASH && doc[pos + 1] == LETTER_U
    requires ReadString(doc, pos) == Scan(true, close) && Decode(doc, pos, close - 1).Some?
    ensures UnitsOk(us) && At(doc, pos, UnitsText(us)) && pos + |UnitsText(us)| == close - 1
    decreases close - pos, 0
  {
    hide Hex4, Utf8, HexOf, UnitText, UnitOk, At, ReadString;
    var end := close - 1;
    EscapeInside(doc, pos, close);
    var u := FindHex(doc, pos, end);
    var cp := DecodeCodePoint(doc, pos + 2, end);
    if cp.value.length == 4 {
      var rest := FindUnitsStep(doc, pos + 6, close);
      us := ConsHex(doc, pos, u, rest);
    } else {
      EscapeInside(doc, pos + 6, close);
      var v := FindHex(doc, pos + 6, end);
      var rest := FindUnitsStep(doc, pos + 12, close);
      rest := ConsHex(doc, pos + 6, v, rest);
      us := ConsHex(doc, pos, u, rest);
    }
  }

  /** An escape before the closing quote has its letter before it too. */
  lemma EscapeInside(doc: bytes, pos: nat, close: nat)
    requires pos + 1 < |doc| && doc[pos] == BACKSLASH && ReadString(doc, pos) == Scan(true, close)
    ensures pos + 2 <= close - 1 < |doc|
  {
  }

  lemma NothingAt(doc: bytes, pos: nat)
    requires pos <= |doc|
    ensures At(doc, pos, UnitsText([]))
  {
  }

  lemma ConsUnit(doc: bytes, pos: nat, u: Unit, rest: seq<Unit>) returns (us: seq<Unit>)
    requires u.Raw? || u.Short?
    requires pos + (if u.Raw? then 1 else 2) <= |doc| && UnitOk(u) && UnitsOk(rest)
    requires if u.Raw? then doc[pos] == u.plain else doc[pos] == BACKSLASH && doc[pos + 1] == u.letter
    requires At(doc, pos + (if u.Raw? then 1 else 2), UnitsText(rest))
    ensures UnitsOk(us) && At(doc, pos, UnitsText(us))
    ensures |UnitsText(us)| == (if u.Raw? then 1 else 2) + |UnitsText(rest)|
  {
    hide UnitOk;
    us := [u] + rest;
    assert us[1..] == rest;
    assert doc[pos..pos + |UnitText(u)|] == UnitText(u);
    AtSplit(doc, pos, UnitText(u), UnitsText(rest));
  }

  lemma ConsHex(doc: bytes, pos: nat, u: Unit, rest: seq<Unit>) returns (us: seq<Unit>)
    requires At(doc, pos, UnitText(u)) && UnitOk(u) && UnitsOk(rest) && At(doc, pos + |UnitText(u)|, UnitsText(rest))
    ensures UnitsOk(us) && At(doc, pos, UnitsText(us)) && |UnitsText(us)| == |UnitText(u)| + |UnitsText(rest)|
  {
    hide UnitOk, UnitText, At;
    us := [u] + rest;
    assert us[1..] == rest;
    AtSplit(doc, pos, UnitText(u), UnitsText(rest));
  }

  // ---- strings that are only passed over ---------------------------------------------------------

  lemma {:induction false} SkipsScanned(doc: bytes, pos: nat, ss: seq<Skip>)
    requires At(doc, pos, SkipsText(ss)) && forall i :: 0 <= i < |ss| ==> SkipOk(ss[i])
    ensures pos + |SkipsText(ss)| <= |doc| && ReadString(doc, pos) == ReadString(doc, pos + |SkipsText(ss)|)
    decreases |ss|
  {
    if ss != [] {
      var w := SkipText(ss[0]);
      AtSplit(doc, pos, w, SkipsText(ss[1..]));
      AtIndex(doc, pos, w, 0);
      AtIndex(doc, pos, w, |w| - 1);
      assert SkipOk(ss[0]);
      SkipsScanned(doc, pos + |w|, ss[1..]);
    }
  }

  lemma {:induction false} FindSkips(doc: bytes, pos: nat, close: nat) returns (ss: seq<Skip>)
    requires pos <= |doc| && ReadString(doc, pos) == Scan(true, close)
    ensures (forall i :: 0 <= i < |ss| ==> SkipOk(ss[i])) && At(doc, pos, SkipsText(ss))
    ensures pos + |SkipsText(ss)| == close - 1
    decreases close - pos
  {
    if doc[pos] == QUOTE {
      ss := [];
    } else {
      var s := if doc[pos] == BACKSLASH then Escaped(doc[pos + 1]) else Plain(doc[pos]);
      var w := SkipText(s);
      var rest := FindSkips(doc, pos + |w|, close);
      ss := [s] + rest;
      assert ss[1..] == rest;
      assert doc[pos..pos + |w|] == w;
      AtSplit(doc, pos, w, SkipsText(rest));
    }
  }
}
