/**
 String text: escaping by the writer, scanning and unescaping by the reader
 (newJson/jsoncpp.cpp, codePointToUTF8, utf8ToCodepoint, valueToQuotedStringN,
 Reader::readString, decodeString, decodeUnicodeCodePoint, decodeUnicodeEscapeSequence).
 Shifts and masks of the source are written as divisions and remainders.
 */
module JsonText {
  import opened Bytes

  const QUOTE: byte := 0x22
  const BACKSLASH: byte := 0x5c
  const LETTER_U: byte := 0x75

  const REPLACEMENT: nat := 0xFFFD

  // ---- UTF-8, section 3 and 4 of RFC 3629 ---------------------------------------------

  /** codePointToUTF8: one to four bytes; nothing for values above 0x10FFFF. */
  function Utf8(cp: nat): (s: bytes)
    ensures |s| <= 4
    ensures |s| == 0 <==> cp > 0x10FFFF
  {
    if cp <= 0x7f then [cp]
    else if cp <= 0x7ff then [0xC0 + cp / 64, 0x80 + cp % 64]
    else if cp <= 0xffff then [0xE0 + cp / 4096, 0x80 + cp / 64 % 64, 0x80 + cp % 64]
    else if cp <= 0x10ffff then
      [0xF0 + cp / 262144, 0x80 + cp / 4096 % 64, 0x80 + cp / 64 % 64, 0x80 + cp % 64]
    else []
  }

  function Bits(b: byte, mark: int): (x: int) { b - mark }

  /** The number the bytes of one character denote: the bits behind the marks of the table in section 3 of RFC 3629. */
  function Denoted(s: bytes): (cp: int) {
    if |s| == 1 then s[0]
    else if |s| == 2 then Bits(s[0], 0xC0) * 0x40 + Bits(s[1], 0x80)
    else if |s| == 3 then Bits(s[0], 0xE0) * 0x1000 + Bits(s[1], 0x80) * 0x40 + Bits(s[2], 0x80)
    else if |s| == 4 then Bits(s[0], 0xF0) * 0x40000 + Bits(s[1], 0x80) * 0x1000 + Bits(s[2], 0x80) * 0x40
      + Bits(s[3], 0x80)
    else -1
  }

  /** codePointToUTF8 gives the shortest form that denotes the number, every byte marked by its place. */
  lemma Utf8Denotes(cp: nat)
    requires cp <= 0x10FFFF
    ensures
      var s := Utf8(cp);
      && Denoted(s) == cp && (forall i :: 1 <= i < |s| ==> Tail(s[i]))
      && |s| == (if cp < 0x80 then 1 else if cp < 0x800 then 2 else if cp < 0x10000 then 3 else 4)
      && s[0] >= (if |s| == 1 then 0 else if |s| == 2 then 0xC0 else if |s| == 3 then 0xE0 else 0xF0)
      && s[0] < (if |s| == 1 then 0x80 else if |s| == 2 then 0xE0 else if |s| == 3 then 0xF0 else 0xF8)
  {
    assert cp == cp / 0x40 * 0x40 + cp % 0x40;
    assert cp / 0x40 == cp / 0x1000 * 0x40 + cp / 0x40 % 0x40;
    assert cp / 0x1000 == cp / 0x40000 * 0x40 + cp / 0x1000 % 0x40;
  }

  predicate Scalar(cp: nat) { cp < 0xD800 || 0xDFFF < cp <= 0x10FFFF }

  predicate Tail(b: byte) { 0x80 <= b <= 0xBF }

  /**
   Length of the UTF-8 character at the head of `s` by the byte table of section 4 of RFC 3629; 0 when there is none.
   */
  function HeadLength(s: bytes): (n: nat)
    ensures n <= |s|
  {
    if s == [] then 0
    else if s[0] <= 0x7f then 1
    else if |s| >= 2 && 0xC2 <= s[0] <= 0xDF && Tail(s[1]) then 2
    else if |s| >= 3 && Tail(s[2]) &&
            ((s[0] == 0xE0 && 0xA0 <= s[1] <= 0xBF) || (0xE1 <= s[0] <= 0xEC && Tail(s[1])) ||
             (s[0] == 0xED && 0x80 <= s[1] <= 0x9F) || (0xEE <= s[0] <= 0xEF && Tail(s[1]))) then 3
    else if |s| >= 4 && Tail(s[2]) && Tail(s[3]) &&
            ((s[0] == 0xF0 && 0x90 <= s[1] <= 0xBF) || (0xF1 <= s[0] <= 0xF3 && Tail(s[1])) ||
             (s[0] == 0xF4 && 0x80 <= s[1] <= 0x8F)) then 4
    else 0
  }

  /** `s` is a well-formed UTF-8 byte string. */
  predicate WellFormed(s: bytes) {
    s == [] || (HeadLength(s) > 0 && WellFormed(s[HeadLength(s)..]))
  }

  // ---- the writer ---------------------------------------------------------------------

  function Low6(b: byte): (x: int)
    ensures 0 <= x < 64
  {
    b % 64
  }

  datatype Head = Head(codepoint: nat, length: nat)

  /**
   utf8ToCodepoint: the code point read at the head of `s` and how many bytes it takes; malformed heads give U+FFFD.
   */
  function ReadHead(s: bytes): (h: Head)
    requires |s| > 0
    ensures 1 <= h.length <= |s|
  {
    var b: int := s[0];
    if b < 0x80 then Head(b, 1)
    else if b < 0xE0 then
      if |s| < 2 then Head(REPLACEMENT, 1) else
      var calculated := b % 32 * 64 + Low6(s[1]);
      Head(if calculated < 0x80 then REPLACEMENT else calculated, 2)
    else if b < 0xF0 then
      if |s| < 3 then Head(REPLACEMENT, 1) else
      var calculated := b % 16 * 4096 + Low6(s[1]) * 64 + Low6(s[2]);
      if 0xD800 <= calculated <= 0xDFFF then Head(REPLACEMENT, 3)
      else Head(if calculated < 0x800 then REPLACEMENT else calculated, 3)
    else if b < 0xF8 then
      if |s| < 4 then Head(REPLACEMENT, 1) else
      var calculated := b % 8 * 262144 + Low6(s[1]) * 4096 + Low6(s[2]) * 64 + Low6(s[3]);
      Head(if calculated < 0x10000 then REPLACEMENT else calculated, 4)
    else Head(REPLACEMENT, 1)
  }

  function HexDigit(d: nat): (c: byte)
    requires d < 16
    ensures c != QUOTE && c != BACKSLASH
  {
    if d < 10 then 0x30 + d else 0x61 + d - 10
  }

  /** A backslash, the letter u and four lower-case hexadecimal digits. */
  function HexEscape(x: nat): (s: bytes)
    ensures |s| == 6
  {
    [BACKSLASH, LETTER_U, HexDigit(x / 4096 % 16), HexDigit(x / 256 % 16), HexDigit(x / 16 % 16), HexDigit(x % 16)]
  }

  /** The letter after the backslash for the seven characters with a short escape. */
  function ShortEscape(cp: nat): (letter: Option<byte>) {
    if cp == 0x22 then Some(0x22)
    else if cp == 0x5c then Some(0x5c)
    else if cp == 0x08 then Some(0x62)
    else if cp == 0x0c then Some(0x66)
    else if cp == 0x0a then Some(0x6e)
    else if cp == 0x0d then Some(0x72)
    else if cp == 0x09 then Some(0x74)
    else None
  }

  /** Text written for one code point; those above the basic plane become a surrogate pair. */
  function EscapeUnit(cp: nat): (s: bytes)
    ensures |s| > 0
  {
    if ShortEscape(cp).Some? then [BACKSLASH, ShortEscape(cp).value]
    else if cp < 0x20 then HexEscape(cp)
    else if cp < 0x80 then [cp]
    else if cp < 0x10000 then HexEscape(cp)
    else HexEscape(0xd800 + (cp - 0x10000) / 1024 % 1024) + HexEscape(0xdc00 + (cp - 0x10000) % 1024)
  }

  function Escape(s: bytes): (r: bytes) {
    if s == [] then [] else
    var h := ReadHead(s);
    EscapeUnit(h.codepoint) + Escape(s[h.length..])
  }

  predicate NeedsEscape(c: byte) { c == BACKSLASH || c == QUOTE || c < 0x20 || c > 0x7F }

  predicate AnyNeedsEscape(s: bytes) {
    exists i :: 0 <= i < |s| && NeedsEscape(s[i])
  }

  /** valueToQuotedStringN: text without special characters is copied, anything else is escaped. */
  function Quote(s: bytes): (r: bytes) {
    if AnyNeedsEscape(s) then [QUOTE] + Escape(s) + [QUOTE] else [QUOTE] + s + [QUOTE]
  }

  /** The copying shortcut gives what escaping would give. */
  lemma {:induction false} ShortcutIsEscape(s: bytes)
    requires !AnyNeedsEscape(s)
    ensures Escape(s) == s
  {
    if s != [] {
      assert !NeedsEscape(s[0]);
      assert forall i :: 0 <= i < |s[1..]| ==> s[1..][i] == s[i + 1];
      ShortcutIsEscape(s[1..]);
      assert s == [s[0]] + s[1..];
    }
  }

  lemma QuoteIsEscape(s: bytes)
    ensures Quote(s) == [QUOTE] + Escape(s) + [QUOTE]
  {
    hide Escape;
    if !AnyNeedsEscape(s) { ShortcutIsEscape(s); }
  }

  /** Text the loop body adds for the character at the head of `rest`, and the bytes it consumes. */
  method WriteHead(rest: bytes) returns (text: bytes, consumed: nat)
    requires |rest| > 0
    ensures text == EscapeUnit(ReadHead(rest).codepoint) && consumed == ReadHead(rest).length
  {
    hide HexEscape;
    var b := rest[0];
    if ShortEscape(b).Some? {
      return [BACKSLASH, ShortEscape(b).value], 1;
    }
    var h := ReadHead(rest);
    consumed := h.length;
    if h.codepoint < 0x20 {
      text := HexEscape(h.codepoint);
    } else if h.codepoint < 0x80 {
      text := [h.codepoint];
    } else if h.codepoint < 0x10000 {
      text := HexEscape(h.codepoint);
    } else {
      var cp := h.codepoint - 0x10000;
      text := HexEscape(0xd800 + cp / 1024 % 1024) + HexEscape(0xdc00 + cp % 1024);
    }
  }

  /** The scan of doesAnyCharRequireEscaping and the escaping loop of valueToQuotedStringN. */
  method QuoteLoop(value: bytes) returns (result: bytes)
    ensures result == Quote(value)
  {
    hide EscapeUnit, ReadHead;
    var special := false;
    for i := 0 to |value|
      invariant special <==> exists k :: 0 <= k < i && NeedsEscape(value[k])
    {
      special := special || NeedsEscape(value[i]);
    }
    if !special {
      return [QUOTE] + value + [QUOTE];
    }
    result := [QUOTE];
    var c := 0;
    while c != |value|
      invariant 0 <= c <= |value|
      invariant [QUOTE] + Escape(value) == result + Escape(value[c..])
      decreases |value| - c
    {
      var text, consumed := WriteHead(value[c..]);
      EscapeStep(value, c, result);
      result := result + text;
      c := c + consumed;
    }
    result := result + [QUOTE];
  }

  lemma EscapeStep(value: bytes, c: nat, done: bytes)
    requires c < |value|
    ensures
      var h := ReadHead(value[c..]);
      done + Escape(value[c..]) == done + EscapeUnit(h.codepoint) + Escape(value[c + h.length..])
  {
    hide EscapeUnit, ReadHead;
    var rest := value[c..];
    assert rest[ReadHead(rest).length..] == value[c + ReadHead(rest).length..];
  }

  // ---- the reader ---------------------------------------------------------------------

  datatype Scan = Scan(ok: bool, pos: nat)

  /** readString: from just after an opening quote to just after the closing one, skipping escaped characters. */
  function ReadString(doc: bytes, pos: nat): (r: Scan)
    requires pos <= |doc|
    ensures pos <= r.pos <= |doc|
    ensures r.ok ==> pos < r.pos && doc[r.pos - 1] == QUOTE
    decreases |doc| - pos
  {
    if pos == |doc| then Scan(false, pos)
    else if doc[pos] == BACKSLASH then
      if pos + 1 == |doc| then Scan(false, pos + 1) else ReadString(doc, pos + 2)
    else if doc[pos] == QUOTE then Scan(true, pos + 1)
    else ReadString(doc, pos + 1)
  }

  function HexValue(c: byte): (d: Option<nat>)
    ensures d.Some? ==> d.value < 16
  {
    if 0x30 <= c <= 0x39 then Some(c - 0x30)
    else if 0x61 <= c <= 0x66 then Some(c - 0x61 + 10)
    else if 0x41 <= c <= 0x46 then Some(c - 0x41 + 10)
    else None
  }

  /** decodeUnicodeEscapeSequence: four hexadecimal digits before `end`. */
  function Hex4(doc: bytes, i: nat, end: nat): (r: Option<nat>)
    requires i <= end <= |doc|
    ensures r.Some? ==> i + 4 <= end && r.value < 0x10000
  {
    if end - i < 4 then None else
    var a, b, c, d := HexValue(doc[i]), HexValue(doc[i + 1]), HexValue(doc[i + 2]), HexValue(doc[i + 3]);
    if a.Some? && b.Some? && c.Some? && d.Some?
    then Some(((a.value * 16 + b.value) * 16 + c.value) * 16 + d.value)
    else None
  }

  /** decodeUnicodeCodePoint: one escape, or two when the first is a high surrogate. */
  function DecodeCodePoint(doc: bytes, i: nat, end: nat): (r: Option<Head>)
    requires i <= end <= |doc|
    ensures r.Some? ==> 0 < r.value.length <= end - i
  {
    var first := Hex4(doc, i, end);
    if first.None? then None
    else if !(0xD800 <= first.value <= 0xDBFF) then Some(Head(first.value, 4))
    else if end - (i + 4) < 6 then None
    else if !(doc[i + 4] == BACKSLASH && doc[i + 5] == LETTER_U) then None
    else
      var second := Hex4(doc, i + 6, end);
      if second.None? then None
      else Some(Head(0x10000 + first.value % 1024 * 1024 + second.value % 1024, 10))
  }

  /** The character a letter after a backslash stands for. */
  function Unescaped(letter: byte): (c: Option<byte>) {
    if letter == 0x22 then Some(0x22)
    else if letter == 0x2f then Some(0x2f)
    else if letter == 0x5c then Some(0x5c)
    else if letter == 0x62 then Some(0x08)
    else if letter == 0x66 then Some(0x0c)
    else if letter == 0x6e then Some(0x0a)
    else if letter == 0x72 then Some(0x0d)
    else if letter == 0x74 then Some(0x09)
    else None
  }

  function Prepend(s: bytes, r: Option<bytes>): (t: Option<bytes>) {
    if r.Some? then Some(s + r.value) else None
  }

  /** decodeString between the quotes: offsets `i` up to `end`; None when an error is recorded. */
  function Decode(doc: bytes, i: nat, end: nat): (r: Option<bytes>)
    requires i <= end <= |doc|
    decreases end - i
  {
    if i == end then Some([])
    else if doc[i] == QUOTE then Some([])
    else if doc[i] != BACKSLASH then Prepend([doc[i]], Decode(doc, i + 1, end))
    else if i + 1 == end then None
    else if doc[i + 1] == LETTER_U then
      var u := DecodeCodePoint(doc, i + 2, end);
      if u.None? then None else Prepend(Utf8(u.value.codepoint), Decode(doc, i + 2 + u.value.length, end))
    else if Unescaped(doc[i + 1]).Some? then Prepend([Unescaped(doc[i + 1]).value], Decode(doc, i + 2, end))
    else None
  }

  /** The loop of decodeString over a string token that ends at `tokenEnd`. */
  method DecodeLoop(doc: bytes, start: nat, tokenEnd: nat) returns (r: Option<bytes>)
    requires start + 2 <= tokenEnd <= |doc|
    ensures r == Decode(doc, start + 1, tokenEnd - 1)
  {
    var decoded: bytes := [];
    var current := start + 1;
    var end := tokenEnd - 1;
    PrependNothing(Decode(doc, current, end));
    while current != end
      invariant start + 1 <= current <= end
      invariant Decode(doc, start + 1, end) == Prepend(decoded, Decode(doc, current, end))
      decreases end - current
    {
      var c := doc[current];
      current := current + 1;
      if c == QUOTE {
        assert Prepend(decoded, Some([])) == Some(decoded) by { assert decoded + [] == decoded; }
        return Some(decoded);
      }
      if c == BACKSLASH {
        if current == end {
          return None;
        }
        var letter := doc[current];
        current := current + 1;
        if letter == LETTER_U {
          var u := DecodeCodePoint(doc, current, end);
          if u.None? {
            return None;
          }
          current := current + u.value.length;
          PrependTwice(decoded, Utf8(u.value.codepoint), Decode(doc, current, end));
          decoded := decoded + Utf8(u.value.codepoint);
        } else if Unescaped(letter).Some? {
          PrependTwice(decoded, [Unescaped(letter).value], Decode(doc, current, end));
          decoded := decoded + [Unescaped(letter).value];
        } else {
          return None;
        }
      } else {
        PrependTwice(decoded, [c], Decode(doc, current, end));
        decoded := decoded + [c];
      }
    }
    assert decoded + [] == decoded;
    return Some(decoded);
  }

  lemma PrependNothing(r: Option<bytes>)
    ensures Prepend([], r) == r
  {
    if r.Some? { assert [] + r.value == r.value; }
  }

  lemma PrependTwice(a: bytes, b: bytes, r: Option<bytes>)
    ensures Prepend(a, Prepend(b, r)) == Prepend(a + b, r)
  {
    if r.Some? { assert a + (b + r.value) == a + b + r.value; }
  }

  // ---- the reader undoes the writer --------------------------------------------------

  /** What the two surrogates written for a code point denote: the low twenty bits above 0x10000. */
  function Emitted(cp: nat): (e: nat) {
    if cp < 0x10000 then cp else 0x10000 + (cp - 0x10000) % 0x100000
  }

  /** The byte string that reading back the written text gives, whatever the bytes were. */
  function Reread(s: bytes): (r: bytes) {
    if s == [] then [] else Utf8(Emitted(ReadHead(s).codepoint)) + Reread(s[ReadHead(s).length..])
  }

  lemma HexDigitValue(d: nat)
    requires d < 16
    ensures HexValue(HexDigit(d)) == Some(d)
  {
  }

  lemma HexSplit(x: nat)
    requires x < 0x10000
    ensures ((x / 4096 % 16 * 16 + x / 256 % 16) * 16 + x / 16 % 16) * 16 + x % 16 == x
  {
  }

  lemma HexEscapeChars(doc: bytes, pos: nat, x: nat)
    requires At(doc, pos, HexEscape(x))
    ensures pos + 6 <= |doc| && doc[pos] == BACKSLASH && doc[pos + 1] == LETTER_U
    ensures doc[pos + 2] == HexDigit(x / 4096 % 16) && doc[pos + 3] == HexDigit(x / 256 % 16)
    ensures doc[pos + 4] == HexDigit(x / 16 % 16) && doc[pos + 5] == HexDigit(x % 16)
  {
    var w := HexEscape(x);
    AtIndex(doc, pos, w, 0);
    AtIndex(doc, pos, w, 1);
    AtIndex(doc, pos, w, 2);
    AtIndex(doc, pos, w, 3);
    AtIndex(doc, pos, w, 4);
    AtIndex(doc, pos, w, 5);
  }

  lemma Hex4OfDigits(doc: bytes, i: nat, end: nat, a: nat, b: nat, c: nat, d: nat)
    requires i + 4 <= end <= |doc| && a < 16 && b < 16 && c < 16 && d < 16
    requires doc[i] == HexDigit(a) && doc[i + 1] == HexDigit(b)
    requires doc[i + 2] == HexDigit(c) && doc[i + 3] == HexDigit(d)
    ensures Hex4(doc, i, end) == Some(((a * 16 + b) * 16 + c) * 16 + d)
  {
    HexDigitValue(a);
    HexDigitValue(b);
    HexDigitValue(c);
    HexDigitValue(d);
  }

  lemma Hex4OfHexEscape(doc: bytes, pos: nat, x: nat, end: nat)
    requires x < 0x10000 && pos + 6 <= end <= |doc|
    requires At(doc, pos, HexEscape(x))
    ensures Hex4(doc, pos + 2, end) == Some(x)
    ensures doc[pos] == BACKSLASH && doc[pos + 1] == LETTER_U
  {
    HexEscapeChars(doc, pos, x);
    Hex4OfDigits(doc, pos + 2, end, x / 4096 % 16, x / 256 % 16, x / 16 % 16, x % 16);
    HexSplit(x);
  }

  lemma SurrogateSplit(cp: nat)
    requires 0x10000 <= cp
    ensures
      var hi, lo := 0xd800 + (cp - 0x10000) / 1024 % 1024, 0xdc00 + (cp - 0x10000) % 1024;
      0xD800 <= hi <= 0xDBFF && lo < 0x10000 && 0x10000 + hi % 1024 * 1024 + lo % 1024 == Emitted(cp)
  {
  }

  lemma DecodePair(doc: bytes, pos: nat, cp: nat, end: nat)
    requires 0x10000 <= cp
    requires At(doc, pos, EscapeUnit(cp))
    requires pos + 12 <= end <= |doc|
    ensures |EscapeUnit(cp)| == 12
    ensures Decode(doc, pos, end) == Prepend(Utf8(Emitted(cp)), Decode(doc, pos + 12, end))
  {
    hide Utf8, HexEscape, Hex4, Emitted;
    var hi, lo := 0xd800 + (cp - 0x10000) / 1024 % 1024, 0xdc00 + (cp - 0x10000) % 1024;
    SurrogateSplit(cp);
    AtSplit(doc, pos, HexEscape(hi), HexEscape(lo));
    Hex4OfHexEscape(doc, pos, hi, end);
    Hex4OfHexEscape(doc, pos + 6, lo, end);
    assert DecodeCodePoint(doc, pos + 2, end) == Some(Head(Emitted(cp), 10));
  }

  /** Reading one written unit yields the UTF-8 form of its code point and stops right after it. */
  lemma DecodeUnit(doc: bytes, pos: nat, cp: nat, end: nat)
    requires cp < 0x200000 && !(0xD800 <= cp <= 0xDFFF)
    requires At(doc, pos, EscapeUnit(cp))
    requires pos + |EscapeUnit(cp)| <= end <= |doc|
    ensures Decode(doc, pos, end) == Prepend(Utf8(Emitted(cp)), Decode(doc, pos + |EscapeUnit(cp)|, end))
  {
    var w := EscapeUnit(cp);
    AtIndex(doc, pos, w, 0);
    if ShortEscape(cp).Some? {
      AtIndex(doc, pos, w, 1);
    } else if cp < 0x20 || 0x80 <= cp < 0x10000 {
      Hex4OfHexEscape(doc, pos, cp, end);
    } else if cp >= 0x10000 {
      DecodePair(doc, pos, cp, end);
    }
  }

  lemma ReadHeadRange(s: bytes)
    requires |s| > 0
    ensures var cp := ReadHead(s).codepoint; cp < 0x200000 && !(0xD800 <= cp <= 0xDFFF)
  {
  }

  lemma {:induction false} DecodeOfEscape(doc: bytes, pos: nat, s: bytes, end: nat)
    requires At(doc, pos, Escape(s)) && end == pos + |Escape(s)|
    ensures Decode(doc, pos, end) == Some(Reread(s))
    decreases |s|
  {
    hide EscapeUnit, ReadHead, Utf8, Emitted;
    if s != [] {
      var h := ReadHead(s);
      var unit, rest := EscapeUnit(h.codepoint), s[h.length..];
      ReadHeadRange(s);
      AtSplit(doc, pos, unit, Escape(rest));
      DecodeUnit(doc, pos, h.codepoint, end);
      DecodeOfEscape(doc, pos + |unit|, rest, end);
    }
  }

  lemma ScanPlain(doc: bytes, pos: nat)
    requires pos < |doc| && doc[pos] != QUOTE && doc[pos] != BACKSLASH
    ensures ReadString(doc, pos) == ReadString(doc, pos + 1)
  {
  }

  lemma ScanHexEscape(doc: bytes, pos: nat, x: nat)
    requires At(doc, pos, HexEscape(x))
    ensures ReadString(doc, pos) == ReadString(doc, pos + 6)
  {
    HexEscapeChars(doc, pos, x);
    assert ReadString(doc, pos) == ReadString(doc, pos + 2);
    ScanPlain(doc, pos + 2);
    ScanPlain(doc, pos + 3);
    ScanPlain(doc, pos + 4);
    ScanPlain(doc, pos + 5);
  }

  lemma ScanUnit(doc: bytes, pos: nat, cp: nat)
    requires At(doc, pos, EscapeUnit(cp))
    ensures ReadString(doc, pos) == ReadString(doc, pos + |EscapeUnit(cp)|)
  {
    var w := EscapeUnit(cp);
    AtIndex(doc, pos, w, 0);
    if ShortEscape(cp).Some? {
      AtIndex(doc, pos, w, 1);
    } else if cp < 0x20 || 0x80 <= cp < 0x10000 {
      ScanHexEscape(doc, pos, cp);
    } else if cp >= 0x10000 {
      var hi := 0xd800 + (cp - 0x10000) / 1024 % 1024;
      var lo := 0xdc00 + (cp - 0x10000) % 1024;
      AtSplit(doc, pos, HexEscape(hi), HexEscape(lo));
      ScanHexEscape(doc, pos, hi);
      ScanHexEscape(doc, pos + 6, lo);
    }
  }

  lemma {:induction false} ScanEscape(doc: bytes, pos: nat, s: bytes)
    requires At(doc, pos, Escape(s))
    ensures ReadString(doc, pos) == ReadString(doc, pos + |Escape(s)|)
    decreases |s|
  {
    hide EscapeUnit, ReadHead, ReadString, At;
    if s != [] {
      var h := ReadHead(s);
      var unit, rest := EscapeUnit(h.codepoint), s[h.length..];
      AtSplit(doc, pos, unit, Escape(rest));
      ScanUnit(doc, pos, h.codepoint);
      ScanEscape(doc, pos + |unit|, rest);
    }
  }

  /**
   Wherever a quoted string stands, scanning from after its opening quote stops exactly after its
   closing quote, and decoding between the quotes gives the reread bytes.
   */
  lemma QuotedReadsBack(doc: bytes, pos: nat, s: bytes)
    requires At(doc, pos, Quote(s))
    ensures |Quote(s)| >= 2 && doc[pos] == QUOTE
    ensures ReadString(doc, pos + 1) == Scan(true, pos + |Quote(s)|)
    ensures Decode(doc, pos + 1, pos + |Quote(s)| - 1) == Some(Reread(s))
  {
    hide Escape, Reread, Quote, ReadString, Decode;
    QuoteIsEscape(s);
    var text := Escape(s);
    Enclosed(doc, pos, text);
    ScanEscape(doc, pos + 1, s);
    ScanQuote(doc, pos + 1 + |text|);
    DecodeOfEscape(doc, pos + 1, s, pos + 1 + |text|);
  }

  lemma Enclosed(doc: bytes, pos: nat, text: bytes)
    requires At(doc, pos, [QUOTE] + text + [QUOTE])
    ensures pos + |text| + 2 <= |doc| && doc[pos] == QUOTE && At(doc, pos + 1, text) && doc[pos + 1 + |text|] == QUOTE
  {
    AtSplit(doc, pos, [QUOTE] + text, [QUOTE]);
    AtSplit(doc, pos, [QUOTE], text);
    AtIndex(doc, pos, [QUOTE], 0);
    AtIndex(doc, pos + 1 + |text|, [QUOTE], 0);
  }

  lemma ScanQuote(doc: bytes, pos: nat)
    requires pos < |doc| && doc[pos] == QUOTE
    ensures ReadString(doc, pos) == Scan(true, pos + 1)
  {
  }

  // ---- when the bytes come back unchanged ------------------------------------------------

  /** The head of a well-formed string is read as the code point whose UTF-8 form it is. */
  lemma WellFormedHead(s: bytes)
    requires HeadLength(s) > 0
    ensures ReadHead(s).length == HeadLength(s)
    ensures Utf8(Emitted(ReadHead(s).codepoint)) == s[..HeadLength(s)]
  {
    hide Utf8;
    var n := HeadLength(s);
    if n == 1 {
      Recombine1(s[0]);
    } else if n == 2 {
      Recombine2(s[0], s[1]);
    } else if n == 3 {
      Recombine3(s[0], s[1], s[2]);
    } else {
      Recombine4(s[0], s[1], s[2], s[3]);
    }
  }

  lemma Recombine1(a: byte)
    requires a <= 0x7F
    ensures Utf8(a) == [a]
  {
  }

  lemma Recombine2(a: byte, b: byte)
    requires 0xC2 <= a <= 0xDF && Tail(b)
    ensures var cp := a % 32 * 64 + Low6(b); 0x80 <= cp <= 0x7ff && Utf8(cp) == [a, b]
  {
  }

  lemma Recombine3(a: byte, b: byte, c: byte)
    requires 0xE0 <= a <= 0xEF && Tail(b) && Tail(c)
    requires a == 0xE0 ==> 0xA0 <= b
    requires a == 0xED ==> b <= 0x9F
    ensures
      var cp := a % 16 * 4096 + Low6(b) * 64 + Low6(c);
      0x800 <= cp <= 0xffff && !(0xD800 <= cp <= 0xDFFF) && Utf8(cp) == [a, b, c]
  {
    var x, y, z := a - 0xE0, b - 0x80, c - 0x80;
    Positional(x, y, z);
    assert a % 16 == x && Low6(b) == y && Low6(c) == z;
  }

  lemma Recombine4(a: byte, b: byte, c: byte, d: byte)
    requires 0xF0 <= a <= 0xF4 && Tail(b) && Tail(c) && Tail(d)
    requires a == 0xF0 ==> 0x90 <= b
    requires a == 0xF4 ==> b <= 0x8F
    ensures
      var cp := a % 8 * 262144 + Low6(b) * 4096 + Low6(c) * 64 + Low6(d);
      0x10000 <= cp <= 0x10ffff && Emitted(cp) == cp && Utf8(cp) == [a, b, c, d]
  {
    hide Emitted, Utf8;
    var w, x, y, z := a - 0xF0, b - 0x80, c - 0x80, d - 0x80;
    var cp := w * 262144 + x * 4096 + y * 64 + z;
    assert a % 8 == w && Low6(b) == x && Low6(c) == y && Low6(d) == z;
    Positional4(w, x, y, z);
    EmittedInRange(cp);
    FourBytes(cp, w, x, y, z);
  }

  lemma FourBytes(cp: nat, w: nat, x: nat, y: nat, z: nat)
    requires 0x10000 <= cp <= 0x10ffff
    requires cp / 262144 == w && cp / 4096 % 64 == x && cp / 64 % 64 == y && cp % 64 == z
    ensures w < 16 && Utf8(cp) == [0xF0 + w, 0x80 + x, 0x80 + y, 0x80 + z]
  {
  }

  lemma Positional4(w: nat, x: nat, y: nat, z: nat)
    requires x < 64 && y < 64 && z < 64
    ensures
      var n := w * 262144 + x * 4096 + y * 64 + z;
      n / 262144 == w && n / 4096 % 64 == x && n / 64 % 64 == y && n % 64 == z
  {
    Positional(64 * w + x, y, z);
    Top(w, x * 4096 + y * 64 + z);
  }

  lemma Top(w: nat, low: nat)
    requires low < 262144
    ensures (w * 262144 + low) / 262144 == w
  {
  }

  lemma EmittedInRange(cp: nat)
    requires cp <= 0x10ffff
    ensures Emitted(cp) == cp
  {
  }

  /** Base-64 digits are recovered by division and remainder. */
  lemma Positional(x: nat, y: nat, z: nat)
    requires y < 64 && z < 64
    ensures var n := x * 4096 + y * 64 + z; n / 4096 == x && n / 64 % 64 == y && n % 64 == z
  {
    var n := x * 4096 + y * 64 + z;
    assert n / 64 == x * 64 + y;
  }

  /** The UTF-8 form of a scalar value stands at the head of a well-formed string. */
  lemma Utf8IsHead(cp: nat, rest: bytes)
    requires Scalar(cp)
    ensures HeadLength(Utf8(cp) + rest) == |Utf8(cp)|
  {
  }

  lemma {:induction false} RereadIsWellFormed(s: bytes)
    ensures WellFormed(Reread(s))
  {
    hide ReadHead, Utf8, HeadLength;
    if s != [] {
      var h := ReadHead(s);
      var head, rest := Utf8(Emitted(h.codepoint)), Reread(s[h.length..]);
      RereadIsWellFormed(s[h.length..]);
      ReadHeadRange(s);
      Utf8IsHead(Emitted(h.codepoint), rest);
      assert (head + rest)[|head|..] == rest;
    }
  }

  lemma {:induction false} WellFormedRereads(s: bytes)
    requires WellFormed(s)
    ensures Reread(s) == s
  {
    hide ReadHead, Utf8, HeadLength, Emitted;
    if s != [] {
      WellFormedHead(s);
      WellFormedRereads(s[HeadLength(s)..]);
    }
  }

  /** Writing and reading back returns the original bytes exactly for the well-formed UTF-8 strings. */
  lemma RereadUnchangedIff(s: bytes)
    ensures Reread(s) == s <==> WellFormed(s)
  {
    RereadIsWellFormed(s);
    if WellFormed(s) { WellFormedRereads(s); }
  }
}
