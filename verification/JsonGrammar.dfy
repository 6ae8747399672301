/**
 The documents Reader::parse takes (newJson/jsoncpp.cpp, class Reader), given by their derivations: the grammar of RFC
 8259, widened by comments, raw control characters in strings, numbers with missing or needless digits, and two forms of
 separators between members. What a derivation stands for is defined here without the reader.
 */
module JsonGrammar {
  import opened Bytes
  import opened JsonValue
  import opened JsonText

  // ---- white space and comments: section 2 -------------------------------------------------

  predicate BlankByte(c: byte) { c == 0x20 || c == 0x09 || c == 0x0a || c == 0x0d }

  /** A blank, a comment between slash-star and star-slash, or a comment from two slashes to the end of the line. */
  datatype Piece = Blank(single: byte) | Block(body: bytes) | Line(text: bytes, end: byte)

  type Gap = seq<Piece>

  predicate PieceOk(p: Piece) {
    match p
    case Blank(c) => BlankByte(c)
    case Block(body) => forall i :: 0 <= i < |body| - 1 ==> !(body[i] == 0x2a && body[i + 1] == 0x2f)
    case Line(text, end) =>
      (end == 0x0a || end == 0x0d) && forall i :: 0 <= i < |text| ==> text[i] != 0x0a && text[i] != 0x0d
  }

  function PieceText(p: Piece): (s: bytes)
    ensures |s| > 0
  {
    match p
    case Blank(c) => [c]
    case Block(body) => [0x2f, 0x2a] + (body + [0x2a, 0x2f])
    case Line(text, end) => [0x2f, 0x2f] + (text + [end])
  }

  predicate GapOk(g: Gap) {
    forall i :: 0 <= i < |g| ==> PieceOk(g[i])
  }

  function GapText(g: Gap): (s: bytes) {
    if g == [] then [] else PieceText(g[0]) + GapText(g[1..])
  }

  predicate HasComment(g: Gap) {
    exists i :: 0 <= i < |g| && !g[i].Blank?
  }

  predicate Blanks(s: bytes) {
    forall i :: 0 <= i < |s| ==> BlankByte(s[i])
  }

  // ---- strings: section 7 ------------------------------------------------------------------

  const LOWER: bytes :=
    [0x30, 0x31, 0x32, 0x33, 0x34, 0x35, 0x36, 0x37, 0x38, 0x39, 0x61, 0x62, 0x63, 0x64, 0x65, 0x66]

  const UPPER: bytes :=
    [0x30, 0x31, 0x32, 0x33, 0x34, 0x35, 0x36, 0x37, 0x38, 0x39, 0x41, 0x42, 0x43, 0x44, 0x45, 0x46]

  /** A hexadecimal digit, its letter in either case. */
  datatype Nibble = Nibble(value: nat, upper: bool)

  predicate NibbleOk(n: Nibble) { n.value < 16 }

  function NibbleByte(n: Nibble): (c: byte) {
    if n.value >= 16 then 0 else if n.upper then UPPER[n.value] else LOWER[n.value]
  }

  /** The two-character escapes: the letter behind the backslash, and the character it stands for. */
  const SHORT: map<byte, byte> :=
    map[0x22 := 0x22, 0x5c := 0x5c, 0x2f := 0x2f, 0x62 := 0x08, 0x66 := 0x0c, 0x6e := 0x0a, 0x72 := 0x0d, 0x74 := 0x09]

  datatype Unit = Raw(plain: byte) | Short(letter: byte) | Hex(n3: Nibble, n2: Nibble, n1: Nibble, n0: Nibble)

  predicate UnitOk(u: Unit) {
    match u
    case Raw(c) => c != 0x22 && c != 0x5c
    case Short(letter) => letter in SHORT
    case Hex(a, b, c, d) => NibbleOk(a) && NibbleOk(b) && NibbleOk(c) && NibbleOk(d)
  }

  function UnitText(u: Unit): (s: bytes)
    ensures |s| > 0
  {
    match u
    case Raw(c) => [c]
    case Short(letter) => [0x5c, letter]
    case Hex(a, b, c, d) => [0x5c, 0x75, NibbleByte(a), NibbleByte(b), NibbleByte(c), NibbleByte(d)]
  }

  function HexOf(u: Unit): (x: nat)
    requires u.Hex?
    ensures UnitOk(u) ==> x < 0x10000
  {
    u.n3.value * 4096 + u.n2.value * 256 + u.n1.value * 16 + u.n0.value
  }

  predicate UnitsOk(us: seq<Unit>) {
    forall i :: 0 <= i < |us| ==> UnitOk(us[i])
  }

  function UnitsText(us: seq<Unit>): (s: bytes) {
    if us == [] then [] else UnitText(us[0]) + UnitsText(us[1..])
  }

  function Quoted(us: seq<Unit>): (s: bytes)
    ensures |s| >= 2
  {
    [0x22] + UnitsText(us) + [0x22]
  }

  predicate IsHigh(x: nat) { 0xD800 <= x < 0xDC00 }

  /**
   The code point of a surrogate pair; of a second escape that is no low surrogate the reader takes the low ten bits.
   */
  function PairOf(x: nat, y: nat): (cp: nat)
    requires IsHigh(x)
    ensures 0xDC00 <= y < 0xE000 ==> cp == 0x10000 + (x - 0xD800) * 0x400 + (y - 0xDC00)
  {
    0x10000 + (x - 0xD800) * 0x400 + y % 0x400
  }

  /** The bytes a string stands for; None when a high surrogate is followed by no other hexadecimal escape. */
  function Meaning(us: seq<Unit>): (r: Option<bytes>)
    decreases |us|
  {
    if us == [] then Some([])
    else match us[0]
      case Raw(c) => Before([c], Meaning(us[1..]))
      case Short(letter) => Before([if letter in SHORT then SHORT[letter] else letter], Meaning(us[1..]))
      case Hex(_, _, _, _) =>
        if !IsHigh(HexOf(us[0])) then Before(Utf8(HexOf(us[0])), Meaning(us[1..]))
        else if |us| > 1 && us[1].Hex? then Before(Utf8(PairOf(HexOf(us[0]), HexOf(us[1]))), Meaning(us[2..]))
        else None
  }

  function Before(s: bytes, r: Option<bytes>): (t: Option<bytes>) {
    if r.Some? then Some(s + r.value) else None
  }

  // ---- numbers: section 6 ------------------------------------------------------------------

  predicate DigitByte(c: byte) { 0x30 <= c <= 0x39 }

  predicate DigitRun(s: bytes) {
    forall i :: 0 <= i < |s| ==> DigitByte(s[i])
  }

  datatype Exponent = Exponent(letter: byte, sign: Option<byte>, digits: bytes)

  datatype Numeral = Numeral(minus: bool, whole: bytes, frac: Option<bytes>, exp: Option<Exponent>)

  predicate ExponentOk(e: Exponent) {
    && (e.letter == 0x65 || e.letter == 0x45) && (e.sign.Some? ==> e.sign.value == 0x2b || e.sign.value == 0x2d)
    && DigitRun(e.digits)
  }

  /** Every run of digits may be empty, the first one only behind a minus. */
  predicate NumeralOk(n: Numeral) {
    && DigitRun(n.whole) && (n.whole == [] ==> n.minus)
    && (n.frac.Some? ==> DigitRun(n.frac.value)) && (n.exp.Some? ==> ExponentOk(n.exp.value))
  }

  function FracText(f: Option<bytes>): (s: bytes) {
    if f.None? then [] else [0x2e] + f.value
  }

  function SignText(sign: Option<byte>): (s: bytes) {
    if sign.None? then [] else [sign.value]
  }

  function ExpText(e: Option<Exponent>): (s: bytes) {
    if e.None? then [] else [e.value.letter] + (SignText(e.value.sign) + e.value.digits)
  }

  function NumeralText(n: Numeral): (s: bytes) {
    (if n.minus then [0x2d] else []) + (n.whole + (FracText(n.frac) + ExpText(n.exp)))
  }

  function TenTo(k: nat): (p: nat) {
    if k == 0 then 1 else 10 * TenTo(k - 1)
  }

  /** The number a run of digits denotes, digit by digit from the left. */
  function Decimal(s: bytes): (n: int) {
    if s == [] then 0 else (s[0] - 0x30) * TenTo(|s| - 1) + Decimal(s[1..])
  }

  /**
   An integer that fits 64 bits, tagged as unsigned above the 32-bit maximum; any other number as its double, if any.
   */
  function NumeralTree(toDouble: bytes -> Option<nat>, n: Numeral): (v: Option<Value>)
  {
    var x := Decimal(n.whole);
    var k := if n.minus then -x else x;
    if n.frac.None? && n.exp.None? && -0x8000_0000_0000_0000 <= k <= 0xffff_ffff_ffff_ffff then
      Some(if k <= 0x7fff_ffff then Int(k) else UInt(k))
    else
      var d := toDouble(NumeralText(n));
      if d.Some? then Some(Real(d.value)) else None
  }

  /** Nothing stands at the end that the numeral would go on with. */
  predicate NumeralEnds(n: Numeral, rest: bytes) {
    rest == [] ||
    (var c := rest[0];
     && !DigitByte(c)
     && (n.exp.None? ==> c != 0x65 && c != 0x45)
     && (n.exp.None? && n.frac.None? ==> c != 0x2e)
     && (n.exp.Some? && n.exp.value.sign.None? && n.exp.value.digits == [] ==> c != 0x2b && c != 0x2d))
  }

  // ---- documents: sections 3 to 5 ----------------------------------------------------------

  /** What the reader takes for a comma when a comment stands before it: any one token but a closing brace. */
  datatype Junk =
    | JunkByte(only: byte)
    | JunkSlash(second: byte)
    | JunkString(skips: seq<Skip>)
    | JunkNumber(num: Numeral)
    | JunkTrue
    | JunkFalse
    | JunkNull

  /** A byte of a string the scanner passes over, or a backslash and any byte behind it. */
  datatype Skip = Plain(p: byte) | Escaped(e: byte)

  predicate SkipOk(s: Skip) { s.Plain? ==> s.p != 0x22 && s.p != 0x5c }

  function SkipText(s: Skip): (t: bytes) {
    if s.Plain? then [s.p] else [0x5c, s.e]
  }

  function SkipsText(ss: seq<Skip>): (t: bytes) {
    if ss == [] then [] else SkipText(ss[0]) + SkipsText(ss[1..])
  }

  const TRUE_: bytes := [0x74, 0x72, 0x75, 0x65]
  const FALSE_: bytes := [0x66, 0x61, 0x6c, 0x73, 0x65]
  const NULL_: bytes := [0x6e, 0x75, 0x6c, 0x6c]

  predicate JunkOk(j: Junk) {
    match j
    case JunkByte(c) => !BlankByte(c) && !DigitByte(c) && c != 0x7d && c != 0x2f && c != 0x22 && c != 0x2d
    case JunkSlash(c) => c != 0x2f && c != 0x2a
    case JunkString(ss) => forall i :: 0 <= i < |ss| ==> SkipOk(ss[i])
    case JunkNumber(n) => NumeralOk(n)
    case _ => true
  }

  function JunkText(j: Junk): (s: bytes) {
    match j
    case JunkByte(c) => [c]
    case JunkSlash(c) => [0x2f, c]
    case JunkString(ss) => [0x22] + SkipsText(ss) + [0x22]
    case JunkNumber(n) => NumeralText(n)
    case JunkTrue => TRUE_
    case JunkFalse => FALSE_
    case JunkNull => NULL_
  }

  datatype Sep = Comma | Taken(junk: Junk)

  predicate SeparatorOk(s: Sep) { s.Taken? ==> JunkOk(s.junk) }

  function SeparatorText(s: Sep): (t: bytes) {
    if s.Comma? then [0x2c] else JunkText(s.junk)
  }

  /** An empty array holds blanks only; an object may hold a gap before its closing brace. */
  datatype Doc =
    | DNull
    | DBool(b: bool)
    | DNumber(n: Numeral)
    | DString(us: seq<Unit>)
    | DArray(blanks: bytes, items: seq<Item>)
    | DObject(entries: seq<Entry>, tail: Gap)

  datatype Item = Item(before: Gap, doc: Doc, after: Gap)

  /** A member; the last one has no separator, unless the object ends behind one. */
  datatype Entry = Entry(
    before: Gap,
    name: seq<Unit>,
    afterName: bytes,
    beforeValue: Gap,
    doc: Doc,
    after: Gap,
    separator: Option<Sep>)

  predicate Ok(d: Doc)
    decreases d, 1
  {
    match d
    case DNumber(n) => NumeralOk(n)
    case DString(us) => UnitsOk(us)
    case DArray(blanks, items) => Blanks(blanks) && ItemsOk(items)
    case DObject(entries, tail) => EntriesOk([], entries, tail)
    case _ => true
  }

  predicate ItemsOk(items: seq<Item>)
    decreases items, 0
  {
    forall k :: 0 <= k < |items| ==> GapOk(items[k].before) && GapOk(items[k].after) && Ok(items[k].doc)
  }

  predicate EntryOk(m: Entry)
    decreases m, 2
  {
    && GapOk(m.before) && UnitsOk(m.name) && Blanks(m.afterName) && GapOk(m.beforeValue) && Ok(m.doc) && GapOk(m.after)
    && (m.separator.Some? ==> SeparatorOk(m.separator.value) && (m.separator.value.Taken? ==> HasComment(m.after)))
  }

  function NameOf(m: Entry): (name: bytes) {
    if Meaning(m.name).Some? then Meaning(m.name).value else []
  }

  /** The members from one on, behind a member of this name; only behind an empty name may the object end there. */
  predicate EntriesOk(name: bytes, ms: seq<Entry>, tail: Gap)
    decreases ms, 3
  {
    if ms == [] then name == [] && GapOk(tail)
    else
      && EntryOk(ms[0])
      && if ms[0].separator.None? then |ms| == 1 && tail == [] else EntriesOk(NameOf(ms[0]), ms[1..], tail)
  }

  function Text(d: Doc): (s: bytes)
    decreases d, 1
  {
    match d
    case DNull => NULL_
    case DBool(b) => if b then TRUE_ else FALSE_
    case DNumber(n) => NumeralText(n)
    case DString(us) => Quoted(us)
    case DArray(blanks, items) => [0x5b] + if items == [] then blanks + [0x5d] else ItemsText(items)
    case DObject(entries, tail) => [0x7b] + EntriesText(entries, tail)
  }

  /** The items and the closing bracket. */
  function ItemsText(items: seq<Item>): (s: bytes)
    requires items != []
    decreases items, 0
  {
    var i := items[0];
    GapText(i.before) + (Text(i.doc) + (GapText(i.after) +
    if |items| == 1 then [0x5d] else [0x2c] + ItemsText(items[1..])))
  }

  /** The members and the closing brace. */
  function EntriesText(ms: seq<Entry>, tail: Gap): (s: bytes)
    decreases ms, 3
  {
    if ms == [] then GapText(tail) + [0x7d]
    else GapText(ms[0].before) + (Quoted(ms[0].name) + (ms[0].afterName + FromColon(ms, tail)))
  }

  /** From the colon of the first member on. */
  function FromColon(ms: seq<Entry>, tail: Gap): (s: bytes)
    requires ms != []
    decreases ms, 2
  {
    [0x3a] + (GapText(ms[0].beforeValue) + (Text(ms[0].doc) + (GapText(ms[0].after) + BehindValue(ms, tail))))
  }

  /** Behind the gap after the value of the first member: the closing brace, or the separator and the rest. */
  function BehindValue(ms: seq<Entry>, tail: Gap): (s: bytes)
    requires ms != []
    decreases ms, 1
  {
    if ms[0].separator.None? then [0x7d]
    else SeparatorText(ms[0].separator.value) + EntriesText(ms[1..], tail)
  }

  /** The tree of a document: later members of the same name replace earlier ones. None if a part has no value. */
  function Tree(toDouble: bytes -> Option<nat>, d: Doc): (v: Option<Value>)
    decreases d, 1
  {
    match d
    case DNull => Some(Null)
    case DBool(b) => Some(Bool(b))
    case DNumber(n) => NumeralTree(toDouble, n)
    case DString(us) => if Meaning(us).Some? then Some(Str(Meaning(us).value)) else None
    case DArray(_, items) =>
      var r := ItemTrees(toDouble, items);
      if r.Some? then Some(Arr(r.value)) else None
    case DObject(entries, _) =>
      var r := EntryTrees(toDouble, [], entries);
      if r.Some? then Some(Obj(r.value)) else None
  }

  function ItemTrees(toDouble: bytes -> Option<nat>, items: seq<Item>): (r: Option<seq<Value>>)
    decreases items, 0
  {
    if items == [] then Some([])
    else
      var v, rest := Tree(toDouble, items[0].doc), ItemTrees(toDouble, items[1..]);
      if v.Some? && rest.Some? then Some([v.value] + rest.value) else None
  }

  function EntryTrees(toDouble: bytes -> Option<nat>, done: seq<Member>, ms: seq<Entry>): (r: Option<seq<Member>>)
    decreases ms, 3
  {
    if ms == [] then Some(done)
    else
      var key, v := Meaning(ms[0].name), Tree(toDouble, ms[0].doc);
      if key.Some? && v.Some? then EntryTrees(toDouble, Put(done, key.value, v.value), ms[1..]) else None
  }

  function Levels(d: Doc): (n: nat)
    ensures n >= 1
  {
    match d
    case DArray(_, items) => 1 + ItemLevels(items)
    case DObject(entries, _) => 1 + EntryLevels(entries)
    case _ => 1
  }

  function ItemLevels(items: seq<Item>): (n: nat) {
    if items == [] then 0 else Max(Levels(items[0].doc), ItemLevels(items[1..]))
  }

  function EntryLevels(ms: seq<Entry>): (n: nat) {
    if ms == [] then 0 else Max(Levels(ms[0].doc), EntryLevels(ms[1..]))
  }

  // ---- the documents of RFC 8259 ------------------------------------------------------------

  predicate StandardGap(g: Gap) { !HasComment(g) }

  predicate StandardUnits(us: seq<Unit>) {
    forall i :: 0 <= i < |us| ==> us[i].Raw? ==> us[i].plain >= 0x20
  }

  predicate StandardNumeral(n: Numeral) {
    && n.whole != [] && (n.whole[0] == 0x30 ==> |n.whole| == 1)
    && (n.frac.Some? ==> n.frac.value != []) && (n.exp.Some? ==> n.exp.value.digits != [])
  }

  /** No comments, no control characters in strings, numbers as in section 6, commas between members and none behind. */
  predicate Standard(d: Doc)
    decreases d, 1
  {
    match d
    case DNumber(n) => StandardNumeral(n)
    case DString(us) => StandardUnits(us)
    case DArray(_, items) =>
      forall k :: 0 <= k < |items| ==>
        StandardGap(items[k].before) && StandardGap(items[k].after) && Standard(items[k].doc)
    case DObject(entries, tail) =>
      && StandardGap(tail)
      && forall k :: 0 <= k < |entries| ==>
           StandardEntry(entries[k]) && (entries[k].separator.None? <==> k == |entries| - 1)
    case _ => true
  }

  predicate StandardEntry(m: Entry)
    decreases m, 2
  {
    && StandardGap(m.before) && StandardUnits(m.name) && StandardGap(m.beforeValue) && Standard(m.doc)
    && StandardGap(m.after) && (m.separator.Some? ==> m.separator.value.Comma?)
  }
}
