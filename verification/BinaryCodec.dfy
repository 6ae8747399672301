/**
 The field codec of the chat protocol (BinaryReader.h, BinaryReader.cpp): integers of any width, and strings behind a
 length in 7-bit groups. The host is little-endian; indexes are 32 bits wide and wrap.
 */
module BinaryCodec {
  import opened Bytes
  import opened Endian

  // ----- The length prefix -----

  /** All groups but the last: base 128, most significant first, each marked by the high bit. */
  function Lead(m: nat): (s: bytes)
    ensures s == [] <==> m == 0
  {
    if m == 0 then [] else Lead(m / 128) + [128 + m % 128]
  }

  function Prefix(n: nat): (s: bytes)
    ensures s != []
  {
    Lead(n / 128) + [n % 128]
  }

  /** x >> 7 * i */
  function Shift7(x: nat, i: nat): (r: nat)
    ensures r <= x
  {
    if i == 0 then x else Shift7(x, i - 1) / 128
  }

  const GROUPS: nat := 0x8_0000_0000 // 128^5

  lemma DivOfSum(x: nat, y: nat, c: nat)
    requires x == y + 128 * c
    ensures x / 128 == y / 128 + c && x % 128 == y % 128
  {
  }

  lemma {:induction false} ShiftOfRest(x: nat, i: nat)
    requires i <= 4
    ensures Shift7(x, i) % 128 == Shift7(x % GROUPS, i) % 128
  {
    var m, k := x % GROUPS, x / GROUPS;
    DivOfSum(x, m, 0x1000_0000 * k);
    DivOfSum(x / 128, m / 128, 0x20_0000 * k);
    DivOfSum(x / 128 / 128, m / 128 / 128, 0x4000 * k);
    DivOfSum(x / 128 / 128 / 128, m / 128 / 128 / 128, 0x80 * k);
    DivOfSum(x / 128 / 128 / 128 / 128, m / 128 / 128 / 128 / 128, k);
    ShiftUnrolled(x);
    ShiftUnrolled(m);
    hide Shift7;
  }

  lemma ShiftUnrolled(x: nat)
    ensures Shift7(x, 0) == x
    ensures Shift7(x, 1) == x / 128
    ensures Shift7(x, 2) == x / 128 / 128
    ensures Shift7(x, 3) == x / 128 / 128 / 128
    ensures Shift7(x, 4) == x / 128 / 128 / 128 / 128
  {
  }

  lemma ShiftOut(x: nat)
    requires x < GROUPS
    ensures Shift7(x, 5) == 0
  {
    assert Shift7(x, 1) == x / 128;
    assert Shift7(x, 3) == x / 128 / 128 / 128;
    assert Shift7(x, 5) == x / 128 / 128 / 128 / 128 / 128;
  }

  /** The prefix of the low 35 bits; of a longer length whose low 35 bits are zero nothing is left. */
  function Compressed(len: nat): (s: bytes)
    ensures len < GROUPS ==> s == Prefix(len)
  {
    if len >= GROUPS && len % GROUPS == 0 then [] else Prefix(len % GROUPS)
  }

  method Compress(len: nat) returns (out: bytes)
    ensures out == Compressed(len)
  {
    if len < 128 { return [len]; }
    out := [];
    var i := 5;
    ghost var m := len % GROUPS;
    ShiftOut(m);
    while i > 0
      invariant 0 <= i <= 5
      invariant i > 0 ==> out == Lead(Shift7(m, i))
      invariant i == 0 ==> out == if m == 0 then [] else Prefix(m)
    {
      i := i - 1;
      ShiftOfRest(len, i);
      var c := Shift7(len, i) % 128;
      if c == 0 && out == [] { continue; }
      out := out + [if i > 0 then 128 + c else c];
    }
  }

  /** A prefix: the high bit on every byte but the last. */
  predicate IsPrefix(p: bytes) {
    p != [] && p[|p| - 1] < 128 && forall i :: 0 <= i < |p| - 1 ==> p[i] >= 128
  }

  function GroupValue(p: bytes): (n: nat) {
    if p == [] then 0 else GroupValue(p[..|p| - 1]) * 128 + p[|p| - 1] % 128
  }

  lemma {:induction false} LeadIsMarked(m: nat)
    ensures forall i :: 0 <= i < |Lead(m)| ==> Lead(m)[i] >= 128
    ensures GroupValue(Lead(m)) == m
  {
    if m > 0 {
      LeadIsMarked(m / 128);
      assert Lead(m)[..|Lead(m)| - 1] == Lead(m / 128);
    }
  }

  /** The groups of any bytes, written without leading zeros, take no more bytes. */
  lemma {:induction false} LeadNotLonger(q: bytes)
    ensures |Lead(GroupValue(q))| <= |q|
  {
    if q != [] { LeadNotLonger(q[..|q| - 1]); }
  }

  /** The prefix is one, stands for the length, and is the shortest that does. */
  lemma PrefixIsShortest(n: nat)
    ensures IsPrefix(Prefix(n)) && GroupValue(Prefix(n)) == n
    ensures forall p :: IsPrefix(p) && GroupValue(p) == n ==> |Prefix(n)| <= |p|
    ensures n < GROUPS ==> |Prefix(n)| <= 5
  {
    PrefixIsPrefix(n);
    forall p | IsPrefix(p) && GroupValue(p) == n ensures |Prefix(n)| <= |p| { PrefixNotLonger(p); }
    if n < GROUPS { LeadAtMost4(n / 128); }
  }

  lemma PrefixIsPrefix(n: nat)
    ensures IsPrefix(Prefix(n)) && GroupValue(Prefix(n)) == n
  {
    LeadIsMarked(n / 128);
    hide Lead;
    assert Prefix(n)[..|Prefix(n)| - 1] == Lead(n / 128);
  }

  lemma PrefixNotLonger(p: bytes)
    requires IsPrefix(p)
    ensures |Prefix(GroupValue(p))| <= |p|
  {
    hide Lead;
    LeadNotLonger(p[..|p| - 1]);
    assert GroupValue(p) / 128 == GroupValue(p[..|p| - 1]);
  }

  lemma LeadAtMost4(m: nat)
    requires m < GROUPS / 128
    ensures |Lead(m)| <= 4
  {
    assert Lead(m / 128 / 128 / 128 / 128) == [];
    assert |Lead(m / 128 / 128 / 128)| <= 1;
    assert |Lead(m / 128 / 128)| <= 2;
    assert |Lead(m / 128)| <= 3;
  }

  // ----- Reading -----

  /** The length loop: the 32-bit length and the offset after the last byte it looked at (one too far at the end). */
  function ReadLength(buf: bytes, pos: nat, acc: int): (r: (int, nat))
    requires pos <= |buf|
    ensures pos < r.1 <= |buf| + 1
    decreases |buf| - pos
  {
    if pos == |buf| then (acc, pos + 1)
    else
      var length := Wrap32(acc * 128 + buf[pos] % 128);
      if buf[pos] < 128 then (length, pos + 1) else ReadLength(buf, pos + 1, length)
  }

  datatype Text = Read(text: bytes, index: nat) | Threw | Outside

  /**
   ReadData(string&): a negative length makes assign throw; otherwise that many bytes are copied unchecked, and Outside
   says that this leaves the string and its terminating zero.
   */
  function ReadText(buf: bytes, index: nat): (r: Text) {
    if index > |buf| then Outside
    else
      var (length, after) := ReadLength(buf, index, 0);
      var start, z := after % WORD, buf + [0];
      if length < 0 then Threw
      else if start + length > |z| then Outside
      else Read(z[start..start + length], (start + length) % WORD)
  }

  /** ReadData<T>: refuses a field that does not fit, else takes it in network order. */
  function ReadInt(buf: bytes, index: nat, w: nat): (r: Option<(nat, nat)>) {
    if index + w > |buf| then None
    else Some((BigValue(buf[index..index + w]), (index + w) % WORD))
  }

  /** Marked bytes only add their groups to the length. */
  lemma {:induction false} ReadGroups(buf: bytes, pos: nat, q: bytes)
    requires At(buf, pos, q) && forall i :: 0 <= i < |q| ==> q[i] >= 128
    ensures ReadLength(buf, pos, 0) == ReadLength(buf, pos + |q|, Wrap32(GroupValue(q)))
    decreases |q|
  {
    hide Wrap32, At;
    if q == [] {
      WrapSmall(0);
    } else {
      var front, last := q[..|q| - 1], q[|q| - 1];
      assert q == front + [last];
      AtSplit(buf, pos, front, [last]);
      AtIndex(buf, pos + |front|, [last], 0);
      ReadGroups(buf, pos, front);
      WrapStep(GroupValue(front), last % 128);
    }
  }

  /** The length loop on any prefix, the shortest one or not. */
  lemma ReadPrefix(buf: bytes, pos: nat, p: bytes)
    requires At(buf, pos, p) && IsPrefix(p)
    ensures ReadLength(buf, pos, 0) == (Wrap32(GroupValue(p)), pos + |p|)
  {
    hide Wrap32, At;
    var front, last := p[..|p| - 1], p[|p| - 1];
    assert p == front + [last];
    AtSplit(buf, pos, front, [last]);
    AtIndex(buf, pos + |front|, [last], 0);
    ReadGroups(buf, pos, front);
    WrapStep(GroupValue(front), last % 128);
  }

  /** Where the length loop stops inside the buffer, it has read a prefix. */
  lemma {:induction false} StopsAtPrefix(buf: bytes, pos: nat, acc: int)
    requires pos <= |buf| && ReadLength(buf, pos, acc).1 <= |buf|
    ensures IsPrefix(buf[pos..ReadLength(buf, pos, acc).1])
    decreases |buf| - pos
  {
    hide Wrap32;
    if buf[pos] >= 128 {
      var length := Wrap32(acc * 128 + buf[pos] % 128);
      StopsAtPrefix(buf, pos + 1, length);
      var end := ReadLength(buf, pos + 1, length).1;
      assert buf[pos..end] == [buf[pos]] + buf[pos + 1..end];
    }
  }

  lemma WrapSmall(x: int)
    requires 0 <= x < 0x8000_0000
    ensures Wrap32(x) == x
  {
  }

  lemma WrapBy(x: int) returns (k: int)
    ensures Wrap32(x) == x + WORD * k
  {
    k := if x % WORD < 0x8000_0000 then -(x / WORD) else -(x / WORD) - 1;
  }

  lemma WrapOfSum(x: int, k: int)
    ensures Wrap32(x + WORD * k) == Wrap32(x)
  {
    assert (x + WORD * k) % WORD == x % WORD;
  }

  /** One more group: wrapping before or after makes no difference. */
  lemma WrapStep(g: nat, c: nat)
    ensures Wrap32(Wrap32(g) * 128 + c) == Wrap32(g * 128 + c)
  {
    hide Wrap32;
    var k := WrapBy(g);
    assert Wrap32(g) * 128 + c == g * 128 + c + WORD * (128 * k);
    WrapOfSum(g * 128 + c, 128 * k);
  }

  lemma WrapLong(x: nat)
    requires 0x8000_0000 <= x < WORD
    ensures Wrap32(x) < 0
  {
  }

  /**
   A string put behind its prefix is read back exactly when its length fits a 32-bit int and its end the 32-bit index.
   */
  lemma TextReadsBackIff(buf: bytes, index: nat, s: bytes)
    requires At(buf, index, Prefix(|s|) + s)
    ensures
      var end := index + |Prefix(|s|)| + |s|;
      |s| < 0x8000_0000 && end < WORD <==> ReadText(buf, index) == Read(s, end)
    ensures 0x8000_0000 <= |s| < WORD ==> ReadText(buf, index) == Threw
  {
    hide Prefix, ReadLength, IsPrefix, GroupValue;
    AtSplit(buf, index, Prefix(|s|), s);
    PrefixIsPrefix(|s|);
    ReadPrefix(buf, index, Prefix(|s|));
    if 0x8000_0000 <= |s| < WORD { WrapLong(|s|); }
    hide Wrap32;
    var start, z := index + |Prefix(|s|)|, buf + [0];
    assert z[start..start + |s|] == buf[start..start + |s|] == s;
  }

  /** A whole string stands at the index: a prefix and as many bytes as its length, taken as a 32-bit int, says. */
  ghost predicate StringAt(buf: bytes, index: nat, p: bytes, s: bytes) {
    At(buf, index, p + s) && IsPrefix(p) && Wrap32(GroupValue(p)) == |s|
  }

  /** Such a string is read, whatever its prefix, and the cursor moves to its end. */
  lemma StringAtIsRead(buf: bytes, index: nat, p: bytes, s: bytes)
    requires |buf| + 1 < WORD && StringAt(buf, index, p, s)
    ensures ReadText(buf, index) == Read(s, index + |p| + |s|) && index + |p| + |s| <= |buf|
  {
    hide ReadLength, Wrap32, IsPrefix, GroupValue, At;
    AtSplit(buf, index, p, s);
    ReadPrefix(buf, index, p);
    TextBehind(buf, index + |p|, s);
  }

  lemma TextBehind(buf: bytes, start: nat, s: bytes)
    requires At(buf, start, s)
    ensures start + |s| <= |buf| && (buf + [0])[start..start + |s|] == s
  {
  }

  /**
   For every buffer the cursor can count and every index inside it: a read succeeds with the cursor inside the buffer if
   and only if a whole string stands at the index, and the text is then that string. Every other read throws, leaves the
   buffer, or hands over a text with the cursor past the end.
   */
  lemma TextInsideIff(buf: bytes, index: nat)
    requires |buf| + 1 < WORD && index <= |buf|
    ensures
      var r := ReadText(buf, index);
      (r.Read? && r.index <= |buf|) <==> exists p, s :: StringAt(buf, index, p, s)
    ensures forall p, s :: StringAt(buf, index, p, s) ==> ReadText(buf, index) == Read(s, index + |p| + |s|)
  {
    hide ReadText, StringAt;
    forall p, s | StringAt(buf, index, p, s)
      ensures ReadText(buf, index) == Read(s, index + |p| + |s|) && index + |p| + |s| <= |buf|
    {
      StringAtIsRead(buf, index, p, s);
    }
    var r := ReadText(buf, index);
    if r.Read? && r.index <= |buf| { var p, s := FindString(buf, index); }
  }

  lemma FindString(buf: bytes, index: nat) returns (p: bytes, s: bytes)
    requires |buf| + 1 < WORD && index <= |buf| && ReadText(buf, index).Read? && ReadText(buf, index).index <= |buf|
    ensures StringAt(buf, index, p, s)
  {
    hide ReadLength, Wrap32, IsPrefix, GroupValue;
    var (length, after) := ReadLength(buf, index, 0);
    assert after + length <= |buf|;
    StopsAtPrefix(buf, index, 0);
    p, s := buf[index..after], buf[after..after + length];
    ReadPrefix(buf, index, p);
    assert buf[index..after + length] == p + s;
  }

  /** The other reads occur: nothing left, a text that takes the terminating zero, a length that never ends. */
  lemma TextPastEnd(buf: bytes)
    ensures ReadText(buf, |buf|) == Read([], (|buf| + 1) % WORD)
    ensures ReadText([1], 0) == Read([0], 2)
    ensures ReadText([0x80, 0x80], 0) == Read([], 3)
  {
    assert ReadLength([1], 0, 0) == (1, 1);
    assert ([1] + [0])[1..2] == [0];
    assert ReadLength([0x80, 0x80], 2, 0) == (0, 3);
    assert ReadLength([0x80, 0x80], 1, 0) == (0, 3);
  }

  // ----- Runs of fields -----

  /** What a caller writes: an integer of w bytes passed through htonl, or a string. */
  datatype Field = Number(value: nat, width: nat) | String(text: bytes)

  datatype Shape = NumberShape(width: nat) | StringShape

  predicate Fits(f: Field) {
    match f
    case Number(n, w) => n < Pow256(w)
    case String(_) => true
  }

  predicate Readable(f: Field) {
    f.String? ==> |f.text| < 0x8000_0000
  }

  predicate AllFit(fs: seq<Field>) {
    forall i :: 0 <= i < |fs| ==> Fits(fs[i])
  }

  predicate AllReadable(fs: seq<Field>) {
    forall i :: 0 <= i < |fs| ==> Readable(fs[i])
  }

  function ShapeOf(f: Field): (s: Shape) {
    match f
    case Number(_, w) => NumberShape(w)
    case String(_) => StringShape
  }

  function Encode(f: Field): (s: bytes) {
    match f
    case Number(n, w) => Big(n, w)
    case String(s) => Prefix(|s|) + s
  }

  function EncodeAll(fs: seq<Field>): (s: bytes) {
    if fs == [] then [] else Encode(fs[0]) + EncodeAll(fs[1..])
  }

  /** One read; None when it returns false, throws, or leaves the buffer. */
  function ReadField(buf: bytes, index: nat, shape: Shape): (r: Option<(Field, nat)>) {
    match shape
    case NumberShape(w) =>
      var r := ReadInt(buf, index, w);
      if r.None? then None else Some((Number(r.value.0, w), r.value.1))
    case StringShape =>
      var r := ReadText(buf, index);
      if r.Read? then Some((String(r.text), r.index)) else None
  }

  function ReadFields(buf: bytes, index: nat, shapes: seq<Shape>): (r: Option<(seq<Field>, nat)>)
    decreases |shapes|
  {
    if shapes == [] then Some(([], index))
    else
      var head := ReadField(buf, index, shapes[0]);
      if head.None? then None
      else
        var tail := ReadFields(buf, head.value.1, shapes[1..]);
        if tail.None? then None else Some(([head.value.0] + tail.value.0, tail.value.1))
  }

  function Shapes(fs: seq<Field>): (ss: seq<Shape>)
    ensures |ss| == |fs|
  {
    if fs == [] then [] else [ShapeOf(fs[0])] + Shapes(fs[1..])
  }

  /** One field: it is read back with the cursor at its end exactly when it is readable and ends below 2^32. */
  lemma FieldReadsBackIff(buf: bytes, index: nat, f: Field)
    requires Fits(f) && At(buf, index, Encode(f))
    ensures
      var end := index + |Encode(f)|;
      Readable(f) && end < WORD <==> ReadField(buf, index, ShapeOf(f)) == Some((f, end))
    ensures !Readable(f) && index + |Encode(f)| < WORD ==> ReadField(buf, index, ShapeOf(f)) == None
  {
    hide ReadText, Prefix;
    if f.Number? {
      NumberReadsBackIff(buf, index, f.value, f.width);
      hide ReadInt, Big;
    } else {
      TextReadsBackIff(buf, index, f.text);
    }
  }

  lemma NumberReadsBackIff(buf: bytes, index: nat, n: nat, w: nat)
    requires n < Pow256(w) && At(buf, index, Big(n, w))
    ensures index + w < WORD <==> ReadInt(buf, index, w) == Some((n, index + w))
  {
    BigValueOfBig(n, w);
    hide Big, BigValue;
  }

  /** The cursor is 32 bits wide. */
  lemma {:induction false} CursorInRange(buf: bytes, index: nat, shapes: seq<Shape>)
    requires index < WORD
    ensures var r := ReadFields(buf, index, shapes); r.Some? ==> r.value.1 < WORD
    decreases |shapes|
  {
    hide ReadInt, ReadText;
    if shapes != [] {
      var head := ReadField(buf, index, shapes[0]);
      if head.Some? {
        FieldCursor(buf, index, shapes[0]);
        CursorInRange(buf, head.value.1, shapes[1..]);
      }
    }
  }

  lemma FieldCursor(buf: bytes, index: nat, shape: Shape)
    ensures var r := ReadField(buf, index, shape); r.Some? ==> r.value.1 < WORD
  {
    hide ReadLength;
  }

  /**
   Any fields written one after the other are read back with the cursor at their end, if and only if no string is too
   long and they end below 2^32, the range of the cursor.
   */
  lemma FieldsReadBackIff(buf: bytes, index: nat, fs: seq<Field>)
    requires AllFit(fs) && At(buf, index, EncodeAll(fs)) && index < WORD
    ensures
      var end := index + |EncodeAll(fs)|;
      AllReadable(fs) && end < WORD <==> ReadFields(buf, index, Shapes(fs)) == Some((fs, end))
  {
    hide ReadFields, AllFit, AllReadable, Shapes, At;
    CursorInRange(buf, index, Shapes(fs));
    if index + |EncodeAll(fs)| < WORD { FieldsInRange(buf, index, fs); }
  }

  lemma {:induction false} FieldsInRange(buf: bytes, index: nat, fs: seq<Field>)
    requires AllFit(fs) && At(buf, index, EncodeAll(fs)) && index + |EncodeAll(fs)| < WORD
    ensures AllReadable(fs) <==>
            ReadFields(buf, index, Shapes(fs)) == Some((fs, index + |EncodeAll(fs)|))
    decreases |fs|
  {
    hide ReadField, Encode, Fits, Readable;
    if fs != [] {
      AtSplit(buf, index, Encode(fs[0]), EncodeAll(fs[1..]));
      FieldReadsBackIff(buf, index, fs[0]);
      if Readable(fs[0]) {
        FieldsInRange(buf, index + |Encode(fs[0])|, fs[1..]);
        assert AllReadable(fs) <==> AllReadable(fs[1..]) by {
          assert forall i :: 1 <= i < |fs| ==> fs[i] == fs[1..][i - 1];
        }
        ReadFieldsStep(buf, index, fs);
      }
    }
  }

  lemma ReadFieldsStep(buf: bytes, index: nat, fs: seq<Field>)
    requires fs != [] && ReadField(buf, index, ShapeOf(fs[0])) == Some((fs[0], index + |Encode(fs[0])|))
    ensures var i, rest := index + |Encode(fs[0])|, fs[1..];
            forall last: nat :: ReadFields(buf, index, Shapes(fs)) == Some((fs, last)) <==>
                                ReadFields(buf, i, Shapes(rest)) == Some((rest, last))
  {
    hide ReadField, Encode;
    assert Shapes(fs)[0] == ShapeOf(fs[0]) && Shapes(fs)[1..] == Shapes(fs[1..]);
    assert fs == [fs[0]] + fs[1..];
    assert forall t: seq<Field> :: ([fs[0]] + t)[1..] == t;
  }

  lemma {:induction false} EncodeSnoc(fs: seq<Field>, f: Field)
    ensures EncodeAll(fs + [f]) == EncodeAll(fs) + Encode(f)
  {
    if fs != [] {
      assert (fs + [f])[1..] == fs[1..] + [f];
      EncodeSnoc(fs[1..], f);
    } else {
      assert [f][1..] == [];
    }
  }

  // ----- Byte order -----

  /** htons, htonl: the value whose bytes in memory are in network order. */
  function HostToNet(n: nat, w: nat): (r: nat)
    ensures r < Pow256(w)
  {
    LittleValueBound(Big(n, w));
    LittleValue(Big(n, w))
  }

  /** Swapping twice gives the value back, and a swapped value lies in memory in network order. */
  lemma SwapTwice(n: nat, w: nat)
    requires n < Pow256(w)
    ensures HostToNet(HostToNet(n, w), w) == n
    ensures Little(HostToNet(n, w), w) == Big(n, w)
  {
    LittleOfLittleValue(Big(n, w));
    var m := HostToNet(n, w);
    ReverseOfReverse(Little(n, w));
    BigIsReverse(n, w);
    BigIsReverse(m, w);
    LittleValueOfLittle(n, w);
  }

  lemma {:induction false} BigIsReverse(n: nat, w: nat)
    ensures Big(n, w) == Reverse(Little(n, w))
  {
    if w > 0 {
      BigIsReverse(n / 256, w - 1);
      assert Little(n, w)[1..] == Little(n / 256, w - 1);
    }
  }

  lemma ReverseOfReverse(s: bytes)
    ensures Reverse(Reverse(s)) == s
  {
    forall k | 0 <= k < |s| ensures Reverse(Reverse(s))[k] == s[k] {
      ReverseAt(Reverse(s), k);
      ReverseAt(s, |s| - 1 - k);
    }
  }

  /** An integer written in host order comes back swapped. */
  lemma HostOrderReadsSwapped(buf: bytes, index: nat, n: nat, w: nat)
    requires n < Pow256(w) && At(buf, index, Little(n, w))
    ensures ReadInt(buf, index, w) == Some((HostToNet(n, w), (index + w) % WORD))
  {
    BigIsReverse(n, w);
    ReverseOfReverse(Little(n, w));
    LittleOfReverse(Little(n, w));
  }

  // ----- The objects -----

  /** string::resize */
  function Resized(s: bytes, n: nat): (r: bytes)
    ensures |r| == n && (n == |s| ==> r == s)
  {
    if n <= |s| then s[..n] else s + seq(n - |s|, _ => 0)
  }

  lemma WrapTwice(a: nat, b: nat)
    ensures (a % WORD + b) % WORD == (a + b) % WORD
  {
    var k := a / WORD;
    assert a % WORD + b == a + b - WORD * k;
  }

  class BinaryWriter {
    var buffer: bytes
    var index: nat

    constructor ()
      ensures buffer == [] && index == 0
    {
      buffer, index := [], 0;
    }

    method Clear()
      modifies this
      ensures buffer == [] && index == 0
    {
      buffer, index := [], 0;
    }

    /** operator=(string): the index stays at 0, so the next integer replaces the text. */
    method Assign(s: bytes)
      modifies this
      ensures buffer == s && index == 0
    {
      Clear();
      buffer := s;
    }

    /** WriteData<T>: the bytes in memory, at the index. */
    method WriteNumber(n: nat, w: nat)
      requires n < Pow256(w)
      modifies this
      ensures buffer == Resized(old(buffer), old(index)) + Little(n, w)
      ensures index == (old(index) + w) % WORD
    {
      var old_ := buffer;
      buffer := Resized(buffer, index + w);
      buffer := buffer[..index] + Little(n, w) + buffer[index + w..];
      assert buffer == Resized(old_, index) + Little(n, w);
      index := (index + w) % WORD;
    }

    /** WriteData<string> */
    method WriteText(s: bytes)
      modifies this
      ensures buffer == old(buffer) + Compressed(|s|) + s
      ensures index == (old(index) + |Compressed(|s|)| + |s|) % WORD
    {
      hide Compressed;
      var out := Compress(|s|);
      WrapTwice(index + |out|, |s|);
      buffer := buffer + out;
      index := (index + |out|) % WORD;
      if |s| > 0 {
        buffer := buffer + s;
        index := (index + |s|) % WORD;
      }
    }

    /** One field, integers through htonl: it lands at the end of the buffer and the index keeps to the size. */
    method WriteField(f: Field)
      requires Fits(f) && index == |buffer| && |buffer| + |Encode(f)| < WORD
      modifies this
      ensures buffer == old(buffer) + Encode(f) && index == |buffer|
    {
      hide Prefix;
      if f.Number? {
        SwapTwice(f.value, f.width);
        hide HostToNet, Little, Big;
        WriteNumber(HostToNet(f.value, f.width), f.width);
      } else {
        WriteText(f.text);
      }
    }

    /** A run of writes holds exactly the fields. */
    method WriteFields(fs: seq<Field>)
      requires AllFit(fs) && |EncodeAll(fs)| < WORD
      modifies this
      ensures buffer == EncodeAll(fs) && index == |buffer|
    {
      hide Encode, Fits;
      Clear();
      var i := 0;
      while i < |fs|
        invariant 0 <= i <= |fs|
        invariant buffer == EncodeAll(fs[..i]) && index == |buffer|
      {
        EncodePrefix(fs, i + 1);
        EncodeSnoc(fs[..i], fs[i]);
        assert fs[..i] + [fs[i]] == fs[..i + 1];
        WriteField(fs[i]);
        i := i + 1;
      }
      assert fs[..i] == fs;
    }
  }

  lemma {:induction false} EncodePrefix(fs: seq<Field>, k: nat)
    requires k <= |fs|
    ensures |EncodeAll(fs[..k])| <= |EncodeAll(fs)|
  {
    if k > 0 {
      EncodePrefix(fs[1..], k - 1);
      assert fs[..k][1..] == fs[1..][..k - 1];
    }
  }

  class BinaryReader {
    var buffer: bytes
    var index: nat

    constructor (s: bytes)
      ensures buffer == s && index == 0
    {
      buffer, index := s, 0;
    }

    /** ReadData<T>: copies the bytes in reverse into the integer. */
    method ReadNumber(w: nat) returns (r: Option<nat>)
      modifies this`index
      ensures r.None? <==> ReadInt(buffer, old(index), w).None?
      ensures r.None? ==> index == old(index)
      ensures r.Some? ==> ReadInt(buffer, old(index), w) == Some((r.value, index))
    {
      if index + w > |buffer| { return None; }
      var memory := [];
      var i := 0;
      ghost var field := buffer[index..index + w];
      while i < w
        invariant 0 <= i <= w && index == old(index) && memory == Reverse(field)[..i]
      {
        ReverseAt(field, i);
        memory := memory + [buffer[index + w - (i + 1)]];
        i := i + 1;
      }
      LittleOfReverse(field);
      assert memory == Reverse(field);
      index := (index + w) % WORD;
      r := Some(LittleValue(memory));
    }

    /** ReadData<string>; on Threw the index has passed the length. */
    method ReadString() returns (r: Text)
      modifies this`index
      ensures r == ReadText(buffer, old(index))
      ensures r.Read? ==> index == r.index
    {
      hide Wrap32;
      if index > |buffer| { return Outside; }
      var length := 0;
      var i := 0;
      while i < |buffer| - index
        invariant 0 <= i <= |buffer| - index && index == old(index)
        invariant ReadLength(buffer, index, 0) == ReadLength(buffer, index + i, length)
      {
        length := Wrap32(length * 128 + buffer[index + i] % 128);
        if buffer[index + i] < 128 { break; }
        i := i + 1;
      }
      assert ReadLength(buffer, index, 0) == (length, index + i + 1);
      index := (index + i + 1) % WORD;
      if length < 0 { return Threw; }
      var z := buffer + [0];
      if index + length > |z| { return Outside; }
      var text := z[index..index + length];
      index := (index + length) % WORD;
      r := Read(text, index);
    }
  }
}
