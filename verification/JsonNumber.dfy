/**
 Integer text: the digit writer of the styled writer and the integer decoder of the reader
 (newJson/jsoncpp.cpp, uintToString, valueToString, Reader::decodeNumber).
 */
module JsonNumber {
  import opened Bytes

  const ZERO: byte := 0x30
  const MINUS: byte := 0x2d

  const MAX_INT32: int := 0x7fff_ffff
  const MAX_INT64: int := 0x7fff_ffff_ffff_ffff
  const MIN_INT64: int := -0x8000_0000_0000_0000
  const MAX_UINT64: int := 0xffff_ffff_ffff_ffff

  newtype uint64 = x: int | 0 <= x <= 0xffff_ffff_ffff_ffff

  predicate IsDigit(c: byte) { 0x30 <= c <= 0x39 }

  predicate AllDigits(s: bytes) {
    forall i :: 0 <= i < |s| ==> IsDigit(s[i])
  }

  /** The number a digit string denotes; the empty string denotes zero. */
  function DecVal(s: bytes): (n: nat)
    requires AllDigits(s)
  {
    if s == [] then 0 else DecVal(s[..|s| - 1]) * 10 + (s[|s| - 1] - 0x30)
  }

  /** The shortest decimal text of a number. */
  function Digits(n: nat): (s: bytes)
    ensures 0 < |s| && AllDigits(s)
  {
    if n < 10 then [0x30 + n] else Digits(n / 10) + [0x30 + n % 10]
  }

  lemma {:induction false} DigitsValue(n: nat)
    ensures DecVal(Digits(n)) == n
  {
    var s := Digits(n);
    if n >= 10 {
      DigitsValue(n / 10);
      assert s[..|s| - 1] == Digits(n / 10);
    } else {
      assert s[..|s| - 1] == [];
    }
  }

  function Pow10(k: nat): (p: nat)
    ensures p > 0
  {
    if k == 0 then 1 else 10 * Pow10(k - 1)
  }

  /** A number below ten to the k has at most k digits. */
  lemma {:induction false} DigitsLength(n: nat, k: nat)
    requires k > 0 && n < Pow10(k)
    ensures |Digits(n)| <= k
  {
    if n >= 10 {
      assert Pow10(1) == 10;
      assert n / 10 < Pow10(k - 1);
      DigitsLength(n / 10, k - 1);
    }
  }

  /** The decimal text of a signed number. */
  function IntText(n: int): (s: bytes)
    ensures 0 < |s|
  {
    if n < 0 then [MINUS] + Digits(-n) else Digits(n)
  }

  // ---- what the decoder must compute -------------------------------------------------

  /** Result of decodeNumber: a signed or an unsigned 64-bit value, or the text goes to the double converter. */
  datatype Decoded = Signed(i: int) | Unsigned(u: nat) | AsDouble

  function Body(text: bytes): (s: bytes) {
    if |text| > 0 && text[0] == MINUS then text[1..] else text
  }

  predicate Negative(text: bytes) { |text| > 0 && text[0] == MINUS }

  function MaxMagnitude(negative: bool): (m: nat)
  {
    if negative then 0x8000_0000_0000_0000 else 0xffff_ffff_ffff_ffff
  }

  /** A text is an integer that fits: an optional minus and digits, with value in -2^63 .. 2^64 - 1. */
  predicate FitsInteger(text: bytes) {
    AllDigits(Body(text)) && DecVal(Body(text)) <= MaxMagnitude(Negative(text))
  }

  function TextValue(text: bytes): (n: int)
    requires AllDigits(Body(text))
  {
    var magnitude: int := DecVal(Body(text));
    if Negative(text) then -magnitude else magnitude
  }

  /** Values up to the 32-bit maximum (and all negative ones) come back signed, larger ones unsigned. */
  function Tagged(n: int): (d: Decoded) {
    if n <= MAX_INT32 then Signed(n) else Unsigned(n)
  }

  function DecodeNumber(text: bytes): (d: Decoded) {
    if FitsInteger(text) then Tagged(TextValue(text)) else AsDouble
  }

  lemma DigitsNotMinus(s: bytes)
    requires AllDigits(s)
    ensures !Negative(s) && Body(s) == s
  {
    if |s| > 0 { assert IsDigit(s[0]); }
  }

  /** Decoding inverts printing for every 64-bit integer, signed or unsigned. */
  lemma DecodeInvertsPrint(n: int)
    requires MIN_INT64 <= n <= MAX_UINT64
    ensures DecodeNumber(IntText(n)) == Tagged(n)
  {
    if n < 0 {
      assert Body(IntText(n)) == Digits(-n);
      DigitsValue(-n);
    } else {
      DigitsNotMinus(Digits(n));
      DigitsValue(n);
    }
  }

  lemma {:induction false} DecValMonotone(s: bytes, k: nat)
    requires AllDigits(s) && k <= |s|
    ensures AllDigits(s[..k]) && DecVal(s[..k]) <= DecVal(s)
    decreases |s| - k
  {
    if k < |s| {
      DecValMonotone(s, k + 1);
      assert s[..k + 1][..k] == s[..k];
    } else {
      assert s[..k] == s;
    }
  }

  lemma DecValStep(s: bytes, k: nat)
    requires k < |s| && AllDigits(s[..k]) && IsDigit(s[k])
    ensures AllDigits(s[..k + 1])
    ensures DecVal(s[..k + 1]) == DecVal(s[..k]) * 10 + (s[k] - 0x30)
  {
    assert s[..k + 1] == s[..k] + [s[k]];
    assert s[..k + 1][..k] == s[..k];
  }

  // ---- the loops of the source ----------------------------------------------------------

  /**
   The threshold loop of decodeNumber over the token text. Every intermediate value is a uint64,
   so the verifier checks that no product or sum leaves 64 bits.
   */
  method DecodeNumberLoop(text: bytes) returns (d: Decoded)
    requires |text| > 0
    ensures d == DecodeNumber(text)
  {
    var isNegative := text[0] == MINUS;
    var first := if isNegative then 1 else 0;
    var current := first;
    ghost var body := Body(text);
    assert body == text[first..];
    var maxIntegerValue: uint64 := if isNegative then 0x7fff_ffff_ffff_ffff + 1 else 0xffff_ffff_ffff_ffff;
    var threshold: uint64 := maxIntegerValue / 10;
    var value: uint64 := 0;
    while current < |text|
      invariant first <= current <= |text|
      invariant AllDigits(body[..current - first])
      invariant DecVal(body[..current - first]) == value as int
      invariant value <= maxIntegerValue
    {
      var c := text[current];
      ghost var k := current - first;
      assert body[k] == c;
      current := current + 1;
      if c < 0x30 || c > 0x39 {
        assert !IsDigit(body[k]);
        return AsDouble;
      }
      var digit: uint64 := (c - 0x30) as uint64;
      DecValStep(body, k);
      if value >= threshold {
        if value > threshold || current != |text| || digit > maxIntegerValue % 10 {
          TooLarge(text, k, maxIntegerValue as int);
          return AsDouble;
        }
      }
      value := value * 10 + digit;
    }
    assert body[..current - first] == body;
    if isNegative && value == maxIntegerValue {
      d := Signed(-0x8000_0000_0000_0000);
    } else if isNegative {
      d := Signed(-(value as int));
    } else if value as int <= MAX_INT32 {
      d := Signed(value as int);
    } else {
      d := Unsigned(value as int);
    }
  }

  /** Leaving the loop at digit k because of the threshold means the whole text does not fit. */
  lemma TooLarge(text: bytes, k: nat, max: nat)
    requires |text| > 0 && max == MaxMagnitude(Negative(text))
    requires k < |Body(text)| && AllDigits(Body(text)[..k + 1])
    requires AllDigits(Body(text)[..k]) && DecVal(Body(text)[..k]) >= max / 10
    requires
      || DecVal(Body(text)[..k]) > max / 10
      || k + 1 < |Body(text)|
      || Body(text)[k] - 0x30 > max % 10
    ensures !FitsInteger(text)
  {
    var body := Body(text);
    if AllDigits(body) {
      DecValStep(body, k);
      DecValMonotone(body, k + 1);
      if DecVal(body[..k]) == max / 10 && k + 1 < |body| {
        DecValStep(body, k + 1);
        DecValMonotone(body, k + 2);
      }
    }
  }

  /** Size of the character buffer the writer prints integers into: three characters a byte, plus one. */
  const BUFFER_SIZE: nat := 25

  /**
   uintToString: digits are written backwards from `current`, after a terminating zero, into any buffer with 21 bytes
   before that place. Returns the index of the first digit.
   */
  method UIntToString(value: uint64, buffer: array<byte>, current0: nat) returns (current: nat)
    requires 21 <= current0 <= buffer.Length
    modifies buffer
    ensures current0 - 21 <= current <= current0 - 2
    ensures buffer[current..current0 - 1] == Digits(value as int) && buffer[current0 - 1] == 0
    ensures buffer[..current] == old(buffer[..current]) && buffer[current0..] == old(buffer[current0..])
  {
    hide Digits, Pow10;
    assert |Digits(value as int)| <= 20 by { UInt64Length(value as int); }
    current := current0 - 1;
    buffer[current] := 0;
    var v := value;
    ghost var done: bytes := [];
    var first := true;
    while first || v != 0
      invariant current0 - 21 <= current <= current0 - 1
      invariant buffer[current0 - 1] == 0
      invariant buffer[..current] == old(buffer[..current]) && buffer[current0..] == old(buffer[current0..])
      invariant buffer[current..current0 - 1] == done
      invariant first ==> v == value && done == []
      invariant !first ==> |done| > 0
      invariant v != 0 || first ==> Digits(v as int) + done == Digits(value as int)
      invariant v == 0 && !first ==> done == Digits(value as int)
      decreases first, v
    {
      assert current > current0 - 21 by {
        assert |done| == current0 - 1 - current;
        assert |Digits(v as int)| > 0;
      }
      var digit := (v % 10) as int + 0x30;
      ghost var before := done;
      ghost var oldV := v;
      ghost var kept := buffer[..current];
      current := current - 1;
      buffer[current] := digit;
      done := [digit] + before;
      assert buffer[..current] == kept[..current] == old(buffer[..current]);
      assert buffer[current..current0 - 1] == [digit] + buffer[current + 1..current0 - 1];
      v := v / 10;
      PeelDigit(oldV as int, before);
      first := false;
    }
  }

  lemma PeelDigit(n: nat, done: bytes)
    ensures Digits(n) + done == (if n / 10 == 0 then [] else Digits(n / 10)) + ([0x30 + n % 10] + done)
  {
  }

  lemma Pow10Of20()
    ensures Pow10(20) == 100000000000000000000
  {
    assert Pow10(5) == 100000;
    assert Pow10(10) == 10000000000;
    assert Pow10(15) == 1000000000000000;
  }

  lemma UInt64Length(n: nat)
    requires n <= MAX_UINT64
    ensures |Digits(n)| <= 20
  {
    Pow10Of20();
    DigitsLength(n, 20);
  }

  /** valueToString for signed values: the text always fits the buffer, whose first index is never passed. */
  method ValueToString(value: int) returns (s: bytes)
    requires MIN_INT64 <= value <= MAX_INT64
    ensures s == IntText(value)
  {
    var buffer := new byte[BUFFER_SIZE];
    var current: nat := BUFFER_SIZE;
    if value == MIN_INT64 {
      current := UIntToString(0x7fff_ffff_ffff_ffff + 1, buffer, current);
      current := current - 1;
      buffer[current] := MINUS;
    } else if value < 0 {
      current := UIntToString((-value) as uint64, buffer, current);
      current := current - 1;
      buffer[current] := MINUS;
    } else {
      current := UIntToString(value as uint64, buffer, current);
    }
    s := buffer[current..BUFFER_SIZE - 1];
    assert value < 0 ==> s == [MINUS] + buffer[current + 1..BUFFER_SIZE - 1];
  }

  /** valueToString for unsigned values */
  method UnsignedToString(value: int) returns (s: bytes)
    requires 0 <= value <= MAX_UINT64
    ensures s == IntText(value)
  {
    var buffer := new byte[BUFFER_SIZE];
    var current := UIntToString(value as uint64, buffer, BUFFER_SIZE);
    s := buffer[current..BUFFER_SIZE - 1];
  }
}
