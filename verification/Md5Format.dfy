/**
 The byte formats of MD5 (FileServer/MD5.cpp, encode, init, final), read back as numbers: the digest, the start state,
 the length field and the padded message, by sections 3.1 to 3.5 of RFC 1321.
 */
module Md5Format {
  import opened Bytes
  import Endian
  import opened Md5

  /** A, B, C and D by number. */
  function WordAt(st: Words, i: nat): (x: nat) {
    if i == 0 then st.a else if i == 1 then st.b else if i == 2 then st.c else st.d
  }

  lemma LittleOfWord(x: nat, s: bytes)
    requires s == Word(x)
    ensures Endian.LittleValue(s) == x % WORD
  {
    assert s == Endian.Little(x, 4) by {
      assert Endian.Little(x / 256 / 256 / 256, 1) == [x / 256 / 256 / 256 % 256];
      assert Endian.Little(x / 256 / 256, 2) == [x / 256 / 256 % 256, x / 256 / 256 / 256 % 256];
      assert Endian.Little(x / 256, 3) == [x / 256 % 256, x / 256 / 256 % 256, x / 256 / 256 / 256 % 256];
      assert x / 256 / 256 == x / 65536 && x / 256 / 256 / 256 == x / 16777216;
    }
    Endian.LittleWraps(x, 4);
    Endian.Pow256Of4();
  }

  /** Four bytes of the digest, low-order byte first, are one word of the state: section 3.5. */
  lemma OutputWords(st: Words, i: nat)
    requires i < 4
    ensures Endian.LittleValue(Output(st)[4 * i..4 * i + 4]) == WordAt(st, i) % WORD
  {
    assert Output(st)[4 * i..4 * i + 4] == Word(WordAt(st, i));
    LittleOfWord(WordAt(st, i), Output(st)[4 * i..4 * i + 4]);
  }

  /** The digest of a message gives back the state its padded blocks are folded to. */
  lemma DigestWords(f: Compress, message: bytes, i: nat)
    requires i < 4
    ensures
      Endian.LittleValue(Digest(f, message)[4 * i..4 * i + 4])
      == WordAt(Fold(f, INIT, Padded(message)), i) % WORD
  {
    hide Fold, Output, Padded;
    OutputWords(Fold(f, INIT, Padded(message)), i);
  }

  /** The start state written out: section 3.3. */
  lemma OutputOfInit()
    ensures
      Output(INIT) ==
      [0x01, 0x23, 0x45, 0x67, 0x89, 0xab, 0xcd, 0xef, 0xfe, 0xdc, 0xba, 0x98, 0x76, 0x54, 0x32, 0x10]
  {
    assert Word(INIT.a) == [0x01, 0x23, 0x45, 0x67] && Word(INIT.b) == [0x89, 0xab, 0xcd, 0xef];
    assert Word(INIT.c) == [0xfe, 0xdc, 0xba, 0x98] && Word(INIT.d) == [0x76, 0x54, 0x32, 0x10];
  }

  /** The length field is the number of bits, modulo two to the 64: section 3.2. */
  lemma LengthFieldValue(message: bytes)
    ensures Endian.LittleValue(LengthField(message)) == 8 * |message| % 0x1_0000_0000_0000_0000
  {
    var n := 8 * |message|;
    var low, high := Word(n % WORD), Word(n / WORD % WORD);
    LittleOfWord(n % WORD, low);
    LittleOfWord(n / WORD % WORD, high);
    Endian.LittleJoin(low, high);
    Endian.Pow256Of4();
    TwoWords(n);
  }

  lemma TwoWords(n: nat)
    ensures n % WORD % WORD + WORD * (n / WORD % WORD % WORD) == n % 0x1_0000_0000_0000_0000
  {
    var q := n / WORD;
    assert n == q * WORD + n % WORD;
    var h, r := q / WORD, q % WORD;
    assert q == h * WORD + r;
    var low := r * WORD + n % WORD;
    assert n == h * 0x1_0000_0000_0000_0000 + low;
    Wide(h, low, n);
  }

  lemma Wide(h: nat, low: nat, n: nat)
    requires low < 0x1_0000_0000_0000_0000 && n == h * 0x1_0000_0000_0000_0000 + low
    ensures n % 0x1_0000_0000_0000_0000 == low
  {
  }

  /** The message, the byte 0x80, zeros, and the length in the last eight bytes of the first block that has room. */
  lemma PaddedShape(message: bytes)
    ensures
      var s, n := Padded(message), |message|;
      && n + 9 <= |s| < n + 73 && s[..n] == message && s[n] == 0x80 && s[|s| - 8..] == LengthField(message)
      && forall i :: n < i < |s| - 8 ==> s[i] == 0
  {
    hide LengthField;
  }
}
