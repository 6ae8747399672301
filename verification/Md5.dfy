/**
 Streaming MD5 (FileServer/MD5.cpp) against the one-shot definition of sections 3.1 to 3.5 of RFC 1321.
 The compression of one block is a parameter, so the results hold for `transform` whatever its rounds compute.
 */
module Md5 {
  import opened Bytes

  /** The four 32-bit words A, B, C, D. */
  datatype Words = Words(a: nat, b: nat, c: nat, d: nat)

  const WORD: int := 0x1_0000_0000

  const INIT: Words := Words(0x67452301, 0xefcdab89, 0x98badcfe, 0x10325476)

  type Compress = (Words, bytes) -> Words

  // ---- the definition of RFC 1321 ----------------------------------------------------------

  function Zeros(n: nat): (s: bytes)
    ensures |s| == n
  {
    seq(n, _ => 0)
  }

  /** Little-endian bytes of a word. */
  function Word(x: nat): (s: bytes)
    ensures |s| == 4
  {
    [x % 256, x / 256 % 256, x / 65536 % 256, x / 16777216 % 256]
  }

  /** Bit length of a message, low-order word first: section 3.2. */
  function LengthField(message: bytes): (s: bytes)
    ensures |s| == 8
  {
    Word(8 * |message| % WORD) + Word(8 * |message| / WORD % WORD)
  }

  /** A one bit, then zero bits up to 56 bytes modulo 64: section 3.1. */
  function Padding(length: nat): (s: bytes)
    ensures (length + |s|) % 64 == 56 && 1 <= |s| <= 64
  {
    [0x80] + Zeros(if length % 64 < 56 then 55 - length % 64 else 119 - length % 64)
  }

  function Padded(message: bytes): (s: bytes)
    ensures |s| % 64 == 0
  {
    EightMore(|message| + |Padding(|message|)|);
    message + Padding(|message|) + LengthField(message)
  }

  lemma EightMore(n: nat)
    requires n % 64 == 56
    ensures (n + 8) % 64 == 0
  {
  }

  /** Blocks are compressed in order: section 3.4. */
  function Fold(f: Compress, st: Words, data: bytes): (r: Words)
    requires |data| % 64 == 0
    decreases |data|
  {
    if data == [] then st else Fold(f, f(st, data[..64]), data[64..])
  }

  function Output(st: Words): (s: bytes)
    ensures |s| == 16
  {
    Word(st.a) + Word(st.b) + Word(st.c) + Word(st.d)
  }

  /** The digest of a whole message. */
  function Digest(f: Compress, message: bytes): (s: bytes)
    ensures |s| == 16
  {
    Output(Fold(f, INIT, Padded(message)))
  }

  // ---- blocks and rest -----------------------------------------------------------------------

  /** The full blocks of a message, and the bytes after them. */
  function Whole(m: bytes): (s: bytes)
    ensures |s| % 64 == 0 && |s| == |m| - |m| % 64
  {
    m[..|m| - |m| % 64]
  }

  function Pending(m: bytes): (s: bytes)
    ensures |s| == |m| % 64
  {
    m[|m| - |m| % 64..]
  }

  lemma {:induction false} FoldAppend(f: Compress, st: Words, a: bytes, b: bytes)
    requires |a| % 64 == 0 && |b| % 64 == 0
    ensures |a + b| % 64 == 0 && Fold(f, st, a + b) == Fold(f, Fold(f, st, a), b)
    decreases |a|
  {
    if a == [] {
      assert a + b == b;
    } else {
      assert (a + b)[..64] == a[..64] && (a + b)[64..] == a[64..] + b;
      FoldAppend(f, f(st, a[..64]), a[64..], b);
    }
  }

  lemma FoldNone(f: Compress, st: Words)
    ensures Fold(f, st, []) == st
  {
  }

  lemma WholeIs(m: bytes, n: nat)
    requires n % 64 == 0 && n <= |m| < n + 64
    ensures Whole(m) == m[..n]
  {
  }

  lemma FoldOne(f: Compress, st: Words, block: bytes)
    requires |block| == 64
    ensures Fold(f, st, block) == f(st, block)
  {
    assert block[..64] == block && block[64..] == [];
  }

  // ---- the buffer --------------------------------------------------------------------------

  /** Contents of the 64-byte buffer after an update of `input` at fill level `index`. */
  function BufferAfter(buffer: bytes, index: nat, input: bytes): (r: bytes)
    requires |buffer| == 64 && index < 64
    ensures |r| == 64
  {
    var part := 64 - index;
    if |input| < part then buffer[..index] + input + buffer[index + |input|..]
    else
      var tail := Pending(input[part..]);
      tail + (buffer[..index] + input[..part])[|tail|..]
  }

  /** Fill level and rest stay right through an update. */
  lemma BufferHoldsPending(buffer: bytes, m: bytes, input: bytes)
    requires |buffer| == 64 && buffer[..|m| % 64] == Pending(m)
    ensures BufferAfter(buffer, |m| % 64, input)[..|m + input| % 64] == Pending(m + input)
  {
    var index, part, all := |m| % 64, 64 - |m| % 64, m + input;
    if |input| < part {
      assert |all| % 64 == index + |input|;
      assert Pending(all) == Pending(m) + input;
      assert BufferAfter(buffer, index, input)[..index + |input|] == buffer[..index] + input;
    } else {
      var rest := input[part..];
      PendingOfSuffix(m + input[..part], rest);
      assert m + input[..part] + rest == all;
      var tail := Pending(rest);
      assert |tail| == |all| % 64;
    }
  }

  lemma PendingOfSuffix(a: bytes, b: bytes)
    requires |a| % 64 == 0
    ensures Pending(a + b) == Pending(b) && Whole(a + b) == a + Whole(b) && |a + b| % 64 == |b| % 64
  {
    assert |a + b| % 64 == |b| % 64;
  }

  /** Words of the bit count: adding lengths with the carry rule of the source. */
  lemma CountAdd(total: nat, length: nat)
    requires length < WORD
    ensures
      var c0, c1 := 8 * total % WORD, 8 * total / WORD % WORD;
      var add := 8 * length % WORD;
      var n0 := (c0 + add) % WORD;
      var n1 := (c1 + (if n0 < add then 1 else 0) + length / 0x2000_0000) % WORD;
      n0 == 8 * (total + length) % WORD && n1 == 8 * (total + length) / WORD % WORD
  {
    var t, l := 8 * total, 8 * length;
    assert l / WORD == length / 0x2000_0000;
    AddSplit(t, l);
  }

  lemma AddSplit(t: nat, l: nat)
    ensures
      var add := l % WORD;
      var n0 := (t % WORD + add) % WORD;
      var carry := if n0 < add then 1 else 0;
      n0 == (t + l) % WORD && (t / WORD % WORD + carry + l / WORD) % WORD == (t + l) / WORD % WORD
  {
    var t0, t1, l0, l1 := t % WORD, t / WORD, l % WORD, l / WORD;
    var carry := if t0 + l0 >= WORD then 1 else 0;
    assert t + l == (t1 + l1 + carry) * WORD + (t0 + l0 - carry * WORD);
    DivisionOf(t1 + l1 + carry, t0 + l0 - carry * WORD, t + l);
    ModulusOf(t1, carry + l1);
  }

  lemma DivisionOf(q: nat, r: nat, n: nat)
    requires r < WORD && n == q * WORD + r
    ensures n / WORD == q && n % WORD == r
  {
  }

  lemma ModulusOf(a: nat, b: nat)
    ensures (a % WORD + b) % WORD == (a + b) % WORD
  {
    var q := a / WORD;
    assert a + b == (a % WORD + b) + q * WORD;
    Periodic(a % WORD + b, q);
  }

  lemma Periodic(n: nat, q: nat)
    ensures (n + q * WORD) % WORD == n % WORD
  {
    DivisionOf(n / WORD + q, n % WORD, n + q * WORD);
  }

  lemma IndexFromCount(length: nat)
    ensures 8 * length % WORD / 8 % 64 == length % 64
  {
    var k := 8 * length / WORD;
    assert 8 * length % WORD == 8 * (length - k * 0x2000_0000);
    assert (length - k * 0x2000_0000) % 64 == length % 64 by { SixtyFour(length - k * 0x2000_0000, k * 0x80_0000); }
  }

  lemma SixtyFour(n: nat, q: nat)
    ensures (n + q * 64) % 64 == n % 64
  {
  }

  // ---- the 32-bit loop index -----------------------------------------------------------------

  /** The index of the block loop after k rounds. */
  function IndexAfter(partLen: nat, k: nat): (i: nat) {
    if k == 0 then partLen else (IndexAfter(partLen, k - 1) + 64) % WORD
  }

  /** The guard i + 63 < length fails, the sum computed in 32 bits. */
  predicate LoopEnds(partLen: nat, k: nat, length: nat) {
    (IndexAfter(partLen, k) + 63) % WORD >= length
  }

  lemma {:induction false} IndexAligned(partLen: nat, k: nat)
    requires 1 <= partLen <= 64
    ensures IndexAfter(partLen, k) < WORD && (IndexAfter(partLen, k) + 64 - partLen) % 64 == 0
    ensures partLen + 64 * k < WORD ==> IndexAfter(partLen, k) == partLen + 64 * k
    decreases k
  {
    if k > 0 {
      IndexAligned(partLen, k - 1);
      var i := IndexAfter(partLen, k - 1);
      if i + 64 >= WORD { assert IndexAfter(partLen, k) == i + 64 - WORD; }
      SameRemainder(i + 64 - partLen);
    }
  }

  lemma SameRemainder(x: nat)
    requires x % 64 == 0
    ensures (x + 64) % 64 == 0 && (x + 64 >= WORD ==> (x + 64 - WORD) % 64 == 0)
  {
  }

  /**
   With at least one whole block to take, update leaves its block loop if and only if the bytes pending and the input
   are together fewer than 2^32; otherwise the 32-bit guard holds at every index and the call never returns.
   */
  lemma UpdateReturnsIff(partLen: nat, length: nat)
    requires 1 <= partLen <= 64 && partLen <= length
    ensures (exists k: nat :: LoopEnds(partLen, k, length)) <==> 64 - partLen + length < WORD
  {
    if 64 - partLen + length < WORD {
      var k := (length - partLen) / 64;
      IndexAligned(partLen, k);
      BelowWord(partLen + 64 * k, partLen, length);
      assert LoopEnds(partLen, k, length);
    } else {
      forall k: nat ensures !LoopEnds(partLen, k, length) {
        IndexAligned(partLen, k);
        GuardHolds(IndexAfter(partLen, k), partLen, length);
      }
    }
  }

  lemma BelowWord(i: nat, partLen: nat, length: nat)
    requires 1 <= partLen <= 64 && i <= length && 64 - partLen + length < WORD && (i + 64 - partLen) % 64 == 0
    ensures i + 63 < WORD
  {
  }

  lemma GuardHolds(i: nat, partLen: nat, length: nat)
    requires 1 <= partLen <= 64 && i < WORD && 64 - partLen + length >= WORD && (i + 64 - partLen) % 64 == 0
    ensures (i + 63) % WORD < length
  {
  }

  // ---- what final leaves behind ------------------------------------------------------------

  /** What the 64-byte buffer holds after `final` when the padding needed a second block. */
  function Clobber(m: bytes): (s: bytes)
    ensures |s| == 64
  {
    Zeros(56) + LengthField(m)
  }

  /**
   The message the object stands for after a digest: the same one when fewer than 56 bytes were pending, otherwise
   the one whose pending bytes are overwritten by the padding.
   */
  function Resumed(m: bytes): (r: bytes)
    ensures |r| == |m|
  {
    if |m| % 64 < 56 then m else Whole(m) + Clobber(m)[..|m| % 64]
  }

  /** A digest leaves the message intact exactly when under 56 bytes are pending or they equal the padding. */
  lemma ResumedUnchangedIff(m: bytes)
    ensures Resumed(m) == m <==> |m| % 64 < 56 || Pending(m) == Clobber(m)[..|m| % 64]
  {
    assert m == Whole(m) + Pending(m);
    if |m| % 64 >= 56 && Resumed(m) == m {
      assert Pending(m) == Resumed(m)[|m| - |m| % 64..] == Clobber(m)[..|m| % 64];
    }
  }

  lemma ResumedParts(m: bytes)
    ensures Whole(Resumed(m)) == Whole(m)
    ensures Pending(Resumed(m)) == if |m| % 64 < 56 then Pending(m) else Clobber(m)[..|m| % 64]
  {
  }

  /** The padding the source passes to update: a prefix of one 0x80 byte and 63 zeros. */
  const PADDING: bytes := [0x80] + Zeros(63)

  lemma PaddingPrefix(length: nat)
    ensures
      var index := length % 64;
      var padLen := if index < 56 then 56 - index else 120 - index;
      padLen <= 64 && PADDING[..padLen] == Padding(length)
  {
  }

  lemma PaddedLengths(m: bytes)
    ensures |m + Padding(|m|)| % 64 == 56 && Padded(m) == m + Padding(|m|) + LengthField(m)
    ensures Whole(Padded(m)) == Padded(m)
  {
    assert Padded(m)[..|Padded(m)|] == Padded(m);
  }

  /** Buffer contents after the two updates of final. */
  lemma FinalBuffer(buffer: bytes, m: bytes)
    requires |buffer| == 64 && buffer[..|m| % 64] == Pending(m)
    ensures
      var b1 := BufferAfter(buffer, |m| % 64, Padding(|m|));
      var b2 := BufferAfter(b1, 56, LengthField(m));
      b2[..|m| % 64] == Pending(Resumed(m))
  {
    hide BufferAfter, Padding, LengthField, Resumed, Pending;
    var index := |m| % 64;
    PaddedBuffer(buffer, index, |m|);
    BitsFillBlock(BufferAfter(buffer, index, Padding(|m|)), LengthField(m));
    ResumedParts(m);
  }

  /** The padding leaves the front of the buffer alone, or overwrites it with zeros. */
  lemma PaddedBuffer(buffer: bytes, index: nat, length: nat)
    requires |buffer| == 64 && index == length % 64
    ensures
      var b := BufferAfter(buffer, index, Padding(length));
      if index < 56 then b[..index] == buffer[..index] else b[..56] == Zeros(56)
  {
    var pad := Padding(length);
    if index >= 56 {
      var rest := pad[64 - index..];
      assert rest == Zeros(56);
      WholeIs(rest, 0);
      assert Pending(rest) == rest;
    }
  }

  lemma BitsFillBlock(buffer: bytes, bits: bytes)
    requires |buffer| == 64 && |bits| == 8
    ensures BufferAfter(buffer, 56, bits) == buffer[..56] + bits
  {
    assert bits[8..] == [] && bits[..8] == bits;
    assert Pending(bits[8..]) == [];
  }

  /** State of the compression after an update. */
  lemma FoldUpdate(f: Compress, m: bytes, input: bytes)
    ensures
      var part := 64 - |m| % 64;
      Fold(f, INIT, Whole(m + input)) ==
      if |input| < part then Fold(f, INIT, Whole(m))
      else Fold(f, f(Fold(f, INIT, Whole(m)), Pending(m) + input[..part]), Whole(input[part..]))
  {
    var part := 64 - |m| % 64;
    assert m == Whole(m) + Pending(m);
    if |input| < part {
      assert Whole(m + input) == Whole(m);
    } else {
      var first := m + input[..part];
      var block := Pending(m) + input[..part];
      assert first == Whole(m) + block;
      assert m + input == first + input[part..];
      PendingOfSuffix(first, input[part..]);
      FoldAppend(f, INIT, first, Whole(input[part..]));
      FoldAppend(f, INIT, Whole(m), block);
      FoldOne(f, Fold(f, INIT, Whole(m)), block);
    }
  }

  // ---- the object ----------------------------------------------------------------------------

  class MD5 {
    const transform: Compress
    var state: Words
    var count0: nat
    var count1: nat
    const buffer: array<byte>
    var digest: bytes
    var finished: bool

    /** The object has absorbed message m, and the next digest will be computed. */
    ghost predicate Absorbed(m: bytes)
      reads this, buffer
    {
      Loaded(m) && !finished
    }

    ghost predicate Loaded(m: bytes)
      reads this, buffer
    {
      && buffer.Length == 64
      && count0 == 8 * |m| % WORD && count1 == 8 * |m| / WORD % WORD
      && state == Fold(transform, INIT, Whole(m))
      && buffer[..|m| % 64] == Pending(m)
    }

    constructor (transform: Compress)
      ensures this.transform == transform && fresh(buffer) && Absorbed([])
    {
      this.transform := transform;
      buffer := new byte[64](_ => 0);
      state, count0, count1, digest, finished := INIT, 0, 0, Zeros(16), false;
    }

    /** The two-word count of update: the carry is seen from the low word having become smaller. */
    method AddBits(length: nat, ghost total: nat)
      requires length < WORD && count0 == 8 * total % WORD && count1 == 8 * total / WORD % WORD
      modifies this`count0, this`count1
      ensures count0 == 8 * (total + length) % WORD && count1 == 8 * (total + length) / WORD % WORD
    {
      CountAdd(total, length);
      var add := 8 * length % WORD;
      count0 := (count0 + add) % WORD;
      var carry := if count0 < add then 1 else 0;
      ModulusOf(count1 + carry, length / 0x2000_0000);
      count1 := (count1 + carry) % WORD;
      count1 := (count1 + length / 0x2000_0000) % WORD;
    }

    /** update: the two-word count, the partial block, the whole blocks, the rest. */
    method Update(input: bytes, ghost m: bytes)
      requires Loaded(m) && |m| % 64 + |input| < WORD
      modifies this`state, this`count0, this`count1, this`finished, buffer
      ensures Absorbed(m + input)
      ensures buffer[..] == BufferAfter(old(buffer[..]), |m| % 64, input)
    {
      hide Fold, BufferAfter, Whole, Pending;
      finished := false;
      IndexFromCount(|m|);
      var index := count0 / 8 % 64;
      AddBits(|input|, |m|);
      Absorb(input, index, m);
      BufferHoldsPending(old(buffer[..]), m, input);
      assert buffer[..|m + input| % 64] == buffer[..][..|m + input| % 64];
    }

    /** The block part of update. */
    method Absorb(input: bytes, index: nat, ghost m: bytes)
      requires buffer.Length == 64 && index == |m| % 64 && index + |input| < WORD
      requires state == Fold(transform, INIT, Whole(m)) && buffer[..index] == Pending(m)
      modifies this`state, buffer
      ensures state == Fold(transform, INIT, Whole(m + input))
      ensures buffer[..] == BufferAfter(old(buffer[..]), index, input)
    {
      var partLen := 64 - index;
      FoldUpdate(transform, m, input);
      if |input| >= partLen {
        CopyIn(buffer, index, input[..partLen]);
        ghost var first := buffer[..];
        assert first == old(buffer[..])[..index] + input[..partLen];
        state := transform(state, buffer[..]);
        var i := TransformBlocks(input, partLen);
        ghost var rest := input[partLen..];
        assert input[i..] == Pending(rest);
        CopyIn(buffer, 0, input[i..]);
        assert buffer[..] == Pending(rest) + first[|Pending(rest)|..];
      } else {
        CopyIn(buffer, index, input);
      }
    }

    /** The loop over whole blocks of the input; i + 63 stays below 2^32. */
    method TransformBlocks(input: bytes, partLen: nat) returns (i: nat)
      requires 1 <= partLen <= 64 && partLen <= |input| && 64 - partLen + |input| < WORD
      modifies this`state
      ensures partLen <= i <= |input| && i == partLen + |Whole(input[partLen..])|
      ensures state == Fold(transform, old(state), Whole(input[partLen..]))
    {
      hide Fold, Whole;
      ghost var rest := input[partLen..];
      i := partLen;
      assert rest[..0] == [];
      FoldNone(transform, state);
      while i + 63 < |input|
        invariant partLen <= i <= |input| && (i - partLen) % 64 == 0
        invariant state == Fold(transform, old(state), rest[..i - partLen])
        invariant i + 63 < WORD
      {
        ghost var done := rest[..i - partLen];
        var block := input[i..i + 64];
        FoldAppend(transform, old(state), done, block);
        FoldOne(transform, state, block);
        assert rest[..i + 64 - partLen] == done + block;
        SameRemainder(i - partLen);
        state := transform(state, block);
        i := i + 64;
      }
      WholeIs(rest, i - partLen);
    }

    /** final: pad, append the length, store the state, restore state and count; the buffer is not restored. */
    method Final(ghost m: bytes)
      requires Loaded(m)
      modifies this, buffer
      ensures digest == Digest(transform, m)
      ensures Absorbed(Resumed(m))
    {
      hide Fold, BufferAfter, Whole, Pending, Resumed;
      var oldState, old0, old1 := state, count0, count1;
      var bits := Word(count0) + Word(count1);
      IndexFromCount(|m|);
      var index := count0 / 8 % 64;
      var padLen := if index < 56 then 56 - index else 120 - index;
      PaddingPrefix(|m|);
      PaddedLengths(m);
      Update(PADDING[..padLen], m);
      Update(bits, m + Padding(|m|));
      digest := Output(state);
      state, count0, count1 := oldState, old0, old1;
      FinalBuffer(old(buffer[..]), m);
      ResumedParts(m);
      assert buffer[..|m| % 64] == buffer[..][..|m| % 64];
    }

    /** digest: computed afresh each time, because the updates inside final clear the finished flag. */
    method GetDigest(ghost m: bytes) returns (d: bytes)
      requires Absorbed(m)
      modifies this, buffer
      ensures d == Digest(transform, m)
      ensures Absorbed(Resumed(m))
    {
      if !finished {
        finished := true;
        Final(m);
      }
      d := digest;
    }
  }

  lemma NoChunks(chunks: seq<bytes>)
    ensures chunks[..0] == [] && Concat(chunks[..0]) == []
  {
  }

  /** The condition of UpdateReturnsIff for the i-th update. */
  predicate UpdateReturns(chunks: seq<bytes>, i: nat)
    requires i < |chunks|
  {
    |Concat(chunks[..i])| % 64 + |chunks[i]| < WORD
  }

  /** However a message is cut into updates, the first digest is the one-shot digest of the whole. */
  method DigestOfChunks(transform: Compress, chunks: seq<bytes>) returns (d: bytes)
    requires forall i :: 0 <= i < |chunks| ==> UpdateReturns(chunks, i)
    ensures d == Digest(transform, Concat(chunks))
  {
    hide Fold, Digest, Concat, Whole, Pending;
    var md5 := new MD5(transform);
    NoChunks(chunks);
    var i := 0;
    while i < |chunks|
      invariant 0 <= i <= |chunks| && fresh(md5) && fresh(md5.buffer) && md5.transform == transform
      invariant md5.Absorbed(Concat(chunks[..i]))
    {
      assert UpdateReturns(chunks, i);
      md5.Update(chunks[i], Concat(chunks[..i]));
      assert chunks[..i + 1] == chunks[..i] + [chunks[i]];
      ConcatSnoc(chunks[..i], chunks[i]);
      i := i + 1;
    }
    assert chunks[..i] == chunks;
    d := md5.GetDigest(Concat(chunks));
  }

  /**
   Reading the digest, feeding more and reading again: the second digest is that of the resumed message and the rest.
   */
  method DigestResumed(transform: Compress, message: bytes, more: bytes) returns (first: bytes, second: bytes)
    requires |message| < WORD && |message| % 64 + |more| < WORD
    ensures first == Digest(transform, message)
    ensures second == Digest(transform, Resumed(message) + more)
  {
    hide Fold, Digest, Resumed;
    var md5 := new MD5(transform);
    assert [] + message == message;
    md5.Update(message, []);
    first := md5.GetDigest(message);
    md5.Update(more, Resumed(message));
    second := md5.GetDigest(Resumed(message) + more);
  }

  /** With under 56 bytes pending the digest can be read again or the message continued. */
  lemma ResumableWhenShort(transform: Compress, message: bytes, more: bytes)
    requires |message| % 64 < 56
    ensures Digest(transform, Resumed(message) + more) == Digest(transform, message + more)
  {
  }

  /** A compression that adds up the first bytes of the blocks. */
  function SumFirst(st: Words, block: bytes): (r: Words) {
    Words((st.a + (if block == [] then 0 else block[0])) % WORD, st.b, st.c, st.d)
  }

  /** A message of 56 ones is no longer intact, whatever the compression; for this one the second digest differs. */
  lemma RereadCanDiffer()
    ensures var m := seq(56, _ => 1); Resumed(m) != m && Digest(SumFirst, Resumed(m)) != Digest(SumFirst, m)
  {
    var m: bytes := seq(56, _ => 1);
    var r := Resumed(m);
    OverwrittenFront(m);
    hide Resumed, Fold, Padded;
    TwoBlocks(m);
    TwoBlocks(r);
    var a, b := Fold(SumFirst, INIT, Padded(m)), Fold(SumFirst, INIT, Padded(r));
    assert a.a == 0x67452302 && b.a == 0x67452301;
    assert Output(a)[0] == 2 && Output(b)[0] == 1;
  }

  lemma OverwrittenFront(m: bytes)
    requires |m| == 56
    ensures Resumed(m)[0] == 0
  {
    assert Resumed(m) == Whole(m) + Clobber(m)[..56];
    assert Whole(m) == [];
  }

  lemma TwoBlocks(m: bytes)
    requires |m| == 56
    ensures Fold(SumFirst, INIT, Padded(m)) == Words((0x67452301 + m[0]) % WORD, INIT.b, INIT.c, INIT.d)
  {
    var p := Padded(m);
    assert p == m + Padding(56) + LengthField(m) && |p| == 128;
    var first, second := p[..64], p[64..];
    assert first[0] == m[0] && second[0] == p[64] == 0;
    assert p == first + second;
    FoldAppend(SumFirst, INIT, first, second);
    FoldOne(SumFirst, INIT, first);
    FoldOne(SumFirst, SumFirst(INIT, first), second);
  }
}
