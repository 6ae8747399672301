/** Fixed-width integers as bytes, most or least significant byte first (net/Endian.h and the host order of x86-64). */
module Endian {
  import opened Bytes

  function Pow256(w: nat): (p: nat)
    ensures p > 0
  {
    if w == 0 then 1 else 256 * Pow256(w - 1)
  }

  /** Network order. */
  function Big(n: nat, w: nat): (s: bytes)
    ensures |s| == w
  {
    if w == 0 then [] else Big(n / 256, w - 1) + [n % 256]
  }

  function BigValue(s: bytes): (n: nat) {
    if s == [] then 0 else BigValue(s[..|s| - 1]) * 256 + s[|s| - 1]
  }

  /** Host order. */
  function Little(n: nat, w: nat): (s: bytes)
    ensures |s| == w
  {
    if w == 0 then [] else [n % 256] + Little(n / 256, w - 1)
  }

  function LittleValue(s: bytes): (n: nat) {
    if s == [] then 0 else s[0] + 256 * LittleValue(s[1..])
  }

  lemma {:induction false} BigValueOfBig(n: nat, w: nat)
    requires n < Pow256(w)
    ensures BigValue(Big(n, w)) == n
  {
    if w > 0 {
      BigValueOfBig(n / 256, w - 1);
      assert Big(n, w)[..w - 1] == Big(n / 256, w - 1);
    }
  }

  lemma {:induction false} LittleValueOfLittle(n: nat, w: nat)
    requires n < Pow256(w)
    ensures LittleValue(Little(n, w)) == n
  {
    if w > 0 {
      LittleValueOfLittle(n / 256, w - 1);
      assert Little(n, w)[1..] == Little(n / 256, w - 1);
    }
  }

  /** More than w bytes are cut off at the top. */
  lemma {:induction false} LittleWraps(n: nat, w: nat)
    ensures LittleValue(Little(n, w)) == n % Pow256(w)
  {
    if w > 0 {
      LittleWraps(n / 256, w - 1);
      assert Little(n, w)[1..] == Little(n / 256, w - 1);
      LowByteFirst(n, Pow256(w - 1));
    }
  }

  lemma LowByteFirst(n: nat, p: nat)
    requires p > 0
    ensures n % (256 * p) == n % 256 + 256 * (n / 256 % p)
  {
    var q, r := n / 256 / p, n / 256 % p;
    assert n / 256 == q * p + r;
    var low := n % 256 + 256 * r;
    assert n == q * (256 * p) + low;
    assert 0 <= low < 256 * p;
    Remainder(q, 256 * p, low, n);
  }

  lemma Remainder(q: nat, m: nat, low: nat, n: nat)
    requires low < m && n == q * m + low
    ensures n % m == low
  {
    var k := n / m;
    assert n == k * m + n % m;
    Times(k + 1, q, m);
    Times(q + 1, k, m);
  }

  lemma Times(a: nat, b: nat, m: nat)
    ensures a <= b ==> a * m <= b * m
  {
  }

  lemma {:induction false} LittleJoin(s: bytes, t: bytes)
    ensures LittleValue(s + t) == LittleValue(s) + Pow256(|s|) * LittleValue(t)
    decreases |s|
  {
    if s == [] {
      assert s + t == t;
    } else {
      assert (s + t)[1..] == s[1..] + t;
      LittleJoin(s[1..], t);
      var p, v, low := Pow256(|s| - 1), LittleValue(t), LittleValue(s[1..]);
      assert LittleValue(s + t) == s[0] + 256 * (low + p * v);
      assert Pow256(|s|) == 256 * p && LittleValue(s) == s[0] + 256 * low;
      Regroup(p, v);
    }
  }

  lemma Regroup(p: nat, v: nat)
    ensures 256 * (p * v) == (256 * p) * v
  {
  }

  lemma LowByte(low: byte, rest: nat)
    ensures (low + 256 * rest) % 256 == low && (low + 256 * rest) / 256 == rest
  {
  }

  lemma {:induction false} LittleOfLittleValue(s: bytes)
    ensures Little(LittleValue(s), |s|) == s
  {
    if s != [] {
      var low, rest := s[0], LittleValue(s[1..]);
      LittleOfLittleValue(s[1..]);
      assert LittleValue(s) == low + 256 * rest;
      LowByte(low, rest);
      assert s == [low] + s[1..];
    }
  }

  lemma {:induction false} BigValueBound(s: bytes)
    ensures BigValue(s) < Pow256(|s|)
  {
    if s != [] { BigValueBound(s[..|s| - 1]); }
  }

  lemma {:induction false} LittleValueBound(s: bytes)
    ensures LittleValue(s) < Pow256(|s|)
  {
    if s != [] { LittleValueBound(s[1..]); }
  }

  function Reverse(s: bytes): (r: bytes)
    ensures |r| == |s|
  {
    if s == [] then [] else Reverse(s[1..]) + [s[0]]
  }

  lemma {:induction false} ReverseAt(s: bytes, k: nat)
    requires k < |s|
    ensures Reverse(s)[k] == s[|s| - 1 - k]
  {
    if k < |s| - 1 { ReverseAt(s[1..], k); }
  }

  /** Reading reversed bytes in host order is reading them in network order. */
  lemma {:induction false} LittleOfReverse(s: bytes)
    ensures LittleValue(Reverse(s)) == BigValue(s)
  {
    if s != [] {
      var k := |s| - 1;
      LittleOfReverse(s[..k]);
      assert Reverse(s) == [s[k]] + Reverse(s[..k]) by {
        forall i | 0 <= i < |s| ensures Reverse(s)[i] == ([s[k]] + Reverse(s[..k]))[i] {
          ReverseAt(s, i);
          if i > 0 { ReverseAt(s[..k], i - 1); }
        }
      }
      assert Reverse(s)[1..] == Reverse(s[..k]);
    }
  }

  /** The range of a signed integer of w bytes. */
  predicate FitsSigned(x: int, w: nat) {
    var p: int := Pow256(w);
    -p <= 2 * x < p
  }

  /** Two's complement in w bytes. */
  function ToUnsigned(x: int, w: nat): (n: nat)
    requires FitsSigned(x, w)
    ensures n < Pow256(w)
  {
    if x < 0 then x + Pow256(w) else x
  }

  function ToSigned(n: nat, w: nat): (x: int)
    ensures n < Pow256(w) ==> FitsSigned(x, w)
  {
    var p: int := Pow256(w);
    if 2 * n >= p then n - p else n
  }

  lemma SignedOfUnsigned(x: int, w: nat)
    requires FitsSigned(x, w)
    ensures ToSigned(ToUnsigned(x, w), w) == x
  {
  }

  lemma Pow256Of4()
    ensures Pow256(4) == 0x1_0000_0000
  {
    assert Pow256(2) == 65536;
  }

  const WORD: nat := 0x1_0000_0000

  /** A 32-bit int after overflow. */
  function Wrap32(x: int): (r: int)
    ensures -0x8000_0000 <= r < 0x8000_0000
    ensures 0 <= x < 0x8000_0000 ==> r == x
    ensures 0 <= x ==> r <= x
  {
    var m := x % WORD;
    if m < 0x8000_0000 then m else m - WORD
  }
}
