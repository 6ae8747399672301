/**
 Value trees of the JSON library (newJson/jsoncpp.cpp, class Value), without comments and offsets.
 An object is the ordered map of the source: members in strictly increasing name order.
 */
module JsonValue {
  import opened Bytes

  datatype Member = Member(name: bytes, value: Value)

  /** A double is carried as its 64-bit image; what text denotes which double is a parameter of the reader. */
  datatype Value =
    | Null
    | Bool(b: bool)
    | Int(i: int)
    | UInt(u: nat)
    | Real(image: nat)
    | Str(s: bytes)
    | Arr(items: seq<Value>)
    | Obj(members: seq<Member>)

  /** CZString::operator<: byte-wise comparison, a proper prefix first. */
  predicate Less(a: bytes, b: bytes) {
    if b == [] then false
    else if a == [] then true
    else if a[0] != b[0] then a[0] < b[0]
    else Less(a[1..], b[1..])
  }

  /** Up to here the two agree, and here the first ends or has the smaller byte. */
  predicate DecidedAt(a: bytes, b: bytes, k: nat) {
    k <= |a| && k < |b| && a[..k] == b[..k] && (k == |a| || a[k] < b[k])
  }

  /** The first differing byte decides, and a proper prefix comes first. */
  lemma {:induction false} LessIff(a: bytes, b: bytes)
    ensures Less(a, b) <==> exists k: nat :: DecidedAt(a, b, k)
  {
    if a == [] && b != [] { assert DecidedAt(a, b, 0); }
    if a != [] && b != [] && a[0] < b[0] { assert DecidedAt(a, b, 0); }
    if a != [] && b != [] && a[0] == b[0] {
      LessIff(a[1..], b[1..]);
      if k: nat :| DecidedAt(a[1..], b[1..], k) { DecidedLater(a, b, k); }
      if k: nat :| DecidedAt(a, b, k) { DecidedEarlier(a, b, k); }
    } else if k: nat :| DecidedAt(a, b, k) {
      if k > 0 { assert a[..k][0] == b[..k][0]; }
    }
  }

  lemma DecidedLater(a: bytes, b: bytes, k: nat)
    requires a != [] && b != [] && a[0] == b[0] && DecidedAt(a[1..], b[1..], k)
    ensures DecidedAt(a, b, k + 1)
  {
    assert a[..k + 1] == [a[0]] + a[1..][..k] && b[..k + 1] == [b[0]] + b[1..][..k];
  }

  lemma DecidedEarlier(a: bytes, b: bytes, k: nat)
    requires a != [] && b != [] && a[0] == b[0] && DecidedAt(a, b, k)
    ensures k > 0 && DecidedAt(a[1..], b[1..], k - 1)
  {
    assert a[1..][..k - 1] == a[..k][1..] && b[1..][..k - 1] == b[..k][1..];
  }

  lemma {:induction false} LessTotal(a: bytes, b: bytes)
    ensures a == b || Less(a, b) || Less(b, a)
  {
    if a != [] && b != [] && a[0] == b[0] {
      LessTotal(a[1..], b[1..]);
      if a[1..] == b[1..] { assert a == [a[0]] + a[1..] == b; }
    }
  }

  lemma {:induction false} LessIrreflexive(a: bytes)
    ensures !Less(a, a)
  {
    if a != [] { LessIrreflexive(a[1..]); }
  }

  lemma {:induction false} LessTransitive(a: bytes, b: bytes, c: bytes)
    requires Less(a, b) && Less(b, c)
    ensures Less(a, c)
  {
    if a != [] && a[0] == b[0] && b[0] == c[0] {
      LessTransitive(a[1..], b[1..], c[1..]);
    }
  }

  /** Members in strictly increasing name order: what std::map holds. */
  predicate Sorted(ms: seq<Member>) {
    forall i, j :: 0 <= i < j < |ms| ==> Less(ms[i].name, ms[j].name)
  }

  /** operator[] followed by an assignment: replace the member of that name or insert it in order. */
  function Put(ms: seq<Member>, name: bytes, v: Value): (r: seq<Member>) {
    if ms == [] then [Member(name, v)]
    else if ms[0].name == name then [Member(name, v)] + ms[1..]
    else if Less(name, ms[0].name) then [Member(name, v)] + ms
    else [ms[0]] + Put(ms[1..], name, v)
  }

  /** What operator[] finds before the assignment: the present member, or null. */
  function Lookup(ms: seq<Member>, name: bytes): (v: Value) {
    if ms == [] then Null
    else if ms[0].name == name then ms[0].value
    else Lookup(ms[1..], name)
  }

  /** The first member of a name is found, and null where there is none. */
  lemma {:induction false} LookupFinds(ms: seq<Member>, name: bytes, i: nat)
    requires i <= |ms| && forall j :: 0 <= j < i ==> ms[j].name != name
    ensures i == |ms| ==> Lookup(ms, name) == Null
    ensures i < |ms| && ms[i].name == name ==> Lookup(ms, name) == ms[i].value
    decreases |ms|
  {
    if i > 0 {
      assert ms[0].name != name;
      assert forall j :: 0 <= j < i - 1 ==> ms[1..][j] == ms[j + 1];
      LookupFinds(ms[1..], name, i - 1);
    }
  }

  predicate AllAbove(low: bytes, ms: seq<Member>) {
    forall m <- ms :: Less(low, m.name)
  }

  /** The new name stays above whatever is below both it and the members it joins. */
  lemma {:induction false} PutBounded(ms: seq<Member>, name: bytes, v: Value, low: bytes)
    requires Less(low, name) && AllAbove(low, ms)
    ensures AllAbove(low, Put(ms, name, v))
  {
    if ms != [] && ms[0].name != name && !Less(name, ms[0].name) {
      PutBounded(ms[1..], name, v, low);
    }
  }

  /** Put keeps the map order and changes one entry: the named one holds the value, every other one is as before. */
  lemma {:induction false} PutIsMapUpdate(ms: seq<Member>, name: bytes, v: Value)
    requires Sorted(ms)
    ensures Sorted(Put(ms, name, v))
    ensures Lookup(Put(ms, name, v), name) == v
    ensures forall other :: other != name ==> Lookup(Put(ms, name, v), other) == Lookup(ms, other)
  {
    if ms != [] {
      var head, rest := ms[0], ms[1..];
      if head.name == name {
        assert Put(ms, name, v)[1..] == rest;
      } else if Less(name, head.name) {
        forall i | 0 <= i < |ms| ensures Less(name, ms[i].name) {
          if i > 0 { LessTransitive(name, head.name, ms[i].name); }
        }
        assert Put(ms, name, v)[1..] == ms;
      } else {
        LessTotal(name, head.name);
        PutIsMapUpdate(rest, name, v);
        PutBounded(rest, name, v, head.name);
        assert Put(ms, name, v)[1..] == Put(rest, name, v);
      }
    }
  }

  /** A name above all present ones goes to the end. */
  lemma {:induction false} PutAtEnd(ms: seq<Member>, name: bytes, v: Value)
    requires forall i :: 0 <= i < |ms| ==> Less(ms[i].name, name)
    ensures Put(ms, name, v) == ms + [Member(name, v)]
  {
    if ms != [] {
      var head := ms[0].name;
      assert Less(head, name);
      LessIrreflexive(name);
      if Less(name, head) { LessTransitive(name, head, name); }
      PutAtEnd(ms[1..], name, v);
      assert ms == [ms[0]] + ms[1..];
    }
  }

  function Max(a: nat, b: nat): (m: nat) { if a < b then b else a }

  /** Number of levels: a scalar or an empty container is one level. */
  function Depth(v: Value): (d: nat)
    ensures d >= 1
  {
    match v
    case Arr(items) => 1 + ItemsDepth(items)
    case Obj(members) => 1 + MembersDepth(members)
    case _ => 1
  }

  function ItemsDepth(items: seq<Value>): (d: nat) {
    if items == [] then 0 else Max(Depth(items[0]), ItemsDepth(items[1..]))
  }

  function MembersDepth(ms: seq<Member>): (d: nat) {
    if ms == [] then 0 else Max(Depth(ms[0].value), MembersDepth(ms[1..]))
  }

  /** What a Value can hold: 64-bit integers, and names whose length fits 30 bits. */
  predicate Holds(v: Value) {
    match v
    case Int(i) => -0x8000_0000_0000_0000 <= i <= 0x7fff_ffff_ffff_ffff
    case UInt(u) => u <= 0xffff_ffff_ffff_ffff
    case Arr(items) => forall k :: 0 <= k < |items| ==> Holds(items[k])
    case Obj(ms) => forall k :: 0 <= k < |ms| ==> |ms[k].name| < 0x4000_0000 && Holds(ms[k].value)
    case _ => true
  }
}
