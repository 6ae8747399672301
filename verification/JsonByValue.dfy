/**
 The round trip with integers compared by their number, as a reader of values sees them: which of the two 64-bit tags
 an integer carries is then no difference, and only the text of strings and names decides.
 */
module JsonByValue {
  import opened Bytes
  import opened JsonValue
  import opened JsonText
  import opened JsonReader
  import opened JsonWriter
  import opened JsonRoundTrip

  predicate IsInteger(v: Value) { v.Int? || v.UInt? }

  function NumberOf(v: Value): (n: int)
    requires IsInteger(v)
  {
    if v.Int? then v.i else v.u
  }

  /** Equal trees, integers compared by number. */
  predicate Same(a: Value, b: Value)
    decreases b
  {
    if IsInteger(a) && IsInteger(b) then NumberOf(a) == NumberOf(b)
    else if a.Arr? && b.Arr? then
      |a.items| == |b.items| && forall k :: 0 <= k < |b.items| ==> Same(a.items[k], b.items[k])
    else if a.Obj? && b.Obj? then
      && |a.members| == |b.members|
      && forall k :: 0 <= k < |b.members| ==>
           a.members[k].name == b.members[k].name && Same(a.members[k].value, b.members[k].value)
    else a == b
  }

  /** All strings and names are well-formed UTF-8. */
  predicate TextsWellFormed(v: Value) {
    match v
    case Str(s) => WellFormed(s)
    case Arr(items) => forall k :: 0 <= k < |items| ==> TextsWellFormed(items[k])
    case Obj(ms) => forall k :: 0 <= k < |ms| ==> WellFormed(ms[k].name) && TextsWellFormed(ms[k].value)
    case _ => true
  }

  /** The tree that comes back is the same one, up to integer tags, exactly when its texts are well formed. */
  lemma {:induction false} BackSameIff(toDouble: bytes -> Option<nat>, fmt: nat -> bytes, v: Value)
    requires Writable(toDouble, fmt, v)
    ensures Same(Back(v), v) <==> TextsWellFormed(v)
    decreases v
  {
    hide Reread, WellFormed, GoodReal, BackMembers, BackItems, Sorted;
    match v
    case Str(s) => RereadUnchangedIff(s);
    case Arr(items) =>
      forall k | 0 <= k < |items|
        ensures BackItems(items)[k] == Back(items[k]) && (Same(Back(items[k]), items[k]) <==> TextsWellFormed(items[k]))
      {
        BackItemsAt(items, k);
        BackSameIff(toDouble, fmt, items[k]);
      }
    case Obj(ms) =>
      forall k | 0 <= k < |ms| ensures Same(Back(ms[k].value), ms[k].value) <==> TextsWellFormed(ms[k].value) {
        BackSameIff(toDouble, fmt, ms[k].value);
      }
      ObjectSameIff(ms);
    case _ =>
  }

  lemma ObjectSameIff(ms: seq<Member>)
    requires Sorted(ms)
    requires forall k :: 0 <= k < |ms| ==> (Same(Back(ms[k].value), ms[k].value) <==> TextsWellFormed(ms[k].value))
    ensures Same(Back(Obj(ms)), Obj(ms)) <==> TextsWellFormed(Obj(ms))
  {
    hide BackMembers, WellFormed, Less, Sorted;
    var r := BackMembers([], ms);
    assert Back(Obj(ms)) == Obj(r);
    BackNames([], ms);
    hide Back;
    if WellNamed(ms) {
      BackWellNamed([], ms);
      assert forall k :: 0 <= k < |ms| ==> r[k] == Member(ms[k].name, Back(ms[k].value));
    }
  }

  /**
   parse(toStyledString(v)) succeeds and gives v back, integers compared by number, exactly when v is at most 1000
   levels deep and its strings and names are well-formed UTF-8.
   */
  lemma StyledRoundTripByValueIff(toDouble: bytes -> Option<nat>, fmt: nat -> bytes, v: Value, root: Value)
    requires Writable(toDouble, fmt, v)
    ensures
      var r := Parse(Source(ToStyledString(fmt, v), toDouble), root);
      (r.Done? && r.ok && Same(r.value, v)) <==> (Depth(v) <= 1000 && TextsWellFormed(v))
  {
    hide Writable, Parse, Back, TextsWellFormed, Depth, Same;
    ParseOfStyled(toDouble, fmt, v, root);
    BackSameIff(toDouble, fmt, v);
  }
}
