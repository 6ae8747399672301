/**
 Double-buffered logging (base/AsyncLogging.cc) over fixed-size buffers (base/LogStream.h). Callers append lines
 under the mutex; the logging thread swaps the filled buffers out, writes them and recycles two of them.
 Each critical section is one step; a step whose assertion fails aborts.
 */
module AsyncLogging {
  import opened Bytes

  /** kLargeBuffer */
  const SIZE: nat := 4_000_000

  /** Batches above this length are cut to two buffers. */
  const MAX_BATCH: nat := 25

  // ---- the fixed buffer ------------------------------------------------------------------

  /** FixedBuffer::append: all of the text when strictly more than its length is free, else nothing. */
  function Filled(contents: bytes, capacity: nat, text: bytes): (r: bytes) {
    if capacity - |contents| > |text| then contents + text else contents
  }

  class FixedBuffer {
    const data: array<byte>
    var cur: nat

    ghost predicate Valid()
      reads this
    {
      cur <= data.Length
    }

    ghost function Contents(): (s: bytes)
      requires Valid()
      reads this, data
    {
      data[..cur]
    }

    constructor (size: nat)
      ensures Valid() && fresh(data) && data.Length == size && Contents() == []
    {
      data := new byte[size](_ => 0);
      cur := 0;
    }

    method Avail() returns (n: nat)
      requires Valid()
      ensures n == data.Length - |Contents()|
    {
      n := data.Length - cur;
    }

    method Append(text: bytes)
      requires Valid()
      modifies this`cur, data
      ensures Valid() && Contents() == Filled(old(Contents()), data.Length, text)
    {
      var avail := Avail();
      if avail > |text| {
        ghost var before := data[..];
        CopyIn(data, cur, text);
        assert data[..cur + |text|] == data[..][..cur + |text|] == before[..cur] + text;
        cur := cur + |text|;
      }
    }

    method Reset()
      modifies this`cur
      ensures Valid() && Contents() == []
    {
      cur := 0;
    }
  }

  // ---- the state -------------------------------------------------------------------------

  /** What the log file receives: buffer contents, and notices about dropped buffers. */
  datatype Entry = Data(text: bytes) | Notice(dropped: nat)

  /** Where the logging thread is, with the buffers it owns. */
  datatype Thread =
    | Top(spare1: Option<bytes>, spare2: Option<bytes>)     // at the test of running_
    | Entered(spare1: Option<bytes>, spare2: Option<bytes>) // past the test: before the mutex, or waiting inside it
    | Swapped(batch: seq<bytes>, left1: Option<bytes>, left2: Option<bytes>)
    | Writing(kept: seq<bytes>, written: nat, held1: Option<bytes>, held2: Option<bytes>)
    | Ended
    | Aborted

  /**
   `appended` is the concatenation of all lines given to append, `lost` counts bytes that were in no buffer or
   in a dropped one.
   */
  datatype State = State(
    current: bytes,
    next: Option<bytes>,
    buffers: seq<bytes>,
    running: bool,
    thread: Thread,
    output: seq<Entry>,
    appended: bytes,
    lost: nat)

  const Initial := State([], Some([]), [], true, Top(Some([]), Some([])), [], [], 0)

  datatype Step =
    | Append(line: bytes)  // any caller, under the mutex
    | Stop                 // running_ becomes false
    | Enter                // running_ is found true
    | Swap                 // the thread's critical section after the timed wait, also when stop() came in between
    | Trim                 // the test on the batch length
    | WriteOne
    | Recycle
    | End                  // running_ is found false

  predicate Enabled(s: State, step: Step) {
    match step
    case Append(_) => true
    case Stop => true
    case Enter => s.thread.Top? && s.running
    case Swap => s.thread.Entered?
    case Trim => s.thread.Swapped?
    case WriteOne => s.thread.Writing? && s.thread.written < |s.thread.kept|
    case Recycle => s.thread.Writing? && s.thread.written >= |s.thread.kept|
    case End => s.thread.Top? && !s.running
  }

  function TextOf(es: seq<Entry>): (r: bytes) {
    if es == [] then [] else (if es[0].Data? then es[0].text else []) + TextOf(es[1..])
  }

  function AppendLine(s: State, line: bytes): (r: State) {
    if SIZE - |s.current| > |line| then
      s.(current := Filled(s.current, SIZE, line), appended := s.appended + line)
    else
      var spare := if s.next.Some? then s.next.value else [];
      s.(buffers := s.buffers + [s.current], current := Filled(spare, SIZE, line), next := None,
         appended := s.appended + line, lost := s.lost + |spare + line| - |Filled(spare, SIZE, line)|)
  }

  /** The recycling at the end of a round: spare buffers are refilled from the back of the cut batch. */
  function Recycled(t: Thread): (r: Thread)
    requires t.Writing?
  {
    var two := if |t.kept| > 2 then t.kept[..2] else t.kept;
    if t.held1.None? && two == [] then Aborted else
    var after1 := if t.held1.None? then two[..|two| - 1] else two;
    if t.held2.None? && after1 == [] then Aborted else
    Top(if t.held1.None? then Some([]) else t.held1, if t.held2.None? then Some([]) else t.held2)
  }

  function Apply(s: State, step: Step): (r: State)
    requires Enabled(s, step)
  {
    match step
    case Append(line) => AppendLine(s, line)
    case Stop => s.(running := false)
    case Enter => s.(thread := Entered(s.thread.spare1, s.thread.spare2))
    case Swap =>
      var t := s.thread;
      // The two assertions on the spare buffers at the top of the loop.
      if t.spare1 != Some([]) || t.spare2 != Some([]) then s.(thread := Aborted) else
      s.(buffers := [], current := t.spare1.value, next := if s.next.None? then t.spare2 else s.next,
         thread := Swapped(s.buffers + [s.current], None, if s.next.None? then None else t.spare2))
    case Trim =>
      var t := s.thread;
      if t.batch == [] then s.(thread := Aborted)
      else if |t.batch| > MAX_BATCH then
        s.(output := s.output + [Notice(|t.batch| - 2)], thread := Writing(t.batch[..2], 0, t.left1, t.left2),
           lost := s.lost + |Concat(t.batch[2..])|)
      else s.(thread := Writing(t.batch, 0, t.left1, t.left2))
    case WriteOne =>
      var t := s.thread;
      s.(output := s.output + [Data(t.kept[t.written])], thread := t.(written := t.written + 1))
    case Recycle => s.(thread := Recycled(s.thread))
    case End => s.(thread := Ended)
  }

  // ---- the invariant ---------------------------------------------------------------------

  /** Buffers the thread has taken and not yet written. */
  function Unwritten(t: Thread): (bs: seq<bytes>) {
    match t
    case Swapped(batch, _, _) => batch
    case Writing(kept, written, _, _) => if written <= |kept| then kept[written..] else []
    case _ => []
  }

  /** Everything that is still held: written text, the thread's buffers, the full buffers, the current one. */
  function Held(s: State): (r: bytes) {
    TextOf(s.output) + Concat(Unwritten(s.thread)) + Concat(s.buffers) + s.current
  }

  predicate Inv(s: State) {
    && |s.current| < SIZE
    && (forall i :: 0 <= i < |s.buffers| ==> |s.buffers[i]| < SIZE)
    && (s.next.Some? ==> s.next == Some([]))
    && (s.next.None? ==> s.buffers != [])
    && (match s.thread
        case Top(spare1, spare2) => spare1 == Some([]) && spare2 == Some([])
        case Entered(spare1, spare2) => spare1 == Some([]) && spare2 == Some([])
        case Swapped(batch, left1, left2) =>
          |batch| >= 1 && left1.None? && (left2.None? ==> |batch| >= 2) && (left2.Some? ==> left2 == Some([]))
        case Writing(kept, written, held1, held2) =>
          written <= |kept| && |kept| >= 1 && held1.None? && (held2.None? ==> |kept| >= 2)
            && (held2.Some? ==> held2 == Some([]))
        case Ended => true
        case Aborted => false)
    && |Held(s)| + s.lost == |s.appended|
    && (s.lost == 0 ==> Held(s) == s.appended)
  }

  lemma {:induction false} TextSnoc(es: seq<Entry>, e: Entry)
    ensures TextOf(es + [e]) == TextOf(es) + (if e.Data? then e.text else [])
  {
    var t := if e.Data? then e.text else [];
    if es == [] {
      assert [e][1..] == [];
    } else {
      assert (es + [e])[1..] == es[1..] + [e];
      TextSnoc(es[1..], e);
      var h := if es[0].Data? then es[0].text else [];
      assert h + (TextOf(es[1..]) + t) == h + TextOf(es[1..]) + t;
    }
  }

  lemma InvAppend(s: State, line: bytes)
    requires Inv(s)
    ensures Inv(AppendLine(s, line))
    ensures AppendLine(s, line).lost == s.lost + if |line| < SIZE then 0 else |line|
    ensures Held(AppendLine(s, line)) == Held(s) + if |line| < SIZE then line else []
  {
    hide Concat, TextOf, Unwritten;
    var r := AppendLine(s, line);
    var front := TextOf(s.output) + Concat(Unwritten(s.thread)) + Concat(s.buffers);
    if SIZE - |s.current| > |line| {
      assert front + (s.current + line) == front + s.current + line;
    } else {
      ConcatSnoc(s.buffers, s.current);
      assert TextOf(s.output) + Concat(Unwritten(s.thread)) + (Concat(s.buffers) + s.current) == Held(s);
      if |line| < SIZE {
        assert r.current == line;
        assert Held(r) == Held(s) + line;
      } else {
        assert r.current == [];
        assert Held(r) == Held(s) + [];
      }
    }
  }

  lemma InvSwap(s: State)
    requires Inv(s) && Enabled(s, Swap)
    ensures Inv(Apply(s, Swap)) && Apply(s, Swap).lost == s.lost && Held(Apply(s, Swap)) == Held(s)
  {
    var r := Apply(s, Swap);
    ConcatSnoc(s.buffers, s.current);
    var text, full := TextOf(s.output), Concat(s.buffers);
    assert Concat(Unwritten(s.thread)) == [];
    assert Held(s) == text + [] + full + s.current;
    assert Held(r) == text + (full + s.current) + [] + [];
    assert Held(r) == Held(s);
  }

  lemma InvTrim(s: State)
    requires Inv(s) && Enabled(s, Trim)
    ensures Inv(Apply(s, Trim))
    ensures Apply(s, Trim).lost == s.lost + if |s.thread.batch| > MAX_BATCH then |Concat(s.thread.batch[2..])| else 0
  {
    hide Concat;
    var r, b := Apply(s, Trim), s.thread.batch;
    if |b| > MAX_BATCH {
      ConcatSplit(b, 2);
      TextSnoc(s.output, Notice(|b| - 2));
      assert b[..2][0..] == b[..2];
      var tail := Concat(b[2..]);
      if tail == [] { assert Concat(b[..2]) + tail == Concat(b[..2]); }
    } else {
      assert b[0..] == b;
    }
  }

  lemma InvWrite(s: State)
    requires Inv(s) && Enabled(s, WriteOne)
    ensures Inv(Apply(s, WriteOne)) && Apply(s, WriteOne).lost == s.lost && Held(Apply(s, WriteOne)) == Held(s)
  {
    var r, t := Apply(s, WriteOne), s.thread;
    var b := t.kept[t.written];
    TextSnoc(s.output, Data(b));
    assert t.kept[t.written..][1..] == t.kept[t.written + 1..];
    var rest := Concat(t.kept[t.written + 1..]);
    assert Concat(Unwritten(t)) == b + rest;
    assert TextOf(s.output) + b + rest == TextOf(s.output) + (b + rest);
  }

  lemma InvStep(s: State, step: Step)
    requires Inv(s) && Enabled(s, step)
    ensures Inv(Apply(s, step))
  {
    hide Concat, TextOf;
    match step
    case Append(line) => InvAppend(s, line);
    case Swap => InvSwap(s);
    case Trim => InvTrim(s);
    case WriteOne => InvWrite(s);
    case Recycle => assert s.thread.kept[s.thread.written..] == [];
    case _ =>
  }

  // ---- runs -----------------------------------------------------------------------------

  predicate IsRun(s: State, steps: seq<Step>)
    decreases |steps|
  {
    steps == [] || (Enabled(s, steps[0]) && IsRun(Apply(s, steps[0]), steps[1..]))
  }

  function After(s: State, steps: seq<Step>): (r: State)
    requires IsRun(s, steps)
    decreases |steps|
  {
    if steps == [] then s else After(Apply(s, steps[0]), steps[1..])
  }

  lemma {:induction false} InvRun(s: State, steps: seq<Step>)
    requires Inv(s) && IsRun(s, steps)
    ensures Inv(After(s, steps))
    decreases |steps|
  {
    hide Inv, Apply;
    if steps != [] {
      InvStep(s, steps[0]);
      InvRun(Apply(s, steps[0]), steps[1..]);
    }
  }

  lemma InvInitial()
    ensures Inv(Initial)
  {
  }

  /** No assertion on the recycled buffers ever fails, and the spare buffer is missing only while full ones wait. */
  lemma NeverAborts(steps: seq<Step>)
    requires IsRun(Initial, steps)
    ensures var s := After(Initial, steps); !s.thread.Aborted? && (s.next.None? ==> s.buffers != [])
  {
    InvInitial();
    InvRun(Initial, steps);
  }

  /** All lines the steps of a run append, one after the other. */
  function AppendedBy(steps: seq<Step>): (text: bytes) {
    if steps == [] then [] else (if steps[0].Append? then steps[0].line else []) + AppendedBy(steps[1..])
  }

  lemma AppendedStep(s: State, step: Step)
    requires Enabled(s, step)
    ensures Apply(s, step).appended == s.appended + if step.Append? then step.line else []
  {
    hide Concat, Filled, Recycled;
  }

  lemma {:induction false} AppendedRun(s: State, steps: seq<Step>)
    requires IsRun(s, steps)
    ensures After(s, steps).appended == s.appended + AppendedBy(steps)
    decreases |steps|
  {
    hide Apply, Enabled;
    if steps != [] {
      AppendedStep(s, steps[0]);
      AppendedRun(Apply(s, steps[0]), steps[1..]);
      Regroup(s.appended, if steps[0].Append? then steps[0].line else [], AppendedBy(steps[1..]));
    }
  }

  lemma Regroup(a: bytes, b: bytes, c: bytes)
    ensures a + b + c == a + (b + c)
  {
  }

  lemma AppendedFromStart(steps: seq<Step>)
    requires IsRun(Initial, steps)
    ensures After(Initial, steps).appended == AppendedBy(steps)
  {
    hide IsRun, After, AppendedBy;
    AppendedRun(Initial, steps);
    assert [] + AppendedBy(steps) == AppendedBy(steps);
  }

  /**
   In every interleaving: written text, the thread's buffers, the full buffers and the current buffer make up the lines
   of all append steps in order exactly when no byte was lost.
   */
  lemma Conservation(steps: seq<Step>)
    requires IsRun(Initial, steps)
    ensures
      var s, all := After(Initial, steps), AppendedBy(steps);
      |Held(s)| + s.lost == |all| && (Held(s) == all <==> s.lost == 0)
  {
    hide IsRun, After, AppendedBy, Held;
    InvInitial();
    InvRun(Initial, steps);
    AppendedFromStart(steps);
  }

  // ---- order after a loss ----------------------------------------------------------------------

  /** Positions in `whole`, in increasing order, where the bytes of `part` stand. */
  ghost predicate Picks(at: seq<nat>, part: bytes, whole: bytes) {
    && |at| == |part| && (forall i, j :: 0 <= i < j < |at| ==> at[i] < at[j])
    && (forall i :: 0 <= i < |at| ==> at[i] < |whole| && whole[at[i]] == part[i])
  }

  ghost predicate IsSubsequence(part: bytes, whole: bytes) {
    exists at :: Picks(at, part, whole)
  }

  /** More bytes at the end of the whole, and the same ones or none at the end of the part. */
  lemma SubsequenceExtend(part: bytes, whole: bytes, more: bytes)
    requires IsSubsequence(part, whole)
    ensures IsSubsequence(part, whole + more) && IsSubsequence(part + more, whole + more)
  {
    var at :| Picks(at, part, whole);
    assert Picks(at, part, whole + more);
    var all := at + seq(|more|, i requires 0 <= i => |whole| + i);
    assert Picks(all, part + more, whole + more);
  }

  /** A middle piece dropped from the part. */
  lemma SubsequenceDrop(a: bytes, b: bytes, c: bytes, whole: bytes)
    requires IsSubsequence(a + b + c, whole)
    ensures IsSubsequence(a + c, whole)
  {
    var part := a + b + c;
    var at :| Picks(at, part, whole);
    var fewer := at[..|a|] + at[|a| + |b|..];
    assert forall i :: 0 <= i < |a + c| ==> (a + c)[i] == part[if i < |a| then i else i + |b|];
    assert forall i :: 0 <= i < |fewer| ==> fewer[i] == at[if i < |a| then i else i + |b|];
    assert Picks(fewer, a + c, whole);
  }

  /** Cutting a batch drops one piece from the middle of what is held. */
  lemma HeldAfterTrim(s: State)
    requires Inv(s) && Enabled(s, Trim) && |s.thread.batch| > MAX_BATCH
    ensures
      var a, c := TextOf(s.output) + Concat(s.thread.batch[..2]), Concat(s.buffers) + s.current;
      Held(s) == a + Concat(s.thread.batch[2..]) + c && Held(Apply(s, Trim)) == a + c
  {
    hide Concat;
    var b := s.thread.batch;
    ConcatSplit(b, 2);
    TextSnoc(s.output, Notice(|b| - 2));
    assert b[..2][0..] == b[..2];
  }

  lemma SubsequenceStep(s: State, step: Step)
    requires Inv(s) && Enabled(s, step) && IsSubsequence(Held(s), s.appended)
    ensures var r := Apply(s, step); IsSubsequence(Held(r), r.appended)
  {
    hide Concat, TextOf, IsSubsequence;
    match step
    case Append(line) =>
      InvAppend(s, line);
      SubsequenceExtend(Held(s), s.appended, line);
      assert Held(s) + [] == Held(s);
    case Swap => InvSwap(s);
    case Trim =>
      var b := s.thread.batch;
      if |b| > MAX_BATCH {
        HeldAfterTrim(s);
        SubsequenceDrop(TextOf(s.output) + Concat(b[..2]), Concat(b[2..]), Concat(s.buffers) + s.current, s.appended);
      } else {
        assert b[0..] == b;
      }
    case WriteOne => InvWrite(s);
    case Recycle => assert s.thread.kept[s.thread.written..] == [];
    case _ =>
  }

  lemma {:induction false} SubsequenceRun(s: State, steps: seq<Step>)
    requires Inv(s) && IsRun(s, steps) && IsSubsequence(Held(s), s.appended)
    ensures IsSubsequence(Held(After(s, steps)), After(s, steps).appended)
    decreases |steps|
  {
    hide Inv, Apply, IsSubsequence, Held;
    if steps != [] {
      SubsequenceStep(s, steps[0]);
      InvStep(s, steps[0]);
      SubsequenceRun(Apply(s, steps[0]), steps[1..]);
    }
  }

  /** In every interleaving, also after a loss: what is held are appended bytes in their order, none twice. */
  lemma NeverReordered(steps: seq<Step>)
    requires IsRun(Initial, steps)
    ensures IsSubsequence(Held(After(Initial, steps)), AppendedBy(steps))
  {
    InvInitial();
    assert Held(Initial) == [] && Picks([], [], []);
    SubsequenceRun(Initial, steps);
    AppendedFromStart(steps);
  }

  // ---- when nothing is lost --------------------------------------------------------------------

  /** A step that may lose bytes: a line as long as a buffer, or a batch above the limit. */
  predicate Careful(s: State, step: Step) {
    match step
    case Append(line) => |line| < 4_000_000
    case Trim => s.thread.Swapped? && |s.thread.batch| <= 25
    case _ => true
  }

  predicate CarefulRun(s: State, steps: seq<Step>)
    requires IsRun(s, steps)
    decreases |steps|
  {
    steps == [] || (Careful(s, steps[0]) && CarefulRun(Apply(s, steps[0]), steps[1..]))
  }

  /**
   Each step loses nothing when careful. A careless append loses exactly its line; a careless cut loses exactly the
   buffers behind the first two, and writes down how many.
   */
  lemma LostByStep(s: State, step: Step)
    requires Inv(s) && Enabled(s, step)
    ensures Careful(s, step) ==> Apply(s, step).lost == s.lost
    ensures step.Append? && !Careful(s, step) ==> Apply(s, step).lost == s.lost + |step.line|
    ensures
      step.Trim? && !Careful(s, step) ==>
        var r, b := Apply(s, step), s.thread.batch;
        && r.lost == s.lost + |Concat(b[2..])| && r.output == s.output + [Notice(|b| - 2)]
        && Unwritten(r.thread) == b[..2]
  {
    hide Concat, TextOf;
    match step
    case Append(line) => InvAppend(s, line);
    case Swap => InvSwap(s);
    case Trim => InvTrim(s);
    case _ =>
  }

  lemma {:induction false} CarefulLosesNothing(s: State, steps: seq<Step>)
    requires Inv(s) && IsRun(s, steps) && CarefulRun(s, steps)
    ensures After(s, steps).lost == s.lost
    decreases |steps|
  {
    hide Inv, Apply, Careful;
    if steps != [] {
      LostByStep(s, steps[0]);
      InvStep(s, steps[0]);
      CarefulLosesNothing(Apply(s, steps[0]), steps[1..]);
    }
  }

  /** With lines shorter than a buffer and no batch above the limit, nothing is lost or reordered. */
  lemma CarefulConserves(steps: seq<Step>)
    requires IsRun(Initial, steps) && CarefulRun(Initial, steps)
    ensures Held(After(Initial, steps)) == AppendedBy(steps)
  {
    InvInitial();
    CarefulLosesNothing(Initial, steps);
    Conservation(steps);
  }

  // ---- the logger object -------------------------------------------------------------------

  class Logger {
    var current: bytes
    var next: Option<bytes>
    var buffers: seq<bytes>
    var newBuffer1: Option<bytes>
    var newBuffer2: Option<bytes>
    var buffersToWrite: seq<bytes>
    var output: seq<Entry>

    constructor ()
      ensures current == [] && next == Some([]) && buffers == [] && output == []
      ensures newBuffer1 == Some([]) && newBuffer2 == Some([]) && buffersToWrite == []
    {
      current, next, buffers, output := [], Some([]), [], [];
      newBuffer1, newBuffer2, buffersToWrite := Some([]), Some([]), [];
    }

    /** The shared fields and the file, with the thread at a given place. */
    ghost predicate Shows(s: State)
      reads this
    {
      s.current == current && s.next == next && s.buffers == buffers && s.output == output
    }

    /** append */
    method AppendText(line: bytes, ghost s: State)
      requires Shows(s)
      modifies this`current, this`next, this`buffers
      ensures Shows(AppendLine(s, line))
    {
      if SIZE - |current| > |line| {
        current := Filled(current, SIZE, line);
      } else {
        buffers := buffers + [current];
        if next.Some? {
          current := next.value;
          next := None;
        } else {
          current := [];
        }
        current := Filled(current, SIZE, line);
      }
    }

    /** threadFunc, its critical section */
    method SwapOut(ghost s: State)
      requires Inv(s) && Shows(s) && s.thread == Entered(newBuffer1, newBuffer2) && buffersToWrite == []
      modifies this
      ensures Shows(Apply(s, Swap)) && Apply(s, Swap).thread == Swapped(buffersToWrite, newBuffer1, newBuffer2)
    {
      buffers := buffers + [current];
      current := newBuffer1.value;
      newBuffer1 := None;
      buffersToWrite, buffers := buffers, buffersToWrite;
      if next.None? {
        next := newBuffer2;
        newBuffer2 := None;
      }
    }

    /** threadFunc, the cut of a long batch */
    method CutBatch(ghost s: State)
      requires Inv(s) && Shows(s) && s.thread == Swapped(buffersToWrite, newBuffer1, newBuffer2)
      modifies this`output, this`buffersToWrite
      ensures Shows(Apply(s, Trim)) && Apply(s, Trim).thread == Writing(buffersToWrite, 0, newBuffer1, newBuffer2)
    {
      if |buffersToWrite| > MAX_BATCH {
        output := output + [Notice(|buffersToWrite| - 2)];
        buffersToWrite := buffersToWrite[..2];
      }
    }

    /** threadFunc, the writing loop; after buffer i other threads append the lines `meanwhile[i]` */
    method WriteBatch(meanwhile: seq<seq<bytes>>, ghost s: State) returns (ghost r: State)
      requires Inv(s) && Shows(s) && s.thread == Writing(buffersToWrite, 0, newBuffer1, newBuffer2)
      requires |meanwhile| == |buffersToWrite|
      modifies this`output, this`current, this`next, this`buffers
      ensures Inv(r) && Shows(r) && r.thread == Writing(buffersToWrite, |buffersToWrite|, newBuffer1, newBuffer2)
      ensures output == old(output) + Entries(buffersToWrite) && r.appended == s.appended + Lines(meanwhile)
    {
      hide Inv, AppendLine;
      r := s;
      for i := 0 to |buffersToWrite|
        invariant r.thread == Writing(buffersToWrite, i, newBuffer1, newBuffer2) && Inv(r) && Shows(r)
        invariant output == old(output) + Entries(buffersToWrite[..i])
          && r.appended == s.appended + Lines(meanwhile[..i])
      {
        output := output + [Data(buffersToWrite[i])];
        InvStep(r, WriteOne);
        r := Apply(r, WriteOne);
        r := AppendLines(meanwhile[i], r);
        assert meanwhile[..i + 1] == meanwhile[..i] + [meanwhile[i]];
        LinesSnoc(meanwhile[..i], meanwhile[i]);
      }
      assert buffersToWrite[..|buffersToWrite|] == buffersToWrite && meanwhile[..|meanwhile|] == meanwhile;
    }

    /** append, once for each line, by any threads */
    method AppendLines(lines: seq<bytes>, ghost s: State) returns (ghost r: State)
      requires Inv(s) && Shows(s)
      modifies this`current, this`next, this`buffers
      ensures Inv(r) && Shows(r) && r.thread == s.thread && r.appended == s.appended + Concat(lines)
    {
      hide Inv, AppendLine, Held, Concat;
      r := s;
      assert lines[..0] == [] && Concat(lines[..0]) == [] by { ConcatNone(); }
      for i := 0 to |lines|
        invariant Inv(r) && Shows(r) && r.thread == s.thread && r.appended == s.appended + Concat(lines[..i])
      {
        AppendText(lines[i], r);
        InvAppend(r, lines[i]);
        AppendFields(r, lines[i]);
        r := AppendLine(r, lines[i]);
        assert lines[..i + 1] == lines[..i] + [lines[i]];
        ConcatSnoc(lines[..i], lines[i]);
      }
      assert lines[..|lines|] == lines;
    }

    /** threadFunc, the recycling; the assertions that there is a buffer to take hold */
    method RecycleBuffers(ghost s: State)
      requires Inv(s) && Shows(s) && s.thread == Writing(buffersToWrite, |buffersToWrite|, newBuffer1, newBuffer2)
      modifies this`buffersToWrite, this`newBuffer1, this`newBuffer2
      ensures Shows(Apply(s, Recycle)) && Apply(s, Recycle).thread == Top(newBuffer1, newBuffer2)
      ensures buffersToWrite == []
    {
      if |buffersToWrite| > 2 {
        buffersToWrite := buffersToWrite[..2];
      }
      if newBuffer1.None? {
        assert buffersToWrite != [];
        newBuffer1 := Some([]);
        buffersToWrite := buffersToWrite[..|buffersToWrite| - 1];
      }
      if newBuffer2.None? {
        assert buffersToWrite != [];
        newBuffer2 := Some([]);
        buffersToWrite := buffersToWrite[..|buffersToWrite| - 1];
      }
      buffersToWrite := [];
    }
  }

  lemma AppendFields(s: State, line: bytes)
    ensures var r := AppendLine(s, line); r.thread == s.thread && r.appended == s.appended + line
  {
  }

  lemma ConcatNone()
    ensures Concat([]) == []
  {
  }

  function Entries(bs: seq<bytes>): (es: seq<Entry>) {
    seq(|bs|, i requires 0 <= i < |bs| => Data(bs[i]))
  }

  function Lines(groups: seq<seq<bytes>>): (s: bytes) {
    if groups == [] then [] else Lines(groups[..|groups| - 1]) + Concat(groups[|groups| - 1])
  }

  lemma LinesSnoc(groups: seq<seq<bytes>>, lines: seq<bytes>)
    ensures Lines(groups + [lines]) == Lines(groups) + Concat(lines)
  {
    assert (groups + [lines])[..|groups|] == groups;
  }
}
