/**
 Local times of a transition table (base/TimeZone.cc): splitting seconds into a date and time, the offset in
 force at a UTC second, and the offset chosen for a local time.
 */
module TimeZone {
  import opened Calendar

  const SECONDS_PER_DAY: int := 86400
  const EPOCH: int := 2440588

  datatype DateTime = DateTime(year: int, month: int, day: int, hour: int, minute: int, second: int)

  /** C++ remainder: the sign of the dividend. */
  function Rem(a: int, b: int): (r: int)
    requires b > 0
  {
    a - Quot(a, b) * b
  }

  /** Conversion to a 32-bit int. */
  function ToInt32(x: int): (r: int)
    ensures Int32(r) && (Int32(x) ==> r == x)
  {
    var m := x % 0x1_0000_0000;
    if m < 0x8000_0000 then m else m - 0x1_0000_0000
  }

  /** BreakTime, with the narrowing to int and the correction for negative remainders. */
  function BreakTime(t: int): (dt: DateTime) {
    var seconds, days := Rem(t, SECONDS_PER_DAY), ToInt32(Quot(t, SECONDS_PER_DAY));
    var s, d := if seconds < 0 then seconds + SECONDS_PER_DAY else seconds, if seconds < 0 then days - 1 else days;
    var date := CivilDate(d + EPOCH);
    DateTime(date.year, date.month, date.day, s / 60 / 60, s / 60 % 60, s % 60)
  }

  /** fromUtcTime */
  function FromUtcTime(dt: DateTime): (t: int) {
    (JulianDay(dt.year, dt.month, dt.day) - EPOCH) * SECONDS_PER_DAY + dt.hour * 3600 + dt.minute * 60 + dt.second
  }

  predicate IsDateTime(dt: DateTime) {
    IsDate(Date(dt.year, dt.month, dt.day)) && 0 <= dt.hour < 24 && 0 <= dt.minute < 60 && 0 <= dt.second < 60
  }

  /** Seconds from the start of 1 March -4800 to the end of the last day whose number the calendar formulas can take. */
  predicate InRange(t: int) { (FIRST_DAY - EPOCH) * SECONDS_PER_DAY <= t < (LAST_DAY + 1 - EPOCH) * SECONDS_PER_DAY }

  /** Floor division splits any second, negative ones included. */
  lemma SplitDay(t: int)
    ensures
      var seconds, days := Rem(t, SECONDS_PER_DAY), Quot(t, SECONDS_PER_DAY);
      var s, d := if seconds < 0 then seconds + SECONDS_PER_DAY else seconds, if seconds < 0 then days - 1 else days;
      d == t / SECONDS_PER_DAY && s == t % SECONDS_PER_DAY
  {
  }

  lemma BreakIsFloor(t: int)
    requires InRange(t)
    ensures
      var date, s := CivilDate(t / SECONDS_PER_DAY + EPOCH), t % SECONDS_PER_DAY;
      BreakTime(t) == DateTime(date.year, date.month, date.day, s / 60 / 60, s / 60 % 60, s % 60)
  {
    hide CivilDate;
    SplitDay(t);
  }

  lemma ClockSplit(s: int)
    requires 0 <= s < SECONDS_PER_DAY
    ensures 0 <= s / 60 / 60 < 24 && s / 60 / 60 * 3600 + s / 60 % 60 * 60 + s % 60 == s
  {
  }

  lemma ClockJoin(h: int, m: int, s: int)
    requires 0 <= h < 24 && 0 <= m < 60 && 0 <= s < 60
    ensures
      var n := h * 3600 + m * 60 + s;
      0 <= n < SECONDS_PER_DAY && n / 60 / 60 == h && n / 60 % 60 == m && n % 60 == s
  {
    var n := h * 3600 + m * 60 + s;
    assert n / 60 == h * 60 + m;
  }

  /** Breaking a second and putting it together again gives it back; the parts are a calendar date and a clock time. */
  lemma JoinOfBreak(t: int)
    requires InRange(t)
    ensures IsDateTime(BreakTime(t)) && FromUtcTime(BreakTime(t)) == t
  {
    hide CivilDate, JulianDay, IsDate;
    BreakIsFloor(t);
    JulianOfCivil(t / SECONDS_PER_DAY + EPOCH);
    ClockSplit(t % SECONDS_PER_DAY);
  }

  /** Putting a date and time together and breaking the second again gives them back. */
  lemma BreakOfJoin(dt: DateTime)
    requires IsDateTime(dt) && FromStart(Date(dt.year, dt.month, dt.day))
      && JulianDay(dt.year, dt.month, dt.day) <= LAST_DAY
    ensures BreakTime(FromUtcTime(dt)) == dt && InRange(FromUtcTime(dt))
  {
    hide CivilDate, JulianDay, IsDate;
    var j, s := JulianDay(dt.year, dt.month, dt.day), dt.hour * 3600 + dt.minute * 60 + dt.second;
    CivilOfJulian(Date(dt.year, dt.month, dt.day));
    ClockJoin(dt.hour, dt.minute, dt.second);
    DayAndSecond(j - EPOCH, s);
    assert InRange(FromUtcTime(dt));
    BreakIsFloor(FromUtcTime(dt));
  }

  lemma DayAndSecond(d: int, s: int)
    requires 0 <= s < SECONDS_PER_DAY
    ensures var t := d * SECONDS_PER_DAY + s; t / SECONDS_PER_DAY == d && t % SECONDS_PER_DAY == s
  {
  }

  // ---- the transition table ------------------------------------------------------------

  datatype LocalTime = LocalTime(utcOffset: int, isDst: bool, desigIdx: int)

  datatype Transition = Transition(utc: int, local: int, idx: int)

  datatype Zone = Zone(transitions: seq<Transition>, localtimes: seq<LocalTime>)

  function AddLocalTime(z: Zone, lt: LocalTime): (r: Zone) {
    z.(localtimes := z.localtimes + [lt])
  }

  datatype Added = Added(zone: Zone) | OutOfRange

  /** addTransition: the local time is the UTC time shifted by the offset in force from then on. */
  function AddTransition(z: Zone, utc: int, idx: int): (r: Added)
  {
    if 0 <= idx < |z.localtimes|
    then Added(z.(transitions := z.transitions + [Transition(utc, utc + z.localtimes[idx].utcOffset, idx)]))
    else OutOfRange
  }

  /** Every transition names a local time type and carries its shifted time. */
  predicate Indexed(z: Zone) {
    |z.localtimes| > 0 &&
    forall i :: 0 <= i < |z.transitions| ==>
      var tr := z.transitions[i];
      0 <= tr.idx < |z.localtimes| && tr.local == tr.utc + z.localtimes[tr.idx].utcOffset
  }

  /** Tables are indexed because addTransition keeps them so, whatever is added in whatever order. */
  lemma AddingKeepsIndexed(z: Zone, lt: LocalTime, utc: int, idx: int)
    requires Indexed(z) || z == Zone([], [])
    ensures Indexed(AddLocalTime(z, lt))
    ensures AddTransition(z, utc, idx).Added? ==> Indexed(AddTransition(z, utc, idx).zone)
  {
    var w := AddLocalTime(z, lt);
    assert forall i :: 0 <= i < |z.localtimes| ==> w.localtimes[i] == z.localtimes[i];
  }

  function Off(z: Zone, i: int): (o: int)
    requires Indexed(z) && 0 <= i < |z.transitions|
    ensures z.transitions[i].local == z.transitions[i].utc + o
  {
    z.localtimes[z.transitions[i].idx].utcOffset
  }

  /** Offset in force before transition i; before the first one it is the first local time type's. */
  function OffBefore(z: Zone, i: int): (o: int)
    requires Indexed(z) && 0 <= i <= |z.transitions|
  {
    if i == 0 then z.localtimes[0].utcOffset else Off(z, i - 1)
  }

  /** Consecutive transitions lie further apart than any two offsets of the table differ. */
  predicate Spaced(z: Zone)
    requires Indexed(z)
  {
    forall i, a, b :: 0 <= i < i + 1 < |z.transitions| && 0 <= a < |z.localtimes| && 0 <= b < |z.localtimes| ==>
      z.transitions[i + 1].utc - z.transitions[i].utc > z.localtimes[a].utcOffset - z.localtimes[b].utcOffset
  }

  predicate Table(z: Zone) { Indexed(z) && Spaced(z) }

  /** First transition with a key above x, keys given by `local` or UTC time: std::upper_bound on the sorted table. */
  function UpperBound(ts: seq<Transition>, x: int, byLocal: bool): (k: nat)
    ensures k <= |ts|
    ensures forall i :: 0 <= i < k ==> (if byLocal then ts[i].local else ts[i].utc) <= x
    ensures k < |ts| ==> (if byLocal then ts[k].local else ts[k].utc) > x
  {
    if ts == [] || (if byLocal then ts[0].local else ts[0].utc) > x then 0
    else 1 + UpperBound(ts[1..], x, byLocal)
  }

  /** findLocalTime of a UTC second */
  function OffsetAt(z: Zone, t: int): (o: int)
    requires Indexed(z)
  {
    var n := |z.transitions|;
    if n == 0 || t < z.transitions[0].utc then z.localtimes[0].utcOffset
    else
      var k := UpperBound(z.transitions, t, false);
      if k < n then Off(z, k - 1) else Off(z, n - 1)
  }

  /** findLocalTime of a local time, with and without postTransition */
  function OffsetOfLocal(z: Zone, local: int, post: bool): (o: int)
    requires Indexed(z)
  {
    var n := |z.transitions|;
    if n == 0 || local < z.transitions[0].local then z.localtimes[0].utcOffset
    else
      var k := UpperBound(z.transitions, local, true);
      if k == n then Off(z, n - 1)
      else
        var priorSecond := z.transitions[k].utc - 1 + Off(z, k - 1);
        if priorSecond < local then (if post then Off(z, k) else Off(z, k - 1))
        else
          var i := k - 1;
          // For the first row the source keeps looking at the row it already examined.
          var prior := if i != 0 then i - 1 else k - 1;
          var second := if i != 0 then z.transitions[i].utc - 1 + Off(z, prior) else priorSecond;
          if local <= second then (if post then Off(z, i) else Off(z, prior))
          else Off(z, i)
  }

  function LocalSeconds(z: Zone, t: int): (l: int)
    requires Indexed(z)
  {
    t + OffsetAt(z, t)
  }

  /** toLocalTime */
  function ToLocalTime(z: Zone, t: int): (dt: DateTime)
    requires Indexed(z)
  {
    BreakTime(t + OffsetAt(z, t))
  }

  /** fromLocalTime */
  function FromLocalTime(z: Zone, dt: DateTime, post: bool): (t: int)
    requires Indexed(z)
  {
    FromUtcTime(dt) - OffsetOfLocal(z, FromUtcTime(dt), post)
  }

  // ---- order of the table ---------------------------------------------------------------

  /** Any two transitions are apart by more than any offset difference, so UTC and local times are both sorted. */
  lemma {:induction false} Apart(z: Zone, i: int, j: int, a: int, b: int)
    requires Table(z) && 0 <= i < j < |z.transitions|
    requires 0 <= a < |z.localtimes| && 0 <= b < |z.localtimes|
    ensures z.transitions[j].utc - z.transitions[i].utc > z.localtimes[a].utcOffset - z.localtimes[b].utcOffset
    ensures z.transitions[i].utc < z.transitions[j].utc
    decreases j - i
  {
    assert i < i + 1 < |z.transitions|;
    assert z.transitions[i + 1].utc - z.transitions[i].utc > z.localtimes[a].utcOffset - z.localtimes[b].utcOffset;
    assert z.transitions[i + 1].utc - z.transitions[i].utc > z.localtimes[a].utcOffset - z.localtimes[a].utcOffset;
    if i + 1 < j { Apart(z, i + 1, j, a, a); }
  }

  /** Index of the row in force at t: -1 before the first transition. */
  predicate InPeriod(z: Zone, t: int, i: int)
    requires Indexed(z)
  {
    -1 <= i < |z.transitions| &&
    (i >= 0 ==> z.transitions[i].utc <= t) && (i + 1 < |z.transitions| ==> t < z.transitions[i + 1].utc)
  }

  lemma FindPeriod(z: Zone, t: int) returns (i: int)
    requires Table(z)
    ensures InPeriod(z, t, i)
  {
    hide Spaced;
    i := UpperBound(z.transitions, t, false) - 1;
  }

  lemma PeriodOffset(z: Zone, t: int, i: int)
    requires Table(z) && InPeriod(z, t, i)
    ensures OffsetAt(z, t) == OffBefore(z, i + 1)
  {
    hide Spaced;
    var n := |z.transitions|;
    if i >= 0 {
      if i > 0 { Apart(z, 0, i, 0, 0); }
      var k := UpperBound(z.transitions, t, false);
      if k < i { Apart(z, k, i, 0, 0); }
    }
  }

  /** Where a local second falls among the rows. */
  lemma LocalUpperBound(z: Zone, local: int, k: int)
    requires Table(z) && 0 <= k <= |z.transitions|
    requires k > 0 ==> z.transitions[k - 1].local <= local
    requires k < |z.transitions| ==> local < z.transitions[k].local
    ensures UpperBound(z.transitions, local, true) == k
    ensures k > 0 ==> z.transitions[0].local <= local
  {
    hide Spaced, Off;
    var ts, u := z.transitions, UpperBound(z.transitions, local, true);
    if u < k - 1 { Apart(z, u, k - 1, ts[u].idx, ts[k - 1].idx); }
    if k > 1 { Apart(z, 0, k - 1, ts[0].idx, ts[k - 1].idx); }
  }

  // ---- the early half of a repeated hour -------------------------------------------------

  /** t lies just before transition k, yet its local time is already at or past the new row's start. */
  predicate EarlyHalf(z: Zone, k: int, t: int)
    requires Indexed(z) && 0 <= k < |z.transitions|
  {
    InPeriod(z, t, k - 1) && t + OffBefore(z, k) >= z.transitions[k].local
  }

  /** Outcome of fromLocalTime on the local second of t, for every t of row i that is not in an early half. */
  lemma LateOrPlain(z: Zone, t: int, i: int)
    requires Table(z) && InPeriod(z, t, i) && 0 <= i
    requires i + 1 < |z.transitions| ==> !EarlyHalf(z, i + 1, t)
    ensures
      var local := t + Off(z, i);
      && local - OffsetOfLocal(z, local, true) == t
      && (local - OffsetOfLocal(z, local, false) == t <==>
          !(0 < i < |z.transitions| - 1 && local < z.transitions[i].utc + Off(z, i - 1)))
  {
    hide Spaced;
    var ts, n, local := z.transitions, |z.transitions|, t + Off(z, i);
    LocalUpperBound(z, local, i + 1);
  }

  /** In the early half of a row that is neither first nor last, postTransition selects between the two seconds. */
  lemma EarlyMiddle(z: Zone, k: int, t: int)
    requires Table(z) && 0 < k < |z.transitions| - 1 && EarlyHalf(z, k, t)
    ensures
      var local := t + Off(z, k - 1);
      local - OffsetOfLocal(z, local, false) == t && OffsetOfLocal(z, local, true) == Off(z, k)
        && Off(z, k) < Off(z, k - 1)
  {
    hide Spaced;
    var ts, local := z.transitions, t + Off(z, k - 1);
    Apart(z, k, k + 1, ts[k - 1].idx, ts[k + 1].idx);
    Apart(z, k, k + 1, ts[k - 1].idx, ts[k].idx);
    LocalUpperBound(z, local, k + 1);
  }

  /** In the early half of the first or of the last row, both settings give the later second. */
  lemma EarlyEdge(z: Zone, k: int, t: int, post: bool)
    requires Table(z) && 0 <= k < |z.transitions| && (k == 0 || k == |z.transitions| - 1) && EarlyHalf(z, k, t)
    ensures
      var local := t + OffBefore(z, k);
      OffsetOfLocal(z, local, post) == Off(z, k) && Off(z, k) < OffBefore(z, k)
  {
    hide Spaced;
    var ts, local := z.transitions, t + OffBefore(z, k);
    if k + 1 < |ts| {
      Apart(z, k, k + 1, 0, ts[k + 1].idx);
      Apart(z, k, k + 1, 0, ts[k].idx);
    }
    LocalUpperBound(z, local, k + 1);
  }

  lemma BeforeFirst(z: Zone, t: int, post: bool)
    requires Table(z) && InPeriod(z, t, -1)
    requires |z.transitions| > 0 ==> !EarlyHalf(z, 0, t)
    ensures var local := t + OffBefore(z, 0); local - OffsetOfLocal(z, local, post) == t
  {
    hide Spaced;
  }

  // ---- results --------------------------------------------------------------------------

  /** The two seconds where the code cannot return t: the early half of the first and of the last repeated interval. */
  predicate Lost(z: Zone, t: int)
    requires Indexed(z)
  {
    |z.transitions| > 0 && (EarlyHalf(z, 0, t) || EarlyHalf(z, |z.transitions| - 1, t))
  }

  predicate Returns(z: Zone, t: int, post: bool)
    requires Indexed(z)
  {
    FromLocalTime(z, ToLocalTime(z, t), post) == t
  }

  lemma ReturnsInSeconds(z: Zone, t: int, i: int, post: bool)
    requires Table(z) && InPeriod(z, t, i) && InRange(LocalSeconds(z, t))
    ensures
      var local := t + OffBefore(z, i + 1);
      Returns(z, t, post) <==> local - OffsetOfLocal(z, local, post) == t
  {
    hide BreakTime, FromUtcTime, OffsetAt, OffsetOfLocal, InRange, Spaced;
    PeriodOffset(z, t, i);
    JoinOfBreak(LocalSeconds(z, t));
  }

  /**
   Converting a UTC second to local time and back returns it for some setting of postTransition exactly when
   it is not in the early half of the first or of the last repeated interval.
   */
  lemma ReturnsIff(z: Zone, t: int)
    requires Table(z) && InRange(LocalSeconds(z, t))
    ensures (exists post :: Returns(z, t, post)) <==> !Lost(z, t)
  {
    hide Returns, OffsetAt, OffsetOfLocal, InRange, Spaced;
    var n := |z.transitions|;
    var i := FindPeriod(z, t);
    ReturnsInSeconds(z, t, i, true);
    ReturnsInSeconds(z, t, i, false);
    if i + 1 < n && EarlyHalf(z, i + 1, t) {
      if 0 < i + 1 < n - 1 {
        EarlyMiddle(z, i + 1, t);
        assert Returns(z, t, false);
        NotElsewhere(z, t, i);
      } else {
        EarlyEdge(z, i + 1, t, true);
        EarlyEdge(z, i + 1, t, false);
        assert !Returns(z, t, true) && !Returns(z, t, false);
      }
    } else {
      if i >= 0 {
        LateOrPlain(z, t, i);
      } else {
        BeforeFirst(z, t, true);
      }
      assert Returns(z, t, true);
      NotElsewhere(z, t, i);
    }
  }

  /** A second is in one period only, so in no early half but that of the next row. */
  lemma NotElsewhere(z: Zone, t: int, i: int)
    requires Table(z) && InPeriod(z, t, i)
    ensures forall k :: 0 <= k < |z.transitions| && k != i + 1 ==> !EarlyHalf(z, k, t)
  {
    hide Spaced;
    forall k | 0 <= k < |z.transitions| && k != i + 1 ensures !EarlyHalf(z, k, t) {
      if k < i { Apart(z, k, i, 0, 0); }
      if i + 1 < k - 1 { Apart(z, i + 1, k - 1, 0, 0); }
    }
  }

  /** No other second has the same local time. */
  ghost predicate Unique(z: Zone, t: int)
    requires Indexed(z)
  {
    forall u :: LocalSeconds(z, u) == LocalSeconds(z, t) ==> u == t
  }

  /** A second in an early half shares its local time with the later second across the transition. */
  lemma EarlyHasTwin(z: Zone, k: int, t: int) returns (u: int)
    requires Table(z) && 0 <= k < |z.transitions| && EarlyHalf(z, k, t)
    ensures u == t + OffBefore(z, k) - Off(z, k) && u > t
    ensures InPeriod(z, u, k) && LocalSeconds(z, u) == LocalSeconds(z, t)
  {
    hide Spaced, OffsetAt;
    var ts := z.transitions;
    u := t + OffBefore(z, k) - Off(z, k);
    if k + 1 < |ts| {
      if k == 0 {
        Apart(z, k, k + 1, 0, ts[k].idx);
      } else {
        Apart(z, k, k + 1, ts[k - 1].idx, ts[k].idx);
      }
    }
    PeriodOffset(z, t, k - 1);
    PeriodOffset(z, u, k);
  }

  lemma LateHasTwin(z: Zone, i: int, t: int) returns (u: int)
    requires Table(z) && 0 < i < |z.transitions| && InPeriod(z, t, i)
    requires t + Off(z, i) < z.transitions[i].utc + Off(z, i - 1)
    ensures u != t && LocalSeconds(z, u) == LocalSeconds(z, t)
  {
    hide Spaced, OffsetAt;
    var ts := z.transitions;
    u := t + Off(z, i) - Off(z, i - 1);
    Apart(z, i - 1, i, ts[i - 1].idx, ts[i].idx);
    PeriodOffset(z, t, i);
    PeriodOffset(z, u, i - 1);
  }

  /** A second whose local time is unique comes back under both settings. */
  lemma UniqueReturns(z: Zone, t: int, post: bool)
    requires Table(z) && InRange(LocalSeconds(z, t)) && Unique(z, t)
    ensures Returns(z, t, post)
  {
    hide Returns, OffsetAt, OffsetOfLocal, LocalSeconds, Spaced;
    var i := FindPeriod(z, t);
    ReturnsInSeconds(z, t, i, post);
    if i + 1 < |z.transitions| && EarlyHalf(z, i + 1, t) {
      var u := EarlyHasTwin(z, i + 1, t);
      assert false;
    } else if i < 0 {
      BeforeFirst(z, t, post);
    } else {
      LateOrPlain(z, t, i);
      if 0 < i && t + Off(z, i) < z.transitions[i].utc + Off(z, i - 1) {
        var u := LateHasTwin(z, i, t);
        assert false;
      }
    }
  }

  /**
   Across an inner transition that repeats a local time, the setting decides: without postTransition the earlier
   second comes back, with it the later one.
   */
  lemma RepeatedResolved(z: Zone, k: int, t: int) returns (u: int)
    requires Table(z) && 0 < k < |z.transitions| - 1 && EarlyHalf(z, k, t) && InRange(LocalSeconds(z, t))
    ensures u > t && ToLocalTime(z, u) == ToLocalTime(z, t)
    ensures Returns(z, t, false) && !Returns(z, t, true) && Returns(z, u, true) && !Returns(z, u, false)
  {
    hide Returns, OffsetAt, OffsetOfLocal, BreakTime, Spaced;
    u := EarlyHasTwin(z, k, t);
    EarlyMiddle(z, k, t);
    ReturnsInSeconds(z, t, k - 1, true);
    ReturnsInSeconds(z, t, k - 1, false);
    ReturnsInSeconds(z, u, k, true);
    ReturnsInSeconds(z, u, k, false);
  }

  /** Local seconds the clock jumps over at transition k. */
  predicate SkippedAt(z: Zone, k: int, local: int)
    requires Indexed(z) && 0 <= k < |z.transitions|
  {
    z.transitions[k].utc + OffBefore(z, k) <= local < z.transitions[k].local
  }

  /** Rows before a skip show earlier local times, rows after it later ones. */
  lemma SkippedIsNoImage(z: Zone, k: int, local: int, t: int)
    requires Table(z) && 0 <= k < |z.transitions| && SkippedAt(z, k, local)
    ensures LocalSeconds(z, t) != local
  {
    hide Spaced, OffsetAt;
    var ts := z.transitions;
    var i := FindPeriod(z, t);
    PeriodOffset(z, t, i);
    if i < k - 1 {
      Apart(z, k - 1, k, if i < 0 then 0 else ts[i].idx, ts[k - 1].idx);
      if i + 1 < k - 1 { Apart(z, i + 1, k - 1, 0, 0); }
    } else if i > k {
      Apart(z, k, i, ts[k].idx, ts[i].idx);
    }
  }

  /** A local second is the image of no UTC second exactly when some transition jumps over it. */
  lemma NoImageIff(z: Zone, local: int)
    requires Table(z)
    ensures (forall t :: LocalSeconds(z, t) != local) <==>
      (exists k :: 0 <= k < |z.transitions| && SkippedAt(z, k, local))
  {
    hide OffsetAt, Spaced;
    if k :| 0 <= k < |z.transitions| && SkippedAt(z, k, local) {
      forall t ensures LocalSeconds(z, t) != local {
        SkippedIsNoImage(z, k, local, t);
      }
    } else {
      var k := UpperBound(z.transitions, local, true);
      var t := local - OffBefore(z, k);
      assert k < |z.transitions| ==> !SkippedAt(z, k, local);
      PeriodOffset(z, t, k - 1);
      assert LocalSeconds(z, t) == local;
    }
  }

  /** For a local time jumped over, the two settings differ by exactly the jump, except at the first transition. */
  lemma SkippedDifference(z: Zone, k: int, dt: DateTime)
    requires Table(z) && 0 <= k < |z.transitions| && SkippedAt(z, k, FromUtcTime(dt))
    ensures
      FromLocalTime(z, dt, false) - FromLocalTime(z, dt, true) ==
      if k == 0 then 0 else z.transitions[k].local - (z.transitions[k].utc + OffBefore(z, k))
  {
    hide Spaced;
    hide FromUtcTime;
    var ts, local := z.transitions, FromUtcTime(dt);
    if k > 0 {
      Apart(z, k - 1, k, ts[k - 1].idx, ts[k - 1].idx);
      LocalUpperBound(z, local, k);
    }
  }

  /**
   Such a local time is read with the offset before the transition, and with postTransition with the one after it; at
   the first transition always with the one before.
   */
  lemma SkippedResolved(z: Zone, k: int, dt: DateTime, post: bool)
    requires Table(z) && 0 <= k < |z.transitions| && SkippedAt(z, k, FromUtcTime(dt))
    ensures
      FromLocalTime(z, dt, post) ==
      FromUtcTime(dt) - (if k > 0 && post then Off(z, k) else OffBefore(z, k))
  {
    hide Spaced, FromUtcTime;
    var ts, local := z.transitions, FromUtcTime(dt);
    if k > 0 {
      Apart(z, k - 1, k, ts[k - 1].idx, ts[k - 1].idx);
      LocalUpperBound(z, local, k);
    }
  }

  /** The count starts with 1970, and a second, minute or hour later is 1, 60 or 3600 more. */
  lemma EpochIsZero(h: int, m: int, s: int)
    ensures FromUtcTime(DateTime(1970, 1, 1, h, m, s)) == 3600 * h + 60 * m + s
  {
    EpochDay();
  }

  /** Both exceptions occur: an hour repeated at the only transition, whose early half is not returned. */
  lemma FirstRepeatIsLost()
    ensures
      var z := Zone([Transition(0, 0, 1)], [LocalTime(3600, true, 0), LocalTime(0, false, 0)]);
      Table(z) && Lost(z, -1) && !Returns(z, -1, false) && !Returns(z, -1, true)
  {
    var z := Zone([Transition(0, 0, 1)], [LocalTime(3600, true, 0), LocalTime(0, false, 0)]);
    assert EarlyHalf(z, 0, -1);
    ReturnsIff(z, -1);
  }

  /** And an hour skipped at the first transition, where the setting makes no difference. */
  lemma FirstSkipIgnoresSetting()
    ensures
      var z := Zone([Transition(0, 3600, 1)], [LocalTime(0, false, 0), LocalTime(3600, true, 0)]);
      var dt := DateTime(1970, 1, 1, 0, 30, 0);
      Table(z) && SkippedAt(z, 0, FromUtcTime(dt)) && FromLocalTime(z, dt, false) == FromLocalTime(z, dt, true)
  {
    var z := Zone([Transition(0, 3600, 1)], [LocalTime(0, false, 0), LocalTime(3600, true, 0)]);
    var dt := DateTime(1970, 1, 1, 0, 30, 0);
    EpochDay();
    assert FromUtcTime(dt) == 1800;
    SkippedDifference(z, 0, dt);
  }
}
