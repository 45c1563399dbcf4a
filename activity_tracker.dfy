/** The activity tracker: an ordered list of activities and one session
    counter, changed by start, pause, stop and a one-second tick, and the
    values the page derives from them. */
module ActivityTracker {
  import opened Wrappers
  import opened Text
  import opened Arithmetic

  /** One tracked activity. `duration` is the committed time in seconds;
      `startTime` is the timestamp (in milliseconds) of the last start. */
  datatype Activity = Activity(
    id: string,
    name: string,
    category: string,
    duration: nat,
    startTime: Option<int>,
    isActive: bool)

  /** The component's two state cells. */
  datatype TrackerState = TrackerState(activities: seq<Activity>, currentTime: nat)

  /** The four ways the state changes: the three buttons and the interval tick.
      `now` is the clock reading `new Date()` takes at a start. */
  datatype Op = Start(id: string, now: int) | Pause(id: string) | Stop(id: string) | Tick

  /** The three activities the tracker begins with. */
  function Fixture(): seq<Activity> {
    [ Activity("1", "CS Study Session", "study-cs", 0, None, false),
      Activity("2", "Gym Workout", "gym", 0, None, false),
      Activity("3", "Reading Time", "reading", 0, None, false) ]
  }

  function Initial(): TrackerState {
    TrackerState(Fixture(), 0)
  }

  // ---------------------------------------------------------------------
  // Invariants and relations between activity lists

  predicate UniqueIds(acts: seq<Activity>) {
    forall i, j :: 0 <= i < j < |acts| ==> acts[i].id != acts[j].id
  }

  predicate AtMostOneActive(acts: seq<Activity>) {
    forall i, j :: 0 <= i < j < |acts| && acts[i].isActive ==> !acts[j].isActive
  }

  /** Same length, and the same id, name and category at every position. */
  predicate SameRecords(a: seq<Activity>, b: seq<Activity>) {
    |a| == |b| &&
    forall i :: 0 <= i < |a| ==>
      a[i].id == b[i].id && a[i].name == b[i].name && a[i].category == b[i].category
  }

  /** Same length, and no duration smaller in `b` than in `a`. */
  predicate DurationsGrow(a: seq<Activity>, b: seq<Activity>) {
    |a| == |b| && forall i :: 0 <= i < |a| ==> a[i].duration <= b[i].duration
  }

  predicate SameDurations(a: seq<Activity>, b: seq<Activity>) {
    |a| == |b| && forall i :: 0 <= i < |a| ==> a[i].duration == b[i].duration
  }

  /** How many activities carry the id. */
  function CountId(acts: seq<Activity>, id: string): nat {
    if acts == [] then 0
    else CountId(acts[..|acts| - 1], id) + (if acts[|acts| - 1].id == id then 1 else 0)
  }

  // ---------------------------------------------------------------------
  // Transitions

  /** `startActivity(id)` on the list: every activity becomes active exactly
      when its id is `id`, the target's start time becomes `now`, and the
      other activities keep their start times, active or not. */
  function StartAll(acts: seq<Activity>, id: string, now: int): (r: seq<Activity>)
    ensures SameRecords(acts, r) && SameDurations(acts, r)
    ensures forall i :: 0 <= i < |r| ==> r[i].isActive == (acts[i].id == id)
    ensures forall i :: 0 <= i < |r| && acts[i].id == id ==> r[i].startTime == Some(now)
    ensures forall i :: 0 <= i < |r| && acts[i].id != id ==> r[i].startTime == acts[i].startTime
  {
    seq(|acts|, i requires 0 <= i < |acts| =>
      acts[i].(isActive := acts[i].id == id,
               startTime := if acts[i].id == id then Some(now) else acts[i].startTime))
  }

  /** `pauseActivity(id)` (and the list half of `stopActivity(id)`): every
      activity with the id gets `elapsed` added to its duration and stops
      being active, whether it was active or not; the others are untouched. */
  function PauseAll(acts: seq<Activity>, id: string, elapsed: nat): (r: seq<Activity>)
    ensures SameRecords(acts, r) && DurationsGrow(acts, r)
    ensures forall i :: 0 <= i < |r| && acts[i].id == id ==>
      r[i].duration == acts[i].duration + elapsed && !r[i].isActive && r[i].startTime == acts[i].startTime
    ensures forall i :: 0 <= i < |r| && acts[i].id != id ==> r[i] == acts[i]
  {
    seq(|acts|, i requires 0 <= i < |acts| =>
      if acts[i].id == id then acts[i].(isActive := false, duration := acts[i].duration + elapsed)
      else acts[i])
  }

  /** One transition of the tracker. Start and stop reset the session
      counter, pause keeps it, and the tick adds one second unconditionally. */
  function Step(s: TrackerState, op: Op): (t: TrackerState)
    ensures SameRecords(s.activities, t.activities)
    ensures DurationsGrow(s.activities, t.activities)
  {
    match op
    case Start(id, now) => TrackerState(StartAll(s.activities, id, now), 0)
    case Pause(id) => TrackerState(PauseAll(s.activities, id, s.currentTime), s.currentTime)
    case Stop(id) => TrackerState(PauseAll(s.activities, id, s.currentTime), 0)
    case Tick => s.(currentTime := s.currentTime + 1)
  }

  /** The state after the operations, in order. No run adds, removes,
      reorders or renames an activity, and none lowers a duration. */
  function Run(s: TrackerState, ops: seq<Op>): (t: TrackerState)
    ensures SameRecords(s.activities, t.activities)
    ensures DurationsGrow(s.activities, t.activities)
    decreases |ops|
  {
    if ops == [] then s else Run(Step(s, ops[0]), ops[1..])
  }

  function Ticks(n: nat): seq<Op> {
    seq(n, _ => Tick)
  }

  // ---------------------------------------------------------------------
  // Derived values

  /** `activities.find(a => a.isActive)`: the first active activity. */
  function FirstActive(acts: seq<Activity>): (r: Option<Activity>)
    ensures r.None? <==> forall i :: 0 <= i < |acts| ==> !acts[i].isActive
    ensures r.Some? ==> r.value.isActive
    ensures r.Some? ==>
      exists i :: 0 <= i < |acts| && acts[i] == r.value && forall j :: 0 <= j < i ==> !acts[j].isActive
  {
    if acts == [] then None
    else if acts[0].isActive then Some(acts[0])
    else
      var r := FirstActive(acts[1..]);
      assert r.Some? ==> exists i :: 0 <= i < |acts| && acts[i] == r.value && forall j :: 0 <= j < i ==> !acts[j].isActive by {
        if r.Some? {
          var i :| 0 <= i < |acts[1..]| && acts[1..][i] == r.value && forall j :: 0 <= j < i ==> !acts[1..][j].isActive;
          assert acts[i + 1] == r.value && forall j :: 0 <= j < i + 1 ==> !acts[j].isActive;
        }
      }
      r
  }

  /** `activities.reduce((sum, a) => sum + a.duration, 0)`. */
  function TotalTime(acts: seq<Activity>): nat {
    if acts == [] then 0
    else TotalTime(acts[..|acts| - 1]) + acts[|acts| - 1].duration
  }

  /** The total is at least every single duration, and 0 exactly when every duration is. */
  lemma {:induction false} TotalTimeBounds(acts: seq<Activity>)
    ensures forall i :: 0 <= i < |acts| ==> acts[i].duration <= TotalTime(acts)
    ensures TotalTime(acts) == 0 <==> forall i :: 0 <= i < |acts| ==> acts[i].duration == 0
    decreases |acts|
  {
    if acts != [] {
      var pre := acts[..|acts| - 1];
      TotalTimeBounds(pre);
      assert forall i :: 0 <= i < |pre| ==> pre[i] == acts[i];
    }
  }

  /** `activities.filter(a => a.duration > 0).length`. */
  function CompletedCount(acts: seq<Activity>): (r: nat)
    ensures r <= |acts|
    ensures r == 0 <==> forall i :: 0 <= i < |acts| ==> acts[i].duration == 0
    ensures r == |acts| <==> forall i :: 0 <= i < |acts| ==> acts[i].duration > 0
  {
    if acts == [] then 0
    else CompletedCount(acts[..|acts| - 1]) + (if acts[|acts| - 1].duration > 0 then 1 else 0)
  }

  /** The positions of activities with time on them. */
  function CompletedPositions(acts: seq<Activity>): set<nat> {
    set i: nat | i < |acts| && acts[i].duration > 0
  }

  /** The positions of a list are those of the list without its last
      element, plus the last position when its activity has time on it. */
  lemma PositionsStep(acts: seq<Activity>)
    requires acts != []
    ensures var n := |acts| - 1;
      n !in CompletedPositions(acts[..n]) &&
      CompletedPositions(acts) ==
        CompletedPositions(acts[..n]) + (if acts[n].duration > 0 then {n} else {})
  {
    var n := |acts| - 1;
    var p := acts[..n];
    assert forall i :: 0 <= i < n ==> p[i] == acts[i];
  }

  /** The count is the number of positions holding an activity with time on it. */
  lemma {:induction false} CompletedCountIsPositions(acts: seq<Activity>)
    ensures CompletedCount(acts) == |CompletedPositions(acts)|
    decreases |acts|
  {
    if acts != [] {
      var n := |acts| - 1;
      CompletedCountIsPositions(acts[..n]);
      PositionsStep(acts);
    }
  }

  // ---------------------------------------------------------------------
  // formatTime: HH:MM:SS

  /** Hours, minutes and seconds of a number of seconds, as formatTime
      computes them with floor division and remainder. */
  function Hms(seconds: nat): (t: (nat, nat, nat))
    ensures t.0 * 3600 + t.1 * 60 + t.2 == seconds
    ensures t.1 < 60 && t.2 < 60
    ensures seconds < 360000 <==> t.0 < 100
  {
    var hours := seconds / 3600;
    var rest := seconds % 3600;
    var minutes := rest / 60;
    assert seconds == 60 * (60 * hours + minutes) + rest % 60;
    assert seconds % 60 == rest % 60;
    (hours, minutes, seconds % 60)
  }

  /** Hours, minutes below 60 and seconds below 60 are exactly what `Hms`
      recovers from their total. */
  lemma HmsUnique(h: nat, m: nat, s: nat)
    requires m < 60 && s < 60
    ensures Hms(h * 3600 + m * 60 + s) == (h, m, s)
  {
    var t := Hms(h * 3600 + m * 60 + s);
    DivUnique(t.0, t.1 * 60 + t.2, h, m * 60 + s, 3600);
    DivUnique(t.1, t.2, m, s, 60);
  }

  /** Reads an `HH:MM:SS` display back as seconds: three colon-separated
      fields as `padStart(2, '0')` writes them (two digits, or more without
      a leading zero, for the hours; exactly two for minutes and seconds),
      minutes and seconds below 60. */
  function ParseClock(text: string): Option<nat> {
    var f := Split(text, ':');
    if ClockFieldsValid(f)
    then Some(ValueOf(f[0]) * 3600 + ValueOf(f[1]) * 60 + ValueOf(f[2]))
    else None
  }

  /** Hours, minutes and seconds fields of a clock display. */
  predicate ClockFieldsValid(f: seq<string>) {
    |f| == 3 && PaddedField(f[0])
    && |f[1]| == 2 && AllDigits(f[1]) && ValueOf(f[1]) < 60
    && |f[2]| == 2 && AllDigits(f[2]) && ValueOf(f[2]) < 60
  }

  /** Hours, minutes and seconds, each padded to two digits, colon separated. */
  function ClockText(h: nat, m: nat, s: nat): (r: string)
    requires m < 100 && s < 100
    ensures |r| >= 8 && r[|r| - 6] == ':' && r[|r| - 3] == ':'
    ensures h < 100 <==> |r| == 8
  {
    var a, b, c := TwoDigits(h), TwoDigits(m), TwoDigits(s);
    var r := a + ":" + b + ":" + c;
    assert |r| == |a| + 6 && r[|a|] == ':' && r[|a| + 3] == ':';
    r
  }

  /** Three padded fields, joined by colons, read back as their total in seconds. */
  lemma ClockRoundTrip(h: nat, m: nat, s: nat, seconds: nat)
    requires m < 60 && s < 60 && seconds == h * 3600 + m * 60 + s
    ensures ParseClock(ClockText(h, m, s)) == Some(seconds)
  {
    var a, b, c := TwoDigits(h), TwoDigits(m), TwoDigits(s);
    assert ':' !in a && ':' !in b && ':' !in c;
    SplitWhole(c, ':');
    SplitAt(b, ':', c);
    SplitAt(a, ':', b + ":" + c);
    assert ClockText(h, m, s) == a + [':'] + (b + [':'] + c);
  }

  /** `formatTime(seconds)`: each field padded to two digits, colon separated.
      Hours are not capped, so the display grows past 99 hours. The display
      reads back as exactly the seconds it was given. */
  function FormatTime(seconds: nat): (r: string)
    ensures ParseClock(r) == Some(seconds)
    ensures |r| >= 8 && r[|r| - 6] == ':' && r[|r| - 3] == ':'
    ensures seconds < 360000 <==> |r| == 8
  {
    var t := Hms(seconds);
    ClockRoundTrip(t.0, t.1, t.2, seconds);
    ClockText(t.0, t.1, t.2)
  }

  /** Padded hours, then two-digit minutes and seconds, joined by colons, are
      the clock text of their values. */
  lemma FieldsAreClockText(f: seq<string>)
    requires ClockFieldsValid(f)
    ensures ClockText(ValueOf(f[0]), ValueOf(f[1]), ValueOf(f[2])) == f[0] + ":" + f[1] + ":" + f[2]
  {
    PaddedIsTwoDigits(f[0]);
    PaddedIsTwoDigits(f[1]);
    PaddedIsTwoDigits(f[2]);
  }

  /** The reader accepts no other text: whatever `ParseClock` reads as a
      number of seconds is the display of that number. */
  lemma ParseClockOnlyDisplay(text: string)
    requires ParseClock(text).Some?
    ensures text == FormatTime(ParseClock(text).value)
  {
    var h, m, s := ClockFields(text);
    HmsUnique(h, m, s);
    DisplayOfFields(h, m, s, ParseClock(text).value);
  }

  /** A text the clock reader accepts is the clock text of the fields it reads. */
  lemma ClockFields(text: string) returns (h: nat, m: nat, s: nat)
    requires ParseClock(text).Some?
    ensures m < 60 && s < 60 && ParseClock(text) == Some(h * 3600 + m * 60 + s)
    ensures text == ClockText(h, m, s)
  {
    var f := Split(text, ':');
    SplitThree(text, ':');
    FieldsAreClockText(f);
    h, m, s := ValueOf(f[0]), ValueOf(f[1]), ValueOf(f[2]);
  }

  /** The display of a total is the clock text of the fields `Hms` recovers from it. */
  lemma DisplayOfFields(h: nat, m: nat, s: nat, seconds: nat)
    requires m < 60 && s < 60 && seconds == h * 3600 + m * 60 + s
    requires Hms(seconds) == (h, m, s)
    ensures FormatTime(seconds) == ClockText(h, m, s)
  {
  }

  /** Different numbers of seconds never share a display. */
  lemma FormatTimeInjective(x: nat, y: nat)
    ensures FormatTime(x) == FormatTime(y) ==> x == y
  {
  }

  /** An hour, a minute and a second. */
  lemma FormatTimeExample()
    ensures FormatTime(3661) == "01:01:01"
  {
    assert TwoDigits(1) == "01" by {
      assert Decimal(1) == "1";
    }
    HmsUnique(1, 1, 1);
    DisplayOfFields(1, 1, 1, 3661);
  }

  /** The idle display. */
  lemma FormatTimeZero()
    ensures FormatTime(0) == "00:00:00"
  {
    assert TwoDigits(0) == "00" by {
      assert Decimal(0) == "0";
    }
    HmsUnique(0, 0, 0);
    DisplayOfFields(0, 0, 0, 0);
  }

  /** The "Current Session" card: the session counter while some activity is
      active, and a zero display otherwise (a paused session's count is hidden). */
  function SessionDisplay(s: TrackerState): (r: string)
    ensures ParseClock(r) == Some(if FirstActive(s.activities).Some? then s.currentTime else 0)
    ensures |r| == 8 <== s.currentTime < 360000
  {
    FormatTimeZero();
    if FirstActive(s.activities).Some? then FormatTime(s.currentTime) else "00:00:00"
  }

  // ---------------------------------------------------------------------
  // Invariants of every run

  /** With unique ids, a start leaves at most one activity active, whatever
      was active before. */
  lemma StartLeavesOneActive(acts: seq<Activity>, id: string, now: int)
    requires UniqueIds(acts)
    ensures AtMostOneActive(StartAll(acts, id, now))
  {
    var r := StartAll(acts, id, now);
    forall i, j | 0 <= i < j < |r| && r[i].isActive
      ensures !r[j].isActive
    {
      assert acts[i].id == id;
    }
  }

  /** One step keeps ids unique and keeps at most one activity active. */
  lemma StepInvariants(s: TrackerState, op: Op)
    requires UniqueIds(s.activities) && AtMostOneActive(s.activities)
    ensures UniqueIds(Step(s, op).activities) && AtMostOneActive(Step(s, op).activities)
  {
    if op.Start? {
      StartLeavesOneActive(s.activities, op.id, op.now);
    }
  }

  /** From any state with unique ids and at most one activity active, every
      run keeps both. */
  lemma {:induction false} RunInvariants(s: TrackerState, ops: seq<Op>)
    requires UniqueIds(s.activities) && AtMostOneActive(s.activities)
    ensures UniqueIds(Run(s, ops).activities) && AtMostOneActive(Run(s, ops).activities)
    decreases |ops|
  {
    if ops != [] {
      StepInvariants(s, ops[0]);
      RunInvariants(Step(s, ops[0]), ops[1..]);
    }
  }

  /** Whatever the user does from the initial page, at most one activity is
      active, and the three activities stay in place under their ids. */
  lemma FixtureRunInvariants(ops: seq<Op>)
    ensures AtMostOneActive(Run(Initial(), ops).activities)
    ensures SameRecords(Fixture(), Run(Initial(), ops).activities)
  {
    RunInvariants(Initial(), ops);
  }

  /** `Run` over two lists of operations is the second run from the state the first reaches. */
  lemma {:induction false} RunAppend(s: TrackerState, a: seq<Op>, b: seq<Op>)
    ensures Run(s, a + b) == Run(Run(s, a), b)
    decreases |a|
  {
    if a == [] {
      assert a + b == b;
    } else {
      assert (a + b)[0] == a[0] && (a + b)[1..] == a[1..] + b;
      RunAppend(Step(s, a[0]), a[1..], b);
    }
  }

  /** `n` ticks add `n` to the session counter and change nothing else. */
  lemma {:induction false} RunTicks(s: TrackerState, n: nat)
    ensures Run(s, Ticks(n)) == s.(currentTime := s.currentTime + n)
    decreases n
  {
    if n > 0 {
      assert Ticks(n)[0] == Tick && Ticks(n)[1..] == Ticks(n - 1);
      RunTicks(Step(s, Tick), n - 1);
    }
  }

  /** A timed session: start an activity, let `n` seconds pass, then pause
      it. The activity's duration grows by exactly `n`, no other duration
      changes, nothing is left active and the counter still shows `n`.
      Stopping instead gives the same list and a zero counter. */
  lemma TimedSession(s: TrackerState, i: nat, now: int, n: nat)
    requires UniqueIds(s.activities) && i < |s.activities|
    ensures var id := s.activities[i].id;
      var paused := Run(s, [Start(id, now)] + Ticks(n) + [Pause(id)]);
      var stopped := Run(s, [Start(id, now)] + Ticks(n) + [Stop(id)]);
      && paused.activities[i].duration == s.activities[i].duration + n
      && (forall j :: 0 <= j < |s.activities| && j != i ==>
            paused.activities[j].duration == s.activities[j].duration)
      && FirstActive(paused.activities) == None
      && paused.currentTime == n
      && stopped.activities == paused.activities
      && stopped.currentTime == 0
  {
    var id := s.activities[i].id;
    var started := Step(s, Start(id, now));
    RunTicks(started, n);
    var running := started.(currentTime := n);
    assert Run(s, [Start(id, now)]) == started;
    RunAppend(s, [Start(id, now)], Ticks(n));
    RunAppend(s, [Start(id, now)] + Ticks(n), [Pause(id)]);
    RunAppend(s, [Start(id, now)] + Ticks(n), [Stop(id)]);
    assert Run(running, [Pause(id)]) == Step(running, Pause(id));
    assert Run(running, [Stop(id)]) == Step(running, Stop(id));
    var paused := Step(running, Pause(id));
    forall j | 0 <= j < |paused.activities|
      ensures !paused.activities[j].isActive
    {
      if j != i {
        assert s.activities[j].id != id;
      }
    }
  }

  // ---------------------------------------------------------------------
  // The derived values across transitions

  /** With at most one activity active, `find` returns that one. */
  lemma {:induction false} FirstActiveIsTheActive(acts: seq<Activity>, i: nat)
    requires AtMostOneActive(acts) && i < |acts| && acts[i].isActive
    ensures FirstActive(acts) == Some(acts[i])
  {
    if i > 0 {
      assert !acts[0].isActive;
      assert AtMostOneActive(acts[1..]);
      FirstActiveIsTheActive(acts[1..], i - 1);
    }
  }

  /** After starting a known id, the running activity is the started one;
      after starting an unknown id, nothing is running. */
  lemma StartThenRunning(acts: seq<Activity>, id: string, now: int)
    requires UniqueIds(acts)
    ensures forall i :: 0 <= i < |acts| && acts[i].id == id ==>
      FirstActive(StartAll(acts, id, now)) == Some(acts[i].(isActive := true, startTime := Some(now)))
    ensures (forall i :: 0 <= i < |acts| ==> acts[i].id != id) ==>
      FirstActive(StartAll(acts, id, now)) == None
  {
    var r := StartAll(acts, id, now);
    StartLeavesOneActive(acts, id, now);
    forall i | 0 <= i < |acts| && acts[i].id == id
      ensures FirstActive(r) == Some(acts[i].(isActive := true, startTime := Some(now)))
    {
      FirstActiveIsTheActive(r, i);
    }
  }

  lemma {:induction false} TotalOfSameDurations(a: seq<Activity>, b: seq<Activity>)
    requires SameDurations(a, b)
    ensures TotalTime(a) == TotalTime(b)
    decreases |a|
  {
    if a != [] {
      TotalOfSameDurations(a[..|a| - 1], b[..|b| - 1]);
    }
  }

  /** The total only grows when no duration shrinks. */
  lemma {:induction false} TotalGrows(a: seq<Activity>, b: seq<Activity>)
    requires DurationsGrow(a, b)
    ensures TotalTime(a) <= TotalTime(b)
    decreases |a|
  {
    if a != [] {
      TotalGrows(a[..|a| - 1], b[..|b| - 1]);
    }
  }

  /** Pausing adds the session counter once per activity with the id. */
  lemma {:induction false} PauseAddsToTotal(acts: seq<Activity>, id: string, elapsed: nat)
    ensures TotalTime(PauseAll(acts, id, elapsed)) == TotalTime(acts) + elapsed * CountId(acts, id)
    decreases |acts|
  {
    if acts != [] {
      var pre := acts[..|acts| - 1];
      var last := acts[|acts| - 1];
      var c := CountId(pre, id);
      var added := if last.id == id then elapsed else 0;
      PauseLast(acts, id, elapsed);
      PauseAddsToTotal(pre, id, elapsed);
      assert CountId(acts, id) == c + (if last.id == id then 1 else 0);
      assert TotalTime(acts) == TotalTime(pre) + last.duration;
      if last.id == id {
        MulSucc(elapsed, c);
      }
      assert elapsed * CountId(acts, id) == elapsed * c + added;
    }
  }

  /** Pausing a list adds `elapsed` to the total of its last activity when it carries the id. */
  lemma PauseLast(acts: seq<Activity>, id: string, elapsed: nat)
    requires acts != []
    ensures TotalTime(PauseAll(acts, id, elapsed)) ==
      TotalTime(PauseAll(acts[..|acts| - 1], id, elapsed)) + acts[|acts| - 1].duration +
      (if acts[|acts| - 1].id == id then elapsed else 0)
  {
    PausePrefix(acts, id, elapsed);
  }

  lemma MulSucc(e: nat, c: nat)
    ensures e * (c + 1) == e * c + e
  {
  }

  lemma PausePrefix(acts: seq<Activity>, id: string, elapsed: nat)
    requires acts != []
    ensures PauseAll(acts, id, elapsed)[..|acts| - 1] == PauseAll(acts[..|acts| - 1], id, elapsed)
  {
  }

  /** Starting and ticking never change the total. */
  lemma StartTickKeepTotal(s: TrackerState, op: Op)
    requires op.Start? || op.Tick?
    ensures TotalTime(Step(s, op).activities) == TotalTime(s.activities)
  {
    if op.Start? {
      TotalOfSameDurations(s.activities, StartAll(s.activities, op.id, op.now));
    }
  }

  /** Pausing or stopping an id that occurs once adds the session counter to the total. */
  lemma PauseCommitsSession(acts: seq<Activity>, id: string, elapsed: nat)
    requires CountId(acts, id) == 1
    ensures TotalTime(PauseAll(acts, id, elapsed)) == TotalTime(acts) + elapsed
  {
    PauseAddsToTotal(acts, id, elapsed);
    MulSucc(elapsed, 0);
  }

  /** With unique ids, an id occurs at most once, and exactly once when present. */
  lemma {:induction false} CountUniqueId(acts: seq<Activity>, i: nat)
    requires UniqueIds(acts) && i < |acts|
    ensures CountId(acts, acts[i].id) == 1
    decreases |acts|
  {
    var n := |acts|;
    var pre := acts[..n - 1];
    if i == n - 1 {
      CountAbsentId(pre, acts[i].id);
    } else {
      CountUniqueId(pre, i);
    }
  }

  lemma {:induction false} CountAbsentId(acts: seq<Activity>, id: string)
    requires forall i :: 0 <= i < |acts| ==> acts[i].id != id
    ensures CountId(acts, id) == 0
    decreases |acts|
  {
    if acts != [] {
      CountAbsentId(acts[..|acts| - 1], id);
    }
  }

  /** The completed count never falls when no duration shrinks. */
  lemma {:induction false} CompletedGrows(a: seq<Activity>, b: seq<Activity>)
    requires DurationsGrow(a, b)
    ensures CompletedCount(a) <= CompletedCount(b)
    decreases |a|
  {
    if a != [] {
      CompletedGrows(a[..|a| - 1], b[..|b| - 1]);
    }
  }

  // ---------------------------------------------------------------------
  // The component

  /** The tracker's state cells and the handlers that replace them. */
  class Tracker {
    var activities: seq<Activity>
    var currentTime: nat

    ghost predicate Valid()
      reads this
    {
      UniqueIds(activities) && AtMostOneActive(activities)
    }

    function State(): TrackerState
      reads this
    {
      TrackerState(activities, currentTime)
    }

    /** `activeActivity`: under the invariant the handlers keep, the one
        running activity, whichever position it is at. */
    function ActiveActivity(): (r: Option<Activity>)
      reads this
      requires Valid()
      ensures forall i :: 0 <= i < |activities| && activities[i].isActive ==> r == Some(activities[i])
      ensures r.None? <==> forall i :: 0 <= i < |activities| ==> !activities[i].isActive
    {
      assert forall i :: 0 <= i < |activities| && activities[i].isActive ==>
          FirstActive(activities) == Some(activities[i]) by {
        forall i | 0 <= i < |activities| && activities[i].isActive
          ensures FirstActive(activities) == Some(activities[i])
        {
          FirstActiveIsTheActive(activities, i);
        }
      }
      FirstActive(activities)
    }

    constructor ()
      ensures Valid()
      ensures activities == Fixture() && currentTime == 0
    {
      activities := Fixture();
      currentTime := 0;
    }

    /** `startActivity(id)`. */
    method StartActivity(id: string, now: int)
      modifies this
      ensures activities == StartAll(old(activities), id, now) && currentTime == 0
      ensures State() == Step(old(State()), Start(id, now))
      ensures old(Valid()) ==> Valid()
    {
      ghost var before := State();
      activities := StartAll(activities, id, now);
      currentTime := 0;
      if UniqueIds(before.activities) && AtMostOneActive(before.activities) {
        StepInvariants(before, Start(id, now));
      }
    }

    /** `pauseActivity(id)`: commits the session counter and keeps it. */
    method PauseActivity(id: string)
      modifies this
      ensures activities == PauseAll(old(activities), id, old(currentTime))
      ensures currentTime == old(currentTime)
      ensures State() == Step(old(State()), Pause(id))
      ensures old(Valid()) ==> Valid()
    {
      ghost var before := State();
      activities := PauseAll(activities, id, currentTime);
      if UniqueIds(before.activities) && AtMostOneActive(before.activities) {
        StepInvariants(before, Pause(id));
      }
    }

    /** `stopActivity(id)`: commits the session counter and zeroes it. */
    method StopActivity(id: string)
      modifies this
      ensures activities == PauseAll(old(activities), id, old(currentTime))
      ensures currentTime == 0
      ensures State() == Step(old(State()), Stop(id))
      ensures old(Valid()) ==> Valid()
    {
      ghost var before := State();
      activities := PauseAll(activities, id, currentTime);
      currentTime := 0;
      if UniqueIds(before.activities) && AtMostOneActive(before.activities) {
        StepInvariants(before, Stop(id));
      }
    }

    /** The interval callback: one more second, whether or not anything is active. */
    method Tick()
      modifies this
      ensures activities == old(activities) && currentTime == old(currentTime) + 1
      ensures State() == Step(old(State()), Op.Tick)
      ensures old(Valid()) ==> Valid()
    {
      currentTime := currentTime + 1;
    }
  }
}
