/** The fall latch that both accelerometer components run on every magnitude sample: a
    two-state detector with a free-fall threshold `low`, a reset threshold `reset` and an
    impact threshold `high`, and the append-only log of fall events it writes. The two
    components differ only in the thresholds, so the latch is written once here and each
    component owns one instance. */
module FallLatch {

  datatype Thresholds = Thresholds(low: real, reset: real, high: real)

  /** Both threshold schemes satisfy this ordering; it is what makes one call of the
      detector have at most one effect. */
  predicate Ordered(t: Thresholds)
  {
    t.low < t.reset < t.high
  }

  /** The four things one call can do. */
  datatype Outcome = Latch | EmitAndClear | SilentClear | NoChange

  /** One entry of the fall log: the time at which the impact was detected. */
  datatype FallLog = FallLog(timestamp: string)

  /** One magnitude handed to the detector, with the time the call would stamp on an event. */
  datatype Reading = Reading(magnitude: real, timestamp: string)

  /** Reference definition of one call, as a decision table on the state at entry. */
  function Step(t: Thresholds, latched: bool, m: real): Outcome
  {
    if !latched then
      if m < t.low then Latch else NoChange
    else if m > t.high then EmitAndClear
    else if t.reset < m < t.high then SilentClear
    else NoChange
  }

  function LatchedAfter(o: Outcome, latched: bool): bool
  {
    match o
    case Latch => true
    case EmitAndClear => false
    case SilentClear => false
    case NoChange => latched
  }

  /** The latch after one call. */
  function Next(t: Thresholds, latched: bool, m: real): bool
  {
    LatchedAfter(Step(t, latched, m), latched)
  }

  /** The latch after a whole sequence of readings, starting clear as a new component does. */
  function Final(t: Thresholds, rs: seq<Reading>): bool
  {
    if rs == [] then false
    else Next(t, Final(t, rs[..|rs| - 1]), rs[|rs| - 1].magnitude)
  }

  /** The fall log after a whole sequence of readings: one entry per emitting call, in the
      order of the calls, carrying that call's timestamp. */
  function Log(t: Thresholds, rs: seq<Reading>): seq<FallLog>
  {
    if rs == [] then []
    else
      var before := rs[..|rs| - 1];
      var r := rs[|rs| - 1];
      Log(t, before) + (if Step(t, Final(t, before), r.magnitude) == EmitAndClear then [FallLog(r.timestamp)] else [])
  }

  /** A clear latch is set exactly by a magnitude below `low`, and a clear latch never emits
      or resets: crossing `high` while clear logs nothing. */
  lemma ClearLatchSetsIff(t: Thresholds, m: real)
    ensures Step(t, false, m) == Latch <==> m < t.low
    ensures Step(t, false, m) == Latch || Step(t, false, m) == NoChange
    ensures Next(t, false, m) <==> m < t.low
  {
  }

  /** An event is emitted exactly when the latch was set on entry and `m > high`, and the
      latch is clear afterwards. */
  lemma EmitIff(t: Thresholds, latched: bool, m: real)
    ensures Step(t, latched, m) == EmitAndClear <==> latched && m > t.high
    ensures Step(t, latched, m) == EmitAndClear ==> !Next(t, latched, m)
  {
  }

  /** With the latch set, a magnitude strictly between `reset` and `high` clears it without an
      event, and the latch stays set exactly when `m <= reset` or `m == high`. */
  lemma SetLatchOutcomes(t: Thresholds, m: real)
    requires Ordered(t)
    ensures Step(t, true, m) == SilentClear <==> t.reset < m < t.high
    ensures Next(t, true, m) <==> m <= t.reset || m == t.high
    ensures m < t.low ==> Step(t, true, m) == NoChange
  {
  }

  /** Starting clear, readings that never drop below `low` never set the latch and never
      log an event. */
  lemma {:induction false} NoDipNoEvent(t: Thresholds, rs: seq<Reading>)
    requires forall i :: 0 <= i < |rs| ==> rs[i].magnitude >= t.low
    ensures !Final(t, rs)
    ensures Log(t, rs) == []
  {
    if rs != [] {
      var before := rs[..|rs| - 1];
      assert forall i :: 0 <= i < |before| ==> before[i] == rs[i];
      NoDipNoEvent(t, before);
    }
  }

  /** The latch was set after each of the readings `j + 1` to `i` (taken as prefixes). */
  ghost predicate HeldSince(t: Thresholds, rs: seq<Reading>, j: nat, i: nat)
    requires i <= |rs|
  {
    forall k :: j < k <= i ==> Final(t, rs[..k])
  }

  /** If the latch is set after the first `i` readings, some earlier reading `j` dipped below
      `low` and the latch has stayed set at every step since. */
  lemma {:induction false} LatchedSinceDip(t: Thresholds, rs: seq<Reading>, i: nat)
    requires i <= |rs|
    requires Final(t, rs[..i])
    ensures exists j :: 0 <= j < i && rs[j].magnitude < t.low && HeldSince(t, rs, j, i)
  {
    assert i > 0;
    var before := rs[..i][..i - 1];
    assert before == rs[..i - 1];
    assert rs[..i][i - 1] == rs[i - 1];
    if Final(t, rs[..i - 1]) {
      LatchedSinceDip(t, rs, i - 1);
      var j :| 0 <= j < i - 1 && rs[j].magnitude < t.low && HeldSince(t, rs, j, i - 1);
      assert HeldSince(t, rs, j, i);
    } else {
      assert rs[i - 1].magnitude < t.low;
      assert HeldSince(t, rs, i - 1, i);
    }
  }

  /** An event at reading `i` needs a fresh dip: there is an earlier reading below `low`
      after which the latch was never cleared, so no event lies between the two; the
      emitting reading itself is above `high`. */
  lemma EventNeedsFreshDip(t: Thresholds, rs: seq<Reading>, i: nat)
    requires i < |rs|
    requires Step(t, Final(t, rs[..i]), rs[i].magnitude) == EmitAndClear
    ensures rs[i].magnitude > t.high
    ensures exists j :: 0 <= j < i && rs[j].magnitude < t.low && HeldSince(t, rs, j, i)
  {
    LatchedSinceDip(t, rs, i);
  }

  /** A latch set after the first `k` readings stays set as long as no later reading is
      above `reset`: only a reset or an impact clears it. */
  lemma {:induction false} LatchHeldBelowReset(t: Thresholds, rs: seq<Reading>, k: nat)
    requires Ordered(t)
    requires k <= |rs|
    requires Final(t, rs[..k])
    requires forall i :: k <= i < |rs| ==> rs[i].magnitude <= t.reset
    ensures Final(t, rs)
  {
    if k < |rs| {
      var before := rs[..|rs| - 1];
      assert before[..k] == rs[..k];
      assert forall i :: k <= i < |before| ==> before[i] == rs[i];
      LatchHeldBelowReset(t, before, k);
      SetLatchOutcomes(t, rs[|rs| - 1].magnitude);
    } else {
      assert rs[..k] == rs;
    }
  }

  /** The log only grows at its end: the log of a prefix of the readings is a prefix of the
      log of all of them. */
  lemma {:induction false} LogPrefix(t: Thresholds, rs: seq<Reading>, k: nat)
    requires k <= |rs|
    ensures |Log(t, rs[..k])| <= |Log(t, rs)|
    ensures Log(t, rs[..k]) == Log(t, rs)[..|Log(t, rs[..k])|]
  {
    if k < |rs| {
      var before := rs[..|rs| - 1];
      assert rs[..k] == before[..k];
      LogPrefix(t, before, k);
    } else {
      assert rs[..k] == rs;
    }
  }

  /** Each reading adds at most one entry to the log. */
  lemma {:induction false} LogBounded(t: Thresholds, rs: seq<Reading>)
    ensures |Log(t, rs)| <= |rs|
  {
    if rs != [] {
      LogBounded(t, rs[..|rs| - 1]);
    }
  }

  /** The fall detector state of one component: the latch, the log, and, as a ghost, the
      readings handled so far. */
  class FallDetector {
    const thresholds: Thresholds
    var fallDetected: bool
    var fallLogs: seq<FallLog>
    ghost var history: seq<Reading>

    /** The latch and the log are those that the handled readings determine. */
    ghost predicate Valid()
      reads this
    {
      Ordered(thresholds) &&
      fallDetected == Final(thresholds, history) &&
      fallLogs == Log(thresholds, history)
    }

    constructor (t: Thresholds)
      requires Ordered(t)
      ensures Valid()
      ensures thresholds == t && !fallDetected && fallLogs == [] && history == []
    {
      thresholds := t;
      fallDetected := false;
      fallLogs := [];
      history := [];
    }

    /** Appends one event to the end of the log; nothing else changes. */
    method LogFallEvent(timestamp: string)
      modifies this
      ensures fallLogs == old(fallLogs) + [FallLog(timestamp)]
      ensures fallDetected == old(fallDetected) && history == old(history)
    {
      fallLogs := fallLogs + [FallLog(timestamp)];
    }

    /** One call of the detector on magnitude `m`: three sequential tests on the latch, whose
        combined effect is exactly one row of the decision table `Step`. */
    method HandleMagnitude(m: real, timestamp: string)
      requires Valid()
      modifies this
      ensures Valid()
      ensures history == old(history) + [Reading(m, timestamp)]
      ensures fallDetected == Next(thresholds, old(fallDetected), m)
      ensures fallLogs == old(fallLogs) +
        (if Step(thresholds, old(fallDetected), m) == EmitAndClear then [FallLog(timestamp)] else [])
    {
      if !fallDetected && m < thresholds.low {
        fallDetected := true;
      }
      if fallDetected && m > thresholds.high {
        LogFallEvent(timestamp);
        fallDetected := false;
      }
      if fallDetected && thresholds.reset < m && m < thresholds.high {
        fallDetected := false;
      }
      history := history + [Reading(m, timestamp)];
      assert history[..|history| - 1] == old(history);
    }
  }
}
