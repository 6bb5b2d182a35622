/** The accelerometer-only fall detection component. Every raw sample is turned into
    (x, y, z, norm), all four fields are smoothed against the stored sample by the low-pass
    filter, samples whose smoothed magnitude is not positive are dropped, and each remaining
    sample is stored and its smoothed magnitude handed to the fall latch with the thresholds
    1.0 (free fall), 9.8 (reset) and 15.0 (impact). */
module FallDetection {
  import opened Signal
  import opened FallLatch

  const FALL_DETECTION_THRESHOLDS: Thresholds := Thresholds(1.0, 9.8, 15.0)

  lemma ThresholdsOrdered()
    ensures Ordered(FALL_DETECTION_THRESHOLDS)
  {
  }

  /** The filter of this component: each of the four fields is smoothed separately against
      the stored sample; the magnitude is smoothed as a scalar of its own, not recomputed from
      the smoothed axes. */
  function ApplyLowPassFilter(prevData: AccelSample, newData: AccelSample): (r: AccelSample)
    ensures Between(prevData.x, newData.x, r.x)
    ensures Between(prevData.y, newData.y, r.y)
    ensures Between(prevData.z, newData.z, r.z)
    ensures Between(prevData.magnitude, newData.magnitude, r.magnitude)
    ensures prevData.magnitude >= 0.0 && newData.magnitude >= 0.0 ==> r.magnitude >= 0.0
  {
    AccelSample(Smooth(ALPHA, prevData.x, newData.x), Smooth(ALPHA, prevData.y, newData.y),
                Smooth(ALPHA, prevData.z, newData.z), Smooth(ALPHA, prevData.magnitude, newData.magnitude))
  }

  /** Each field moves a tenth of the way from the stored value to the raw one, so for a
      constant input the distance to it is multiplied by 0.9. */
  lemma FilterErrorShrinks(prevData: AccelSample, newData: AccelSample)
    ensures Abs(ApplyLowPassFilter(prevData, newData).x - newData.x) == 0.9 * Abs(prevData.x - newData.x)
    ensures Abs(ApplyLowPassFilter(prevData, newData).y - newData.y) == 0.9 * Abs(prevData.y - newData.y)
    ensures Abs(ApplyLowPassFilter(prevData, newData).z - newData.z) == 0.9 * Abs(prevData.z - newData.z)
    ensures Abs(ApplyLowPassFilter(prevData, newData).magnitude - newData.magnitude)
         == 0.9 * Abs(prevData.magnitude - newData.magnitude)
  {
    ConstantInputErrorShrinks(prevData.x, newData.x);
    ConstantInputErrorShrinks(prevData.y, newData.y);
    ConstantInputErrorShrinks(prevData.z, newData.z);
    ConstantInputErrorShrinks(prevData.magnitude, newData.magnitude);
  }

  /** The stream in front of the handler: the raw norm is computed, the sample is filtered
      against the stored one, and it is passed on only if the filtered magnitude is positive.
      With a non-negative stored magnitude, a sample is dropped exactly when the stored
      magnitude is zero and the raw vector is the zero vector. */
  function AccelPipeline(prevData: AccelSample, x: real, y: real, z: real, magnitude: real)
    : (r: Option<AccelSample>)
    requires IsNorm(magnitude, x, y, z)
    ensures r.Some? ==> r.value == ApplyLowPassFilter(prevData, AccelSample(x, y, z, magnitude))
    ensures r.Some? ==> r.value.magnitude > 0.0
    ensures prevData.magnitude >= 0.0 ==>
      (r.None? <==> prevData.magnitude == 0.0 && x == 0.0 && y == 0.0 && z == 0.0)
  {
    NormPositiveIff(magnitude, x, y, z);
    var filtered := ApplyLowPassFilter(prevData, AccelSample(x, y, z, magnitude));
    if filtered.magnitude > 0.0 then Some(filtered) else None
  }

  /** Once a sample has been stored the stored magnitude is positive, and from then on no
      sample is ever dropped. */
  lemma NoDropOnceStarted(prevData: AccelSample, x: real, y: real, z: real, magnitude: real)
    requires IsNorm(magnitude, x, y, z)
    requires prevData.magnitude > 0.0
    ensures AccelPipeline(prevData, x, y, z, magnitude).Some?
    ensures AccelPipeline(prevData, x, y, z, magnitude).value.magnitude >= 0.9 * prevData.magnitude
  {
  }

  /** A device at rest (raw magnitude below 10) sets the free-fall latch on the very first
      sample: from the zero initial state the filtered magnitude is a tenth of the raw one. */
  lemma StartupLatches(x: real, y: real, z: real, magnitude: real)
    requires IsNorm(magnitude, x, y, z)
    requires 0.0 < magnitude < 10.0
    ensures AccelPipeline(ACCEL_AT_REST, x, y, z, magnitude).Some?
    ensures AccelPipeline(ACCEL_AT_REST, x, y, z, magnitude).value.magnitude < 1.0
    ensures Step(FALL_DETECTION_THRESHOLDS, false, AccelPipeline(ACCEL_AT_REST, x, y, z, magnitude).value.magnitude) == Latch
  {
  }

  /** While raw magnitudes stay at or below the reset threshold 9.8, the filtered magnitude
      stays at or below it too, so a set latch is never reset; only an impact clears it. */
  lemma LatchHeldWhileResting(prevData: AccelSample, x: real, y: real, z: real, magnitude: real)
    requires IsNorm(magnitude, x, y, z)
    requires 0.0 <= prevData.magnitude <= 9.8 && magnitude <= 9.8
    ensures var r := AccelPipeline(prevData, x, y, z, magnitude);
      r.Some? ==> r.value.magnitude <= 9.8 && Next(FALL_DETECTION_THRESHOLDS, true, r.value.magnitude)
  {
  }

  /** One raw accelerometer sample as it arrives, with the time its call would stamp. */
  datatype Arrival = Arrival(sample: AccelSample, timestamp: string)

  /** Every arriving sample carries the norm of its axes. */
  ghost predicate AllNorms(arrivals: seq<Arrival>)
  {
    forall i :: 0 <= i < |arrivals| ==>
      IsNorm(arrivals[i].sample.magnitude, arrivals[i].sample.x, arrivals[i].sample.y, arrivals[i].sample.z)
  }

  /** The readings the latch is handed for a run of arrivals, starting from the stored sample
      `prevData`: each arrival goes through the pipeline, and a sample that gets through
      becomes the stored sample for the next one. */
  ghost function PipelineRun(prevData: AccelSample, arrivals: seq<Arrival>): seq<Reading>
    requires AllNorms(arrivals)
    decreases |arrivals|
  {
    if arrivals == [] then []
    else
      var a := arrivals[0];
      var r := AccelPipeline(prevData, a.sample.x, a.sample.y, a.sample.z, a.sample.magnitude);
      if r.Some? then [Reading(r.value.magnitude, a.timestamp)] + PipelineRun(r.value, arrivals[1..])
      else PipelineRun(prevData, arrivals[1..])
  }

  /** While the stored magnitude and every raw magnitude of a run are at most 9.8, every
      magnitude the latch is handed during the run is at most 9.8 too. */
  lemma {:induction false} RestingRunStaysBelowReset(prevData: AccelSample, arrivals: seq<Arrival>)
    requires AllNorms(arrivals)
    requires 0.0 <= prevData.magnitude <= 9.8
    requires forall i :: 0 <= i < |arrivals| ==> arrivals[i].sample.magnitude <= 9.8
    ensures forall i :: 0 <= i < |PipelineRun(prevData, arrivals)| ==>
      PipelineRun(prevData, arrivals)[i].magnitude <= 9.8
    decreases |arrivals|
  {
    if arrivals != [] {
      var a := arrivals[0];
      var r := AccelPipeline(prevData, a.sample.x, a.sample.y, a.sample.z, a.sample.magnitude);
      LatchHeldWhileResting(prevData, a.sample.x, a.sample.y, a.sample.z, a.sample.magnitude);
      var rest := arrivals[1..];
      assert forall i :: 0 <= i < |rest| ==> rest[i] == arrivals[i + 1];
      if r.Some? {
        RestingRunStaysBelowReset(r.value, rest);
      } else {
        RestingRunStaysBelowReset(prevData, rest);
      }
    }
  }

  /** A latch that is set stays set over a whole run of resting samples (raw magnitudes at
      most 9.8, stored magnitude at most 9.8): the filtered magnitude never exceeds the reset
      threshold, so only an impact could clear it. */
  lemma LatchHeldOverRestingRun(history: seq<Reading>, prevData: AccelSample, arrivals: seq<Arrival>)
    requires AllNorms(arrivals)
    requires Final(FALL_DETECTION_THRESHOLDS, history)
    requires 0.0 <= prevData.magnitude <= 9.8
    requires forall i :: 0 <= i < |arrivals| ==> arrivals[i].sample.magnitude <= 9.8
    ensures Final(FALL_DETECTION_THRESHOLDS, history + PipelineRun(prevData, arrivals))
  {
    var run := PipelineRun(prevData, arrivals);
    var rs := history + run;
    RestingRunStaysBelowReset(prevData, arrivals);
    assert rs[..|history|] == history;
    assert forall i :: |history| <= i < |rs| ==> rs[i] == run[i - |history|];
    ThresholdsOrdered();
    LatchHeldBelowReset(FALL_DETECTION_THRESHOLDS, rs, |history|);
  }

  /** Per call of this latch: it is set exactly when clear and `m < 1.0`; an event exactly
      when set on entry and `m > 15.0`; a silent clear exactly when set and `9.8 < m < 15.0`;
      a set latch is kept by `m <= 9.8` (a further dip included) or `m == 15.0`. */
  lemma LatchOutcomes(latched: bool, m: real)
    ensures Next(FALL_DETECTION_THRESHOLDS, false, m) <==> m < 1.0
    ensures Step(FALL_DETECTION_THRESHOLDS, latched, m) == EmitAndClear <==> latched && m > 15.0
    ensures Step(FALL_DETECTION_THRESHOLDS, latched, m) == SilentClear <==> latched && 9.8 < m < 15.0
    ensures latched ==> (Next(FALL_DETECTION_THRESHOLDS, latched, m) <==> m <= 9.8 || m == 15.0)
  {
    ThresholdsOrdered();
    SetLatchOutcomes(FALL_DETECTION_THRESHOLDS, m);
  }

  /** A dip below 1.0 followed by a reading above 15.0 logs exactly one event. */
  lemma FallThenImpactLogsOnce()
    ensures Log(FALL_DETECTION_THRESHOLDS, [Reading(0.5, "t0"), Reading(16.0, "t1")]) == [FallLog("t1")]
    ensures !Final(FALL_DETECTION_THRESHOLDS, [Reading(0.5, "t0"), Reading(16.0, "t1")])
  {
    var rs := [Reading(0.5, "t0"), Reading(16.0, "t1")];
    assert rs[..1] == [Reading(0.5, "t0")];
    assert rs[..1][..0] == [];
  }

  /** A reading between 9.8 and 15.0 resets silently, and a later impact without a new dip
      logs nothing. */
  lemma ResetThenImpactLogsNothing()
    ensures Log(FALL_DETECTION_THRESHOLDS, [Reading(0.5, "t0"), Reading(12.0, "t1"), Reading(16.0, "t2")]) == []
  {
    var rs := [Reading(0.5, "t0"), Reading(12.0, "t1"), Reading(16.0, "t2")];
    assert rs[..2] == [Reading(0.5, "t0"), Reading(12.0, "t1")];
    assert rs[..2][..1] == [Reading(0.5, "t0")];
    assert rs[..2][..1][..0] == [];
    var t := FALL_DETECTION_THRESHOLDS;
    assert Final(t, rs[..1]) && Log(t, rs[..1]) == [];
    assert !Final(t, rs[..2]) && Log(t, rs[..2]) == [];
  }

  /** After a silent reset, a fresh dip re-arms the latch and the next impact is logged. */
  lemma FreshDipRearms()
    ensures Log(FALL_DETECTION_THRESHOLDS,
      [Reading(0.5, "t0"), Reading(12.0, "t1"), Reading(0.5, "t2"), Reading(16.0, "t3")]) == [FallLog("t3")]
  {
    var rs := [Reading(0.5, "t0"), Reading(12.0, "t1"), Reading(0.5, "t2"), Reading(16.0, "t3")];
    var t := FALL_DETECTION_THRESHOLDS;
    assert rs[..3][..2][..1][..0] == [];
    assert rs[..3][..2][..1] == rs[..1];
    assert rs[..3][..2] == rs[..2];
    assert Final(t, rs[..1]) && Log(t, rs[..1]) == [];
    assert !Final(t, rs[..2]) && Log(t, rs[..2]) == [];
    assert Final(t, rs[..3]) && Log(t, rs[..3]) == [];
  }

  class FallDetection {
    /** The stored (filtered) sample: displayed, and the previous value of the next filter step. */
    var accelData: AccelSample
    /** `this.fallDetected` and `state.fallLogs` of the component. */
    const detector: FallDetector

    ghost predicate Valid()
      reads this, detector
    {
      detector.Valid() && detector.thresholds == FALL_DETECTION_THRESHOLDS && accelData.magnitude >= 0.0
    }

    constructor ()
      ensures Valid() && fresh(detector)
      ensures accelData == ACCEL_AT_REST
      ensures !detector.fallDetected && detector.fallLogs == [] && detector.history == []
    {
      accelData := ACCEL_AT_REST;
      detector := new FallDetector(FALL_DETECTION_THRESHOLDS);
    }

    /** Stores the sample and runs the latch on its magnitude. */
    method HandleAcceleration(data: AccelSample, timestamp: string)
      requires Valid()
      modifies this, detector
      ensures detector.Valid() && (data.magnitude >= 0.0 ==> Valid())
      ensures accelData == data
      ensures detector.history == old(detector.history) + [Reading(data.magnitude, timestamp)]
      ensures detector.fallDetected == Next(FALL_DETECTION_THRESHOLDS, old(detector.fallDetected), data.magnitude)
      ensures detector.fallLogs == old(detector.fallLogs) +
        (if Step(FALL_DETECTION_THRESHOLDS, old(detector.fallDetected), data.magnitude) == EmitAndClear
         then [FallLog(timestamp)] else [])
    {
      accelData := data;
      detector.HandleMagnitude(data.magnitude, timestamp);
    }

    /** One raw accelerometer sample through the whole stream. A dropped sample changes
        nothing; otherwise the filtered sample is stored and handed to the latch. */
    method OnAccelerometer(x: real, y: real, z: real, magnitude: real, timestamp: string)
      requires IsNorm(magnitude, x, y, z)
      requires Valid()
      modifies this, detector
      ensures Valid()
      ensures var r := AccelPipeline(old(accelData), x, y, z, magnitude);
        accelData == (if r.Some? then r.value else old(accelData)) &&
        detector.history == old(detector.history) +
          (if r.Some? then [Reading(r.value.magnitude, timestamp)] else [])
      ensures AccelPipeline(old(accelData), x, y, z, magnitude).None? ==>
        detector.fallDetected == old(detector.fallDetected) && detector.fallLogs == old(detector.fallLogs)
    {
      var r := AccelPipeline(accelData, x, y, z, magnitude);
      if r.Some? {
        HandleAcceleration(r.value, timestamp);
      }
    }
  }
}
