/** The combined component that the application mounts. Its accelerometer stream is NOT
    filtered: each raw sample becomes (x, y, z, norm), zero-norm samples are dropped, and
    the rest are stored and handed to the fall latch with the thresholds 0.5 (free fall),
    1.0 (reset) and 2.0 (impact). Its gyroscope stream is the same code as the gyroscope
    component (filter, noise floor, fast-rotation check), so it owns one of those. */
module FallAndRotationDetection {
  import opened Signal
  import opened FallLatch
  import GyroscopeSensor

  const FALL_AND_ROTATION_THRESHOLDS: Thresholds := Thresholds(0.5, 1.0, 2.0)

  lemma ThresholdsOrdered()
    ensures Ordered(FALL_AND_ROTATION_THRESHOLDS)
  {
  }

  /** The accelerometer stream in front of the handler: the raw axes with their norm, and a
      filter that lets through only samples of positive magnitude. A sample is dropped exactly
      when it is the zero vector, and what gets through never has magnitude 0. */
  function AccelMap(x: real, y: real, z: real, magnitude: real): (r: Option<AccelSample>)
    requires IsNorm(magnitude, x, y, z)
    ensures r.None? <==> x == 0.0 && y == 0.0 && z == 0.0
    ensures r.Some? ==> r.value == AccelSample(x, y, z, magnitude) && r.value.magnitude > 0.0
  {
    NormPositiveIff(magnitude, x, y, z);
    if magnitude > 0.0 then Some(AccelSample(x, y, z, magnitude)) else None
  }

  /** Readings of this component's latch that never drop below 0.5 never set it and never
      log an event. */
  lemma NoFreeFallNoEvent(rs: seq<Reading>)
    requires forall i :: 0 <= i < |rs| ==> rs[i].magnitude >= 0.5
    ensures !Final(FALL_AND_ROTATION_THRESHOLDS, rs)
    ensures Log(FALL_AND_ROTATION_THRESHOLDS, rs) == []
  {
    NoDipNoEvent(FALL_AND_ROTATION_THRESHOLDS, rs);
  }

  /** Per call of this latch: an event exactly when it was set on entry and `m > 2.0`; a
      silent clear exactly when set and `1.0 < m < 2.0`; a set latch is kept by `m <= 1.0`
      or `m == 2.0`; and a dip that sets the latch has no other effect in the same call. */
  lemma LatchOutcomes(latched: bool, m: real)
    ensures Step(FALL_AND_ROTATION_THRESHOLDS, latched, m) == EmitAndClear <==> latched && m > 2.0
    ensures Step(FALL_AND_ROTATION_THRESHOLDS, latched, m) == SilentClear <==> latched && 1.0 < m < 2.0
    ensures latched ==> (Next(FALL_AND_ROTATION_THRESHOLDS, latched, m) <==> m <= 1.0 || m == 2.0)
    ensures Step(FALL_AND_ROTATION_THRESHOLDS, latched, m) == Latch <==> !latched && m < 0.5
  {
    ThresholdsOrdered();
    SetLatchOutcomes(FALL_AND_ROTATION_THRESHOLDS, m);
  }

  class FallAndRotationDetection {
    /** The stored raw accelerometer sample. */
    var accelData: AccelSample
    /** `this.fallDetected` and `state.fallLogs` of the component. */
    const detector: FallDetector
    /** `state.gyroData` of the component and the code that updates it. */
    const gyro: GyroscopeSensor.GyroscopeSensor

    ghost predicate Valid()
      reads this, detector, gyro
    {
      detector.Valid() && detector.thresholds == FALL_AND_ROTATION_THRESHOLDS && gyro.Valid()
    }

    /** Every magnitude the latch has been handed is positive. */
    ghost predicate OnlyPositiveMagnitudes()
      reads detector
    {
      forall i :: 0 <= i < |detector.history| ==> detector.history[i].magnitude > 0.0
    }

    constructor ()
      ensures Valid() && OnlyPositiveMagnitudes() && fresh(detector) && fresh(gyro)
      ensures accelData == ACCEL_AT_REST && gyro.gyroData == GYRO_AT_REST
      ensures !detector.fallDetected && detector.fallLogs == [] && detector.history == []
    {
      accelData := ACCEL_AT_REST;
      detector := new FallDetector(FALL_AND_ROTATION_THRESHOLDS);
      gyro := new GyroscopeSensor.GyroscopeSensor();
    }

    /** Stores the sample and runs the latch on its magnitude. */
    method HandleAcceleration(data: AccelSample, timestamp: string)
      requires Valid()
      modifies this, detector
      ensures Valid()
      ensures accelData == data
      ensures detector.history == old(detector.history) + [Reading(data.magnitude, timestamp)]
      ensures detector.fallDetected == Next(FALL_AND_ROTATION_THRESHOLDS, old(detector.fallDetected), data.magnitude)
      ensures detector.fallLogs == old(detector.fallLogs) +
        (if Step(FALL_AND_ROTATION_THRESHOLDS, old(detector.fallDetected), data.magnitude) == EmitAndClear
         then [FallLog(timestamp)] else [])
      ensures gyro.gyroData == old(gyro.gyroData)
    {
      accelData := data;
      detector.HandleMagnitude(data.magnitude, timestamp);
    }

    /** One raw accelerometer sample through the whole stream. The zero vector is dropped
        and changes nothing, so the latch is never handed a magnitude of 0. */
    method OnAccelerometer(x: real, y: real, z: real, magnitude: real, timestamp: string)
      requires IsNorm(magnitude, x, y, z)
      requires Valid()
      modifies this, detector
      ensures Valid()
      ensures old(OnlyPositiveMagnitudes()) ==> OnlyPositiveMagnitudes()
      ensures x == 0.0 && y == 0.0 && z == 0.0 ==>
        accelData == old(accelData) && detector.history == old(detector.history) &&
        detector.fallDetected == old(detector.fallDetected) && detector.fallLogs == old(detector.fallLogs)
      ensures !(x == 0.0 && y == 0.0 && z == 0.0) ==>
        accelData == AccelSample(x, y, z, magnitude) &&
        detector.history == old(detector.history) + [Reading(magnitude, timestamp)]
      ensures gyro.gyroData == old(gyro.gyroData)
    {
      var r := AccelMap(x, y, z, magnitude);
      if r.Some? {
        HandleAcceleration(r.value, timestamp);
      }
    }

    /** One raw gyroscope sample through the whole stream; the fall latch is not touched. */
    method OnGyroscope(x: real, y: real, z: real, speed: real) returns (fastRotation: bool)
      requires IsNorm(speed, x, y, z)
      requires Valid()
      modifies gyro
      ensures Valid()
      ensures gyro.gyroData == GyroscopeSensor.SnapAxes(GyroscopeSensor.FilterGyro(old(gyro.gyroData), x, y, z, speed))
      ensures fastRotation <==> gyro.gyroData.speed > FAST_ROTATION_THRESHOLD
    {
      fastRotation := gyro.OnGyroscope(x, y, z, speed);
    }
  }
}
