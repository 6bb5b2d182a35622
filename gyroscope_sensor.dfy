/** The gyroscope component: every raw sample is smoothed against the stored sample by the
    low-pass filter, the smoothed axes are passed through the noise floor, the result is
    stored as the next step's previous sample, and fast rotation is signalled when the
    smoothed speed exceeds the threshold. */
module GyroscopeSensor {
  import opened Signal

  /** The filter step of the gyroscope stream: each axis and the speed become
      `alpha * raw + (1 - alpha) * prev`, where the raw speed is the norm of the raw axes. */
  function FilterGyro(prev: GyroSample, x: real, y: real, z: real, speed: real): (r: GyroSample)
    requires IsNorm(speed, x, y, z)
    ensures Between(prev.x, x, r.x) && Between(prev.y, y, r.y) && Between(prev.z, z, r.z)
    ensures Between(prev.speed, speed, r.speed)
    ensures prev.speed >= 0.0 ==> r.speed >= 0.0
  {
    GyroSample(Smooth(ALPHA, prev.x, x), Smooth(ALPHA, prev.y, y), Smooth(ALPHA, prev.z, z),
               Smooth(ALPHA, prev.speed, speed))
  }

  /** From the initial all-zero state the first filtered sample is one tenth of the raw one
      on every field: the warm-up bias of the filter. */
  lemma FirstSampleFromRest(x: real, y: real, z: real, speed: real)
    requires IsNorm(speed, x, y, z)
    ensures FilterGyro(GYRO_AT_REST, x, y, z, speed) == GyroSample(0.1 * x, 0.1 * y, 0.1 * z, 0.1 * speed)
  {
  }

  /** Every axis is 0 or at least the noise floor in absolute value. */
  predicate Snapped(d: GyroSample)
  {
    (d.x == 0.0 || Abs(d.x) >= NOISE_FLOOR) &&
    (d.y == 0.0 || Abs(d.y) >= NOISE_FLOOR) &&
    (d.z == 0.0 || Abs(d.z) >= NOISE_FLOOR)
  }

  /** The noise floor on the axes of a sample; the speed is kept as it is. */
  function SnapAxes(d: GyroSample): (r: GyroSample)
    ensures Snapped(r) && r.speed == d.speed
    ensures Abs(d.x) >= NOISE_FLOOR ==> r.x == d.x
    ensures Abs(d.y) >= NOISE_FLOOR ==> r.y == d.y
    ensures Abs(d.z) >= NOISE_FLOOR ==> r.z == d.z
    ensures Snapped(d) ==> r == d
  {
    GyroSample(Snap(d.x), Snap(d.y), Snap(d.z), d.speed)
  }

  lemma SnapAxesIdempotent(d: GyroSample)
    ensures SnapAxes(SnapAxes(d)) == SnapAxes(d)
  {
  }

  class GyroscopeSensor {
    /** The stored sample: what is displayed and what the next filter step smooths against. */
    var gyroData: GyroSample

    /** Axes are snapped and the speed, a smoothed norm, is non-negative. */
    ghost predicate Valid()
      reads this
    {
      Snapped(gyroData) && gyroData.speed >= 0.0
    }

    constructor ()
      ensures Valid() && gyroData == GYRO_AT_REST
    {
      gyroData := GYRO_AT_REST;
    }

    /** Applies the noise floor to each axis in turn, stores the sample, and reports whether
        the speed signals fast rotation; the signal itself changes no state. */
    method HandleGyroData(d: GyroSample) returns (fastRotation: bool)
      modifies this
      ensures gyroData == SnapAxes(d)
      ensures fastRotation <==> d.speed > FAST_ROTATION_THRESHOLD
      ensures d.speed >= 0.0 ==> Valid()
    {
      var x, y, z := d.x, d.y, d.z;
      if Abs(x) < NOISE_FLOOR {
        x := 0.0;
      }
      if Abs(y) < NOISE_FLOOR {
        y := 0.0;
      }
      if Abs(z) < NOISE_FLOOR {
        z := 0.0;
      }
      gyroData := GyroSample(x, y, z, d.speed);
      fastRotation := d.speed > FAST_ROTATION_THRESHOLD;
    }

    /** One raw gyroscope sample through the whole stream: filter against the stored sample,
        then handle the filtered sample. The snapped axes become the next step's previous
        value; the speed is stored unsnapped. */
    method OnGyroscope(x: real, y: real, z: real, speed: real) returns (fastRotation: bool)
      requires IsNorm(speed, x, y, z)
      requires Valid()
      modifies this
      ensures Valid()
      ensures gyroData == SnapAxes(FilterGyro(old(gyroData), x, y, z, speed))
      ensures gyroData.speed == FilterGyro(old(gyroData), x, y, z, speed).speed
      ensures fastRotation <==> gyroData.speed > FAST_ROTATION_THRESHOLD
    {
      var filtered := FilterGyro(gyroData, x, y, z, speed);
      fastRotation := HandleGyroData(filtered);
    }
  }
}
