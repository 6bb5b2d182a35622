# Fall and rotation detection core, modelled in Dafny

This project models the signal-processing core of a React Native app that reads the
accelerometer and the gyroscope, smooths the readings, and raises a fall alert when free
fall is followed by an impact. There are three components:

- `FallDetection` uses the accelerometer only. Each raw sample becomes
  (x, y, z, norm). All four fields are smoothed by an exponential low-pass filter
  (`alpha = 0.1`) against the stored sample. The sample is kept only if the filtered
  magnitude is positive. The stored sample is then overwritten, and the filtered magnitude
  drives the fall latch with thresholds 1.0 / 9.8 / 15.0.
- `FallAndRotationDetection` is the component the app mounts. Its accelerometer stream is
  not filtered: zero-norm samples are dropped, and the raw magnitude drives the fall latch
  with thresholds 0.5 / 1.0 / 2.0. Its gyroscope stream is identical to `GyroscopeSensor`.
- `GyroscopeSensor` smooths each axis and the rotational speed against the stored sample.
  It snaps axes below 0.05 in absolute value to 0, leaves the speed unsnapped, stores the
  result as the next step's previous sample, and signals fast rotation when the speed is
  above 3.0.

The fall latch is one small state machine. It has a state bit `fallDetected` and three
sequential `if`s:

1. set the latch when `m < low`;
2. if latched and `m > high`, log an event and clear;
3. if latched and `reset < m < high`, clear silently.

It is written once, as the class `FallLatch.FallDetector` with the thresholds as data.
Each accelerometer component owns one instance. The method `HandleMagnitude` is proved
equal to a decision table `Step`, given `low < reset < high`. The detector keeps a ghost
history of the readings it has handled. Its invariant says the latch is `Final(history)`
and the log is `Log(history)`. The properties about runs of readings are lemmas about those
two functions.

Files:

- `signal.dfy` (module `Signal`): the sample records, the filter step, the norm
  assumptions and the noise floor.
- `fall_latch.dfy` (module `FallLatch`): the latch and the event log.
- `gyroscope_sensor.dfy` (module `GyroscopeSensor`): the gyroscope component.
- `fall_detection.dfy` (module `FallDetection`): the accelerometer-only component.
- `fall_and_rotation_detection.dfy` (module `FallAndRotationDetection`): the combined
  component.

The model follows the code:

- The combined component's accelerometer stream is not low-pass filtered.
- The magnitude and speed are norms of the raw axes, not of the filtered sample.
  `FallDetection` then filters the magnitude as a scalar of its own.
- The noise floor applies to gyroscope axes only.
- The thresholds are fixed constants in each component. The model passes them to the shared
  detector, whose constructor requires them to be ordered.
- No code checks for NaN or infinite readings, so the model has no sensor-fault path.

The model proves one behaviour of `FallDetection` that follows from the code
(`FallDetection.StartupLatches`, `FallDetection.LatchHeldWhileResting`). The filter starts
from the all-zero state, so the first filtered magnitude of a device at rest is a tenth of
gravity, below 1.0. The latch is therefore set on the first sample. Each step whose stored
and raw magnitudes are at most 9.8 keeps it set, and over a whole run of such samples it is
never reset (`FallDetection.LatchHeldOverRestingRun`). This is the warm-up bias that comes
from starting the filter at zero.

## Model

| member | source | states |
|---|---|---|
| `Signal.Smooth` | src/components/GyroscopeSensor.js:42-45 | One filter step with weight in [0, 1] gives a value between the stored value and the raw one; equal inputs are a fixed point |
| `Signal.SmoothError` | src/components/FallDetection.js:75-78 | One filter step multiplies the distance to the raw value by exactly `1 - alpha` |
| `Signal.ConstantInputErrorShrinks` | src/components/FallDetection.js:72-78 | With `alpha = 0.1`, `|out - c| = 0.9 * |prev - c|` for a constant input `c`, and the error strictly shrinks while it is non-zero |
| `Signal.ConstantInputConverges` | src/components/FallDetection.js:71-83 | Each handled sample becomes the next step's previous value, so after `n` constant samples the error is `0.9^n` times the initial error (induction) |
| `Signal.ConstantInputMonotone` | src/components/FallDetection.js:71-83 | Under a constant input the error never grows from one sample to the next, and it strictly decreases until it is zero |
| `Signal.SquaredNormPositiveIff` | src/components/FallAndRotationDetection.js:43 | `x*x + y*y + z*z` is non-negative, and positive exactly when the vector is not the zero vector |
| `Signal.NormPositiveIff` | src/components/FallAndRotationDetection.js:43-46 | The norm is positive exactly when the vector is not the zero vector |
| `Signal.Snap` | src/components/GyroscopeSensor.js:80-82 | The result is 0 or the input unchanged with absolute value at least 0.05; an input below 0.05 becomes exactly 0; an input at or above it is kept |
| `Signal.SnapIdempotent` | src/components/GyroscopeSensor.js:80-82 | Snapping twice equals snapping once |
| `FallLatch.ClearLatchSetsIff` | src/components/FallDetection.js:95-98 | A clear latch is set exactly when `m < low`; a clear latch never emits or resets, so crossing `high` while clear logs nothing |
| `FallLatch.EmitIff` | src/components/FallAndRotationDetection.js:107-111 | An event is emitted exactly when the latch was set on entry and `m > high`; the latch is clear afterwards |
| `FallLatch.SetLatchOutcomes` | src/components/FallAndRotationDetection.js:107-119 | With ordered thresholds and the latch set: a silent clear exactly for `reset < m < high`; the latch stays set exactly for `m <= reset` or `m == high`; a dip below `low` changes nothing |
| `FallLatch.NoDipNoEvent` | src/components/FallAndRotationDetection.js:103-111 | Starting clear, a run of readings none below `low` leaves the latch clear and the log empty (induction) |
| `FallLatch.LatchedSinceDip` | src/components/FallDetection.js:95-114 | If the latch is set after `i` readings, an earlier reading dipped below `low` and the latch has been set after every reading since (induction) |
| `FallLatch.EventNeedsFreshDip` | src/components/FallDetection.js:95-114 | An event at reading `i` has a reading above `high`, and an earlier dip below `low` with no clear of the latch in between: a second event needs a fresh dip |
| `FallLatch.LatchHeldBelowReset` | src/components/FallDetection.js:95-114 | A latch set after some prefix of the readings stays set while every later reading is at most the reset threshold (induction) |
| `FallLatch.LogPrefix` | src/components/FallDetection.js:117-122 | The log of a prefix of the readings is a prefix of the log of all of them: entries are only appended at the end, earlier ones never change (induction) |
| `FallLatch.LogBounded` | src/components/FallAndRotationDetection.js:143-145 | Each reading adds at most one log entry (induction) |
| `FallLatch.FallDetector.constructor` | src/components/FallAndRotationDetection.js:25-29 | A new detector has the given ordered thresholds, a clear latch, an empty log and an empty history |
| `FallLatch.FallDetector.LogFallEvent` | src/components/FallAndRotationDetection.js:140-145 | Appends exactly one entry with the given timestamp at the end of the log; the latch is unchanged |
| `FallLatch.FallDetector.HandleMagnitude` | src/components/FallAndRotationDetection.js:103-119 | The three sequential tests have the combined effect of one row of `Step`: the new latch is `Next(old latch, m)`, and the log gains one entry exactly when `Step` is `EmitAndClear`; the invariant (latch and log determined by the history) is kept |
| `GyroscopeSensor.FilterGyro` | src/components/GyroscopeSensor.js:34-47 | Each filtered axis and the filtered speed lie between the stored value and the raw one; the filtered speed is non-negative when the stored speed is |
| `GyroscopeSensor.FirstSampleFromRest` | src/components/GyroscopeSensor.js:20-46 | From the all-zero initial state, the first filtered sample is `0.1 * raw` on every axis and on the speed |
| `GyroscopeSensor.SnapAxes` | src/components/GyroscopeSensor.js:80-84 | After the noise floor, every axis is 0 or at least 0.05 in absolute value; axes at or above 0.05 are unchanged; the speed is not snapped; an already snapped sample is unchanged |
| `GyroscopeSensor.SnapAxesIdempotent` | src/components/GyroscopeSensor.js:80-84 | Applying the noise floor twice equals applying it once |
| `GyroscopeSensor.GyroscopeSensor.constructor` | src/components/GyroscopeSensor.js:17-23 | The stored sample starts as all zeros and satisfies the invariant |
| `GyroscopeSensor.GyroscopeSensor.HandleGyroData` | src/components/GyroscopeSensor.js:78-96 | Stores the sample with snapped axes and unsnapped speed; fast rotation is signalled exactly when the speed is above 3.0, with no other state change. FallAndRotationDetection.js:122-138 is the same code |
| `GyroscopeSensor.GyroscopeSensor.OnGyroscope` | src/components/GyroscopeSensor.js:32-52 | The stored sample becomes the snapped filter of (stored, raw); the snapped axes are the next step's previous value; fast rotation iff the filtered speed is above 3.0; the invariant "snapped axes, non-negative speed" is kept |
| `FallDetection.ThresholdsOrdered` | src/components/FallDetection.js:91-93 | The thresholds 1.0 / 9.8 / 15.0 are ordered `low < reset < high` |
| `FallDetection.ApplyLowPassFilter` | src/components/FallDetection.js:71-79 | x, y, z and the magnitude are each filtered as separate scalars and each lies between its stored and raw value; the magnitude stays non-negative |
| `FallDetection.FilterErrorShrinks` | src/components/FallDetection.js:71-79 | Each field's distance to the raw value becomes exactly 0.9 times the previous distance |
| `FallDetection.AccelPipeline` | src/components/FallDetection.js:34-41 | The sample passed on is the filter of (stored, raw) and has positive magnitude; with a non-negative stored magnitude, a sample is dropped exactly when the stored magnitude is 0 and the raw vector is zero |
| `FallDetection.NoDropOnceStarted` | src/components/FallDetection.js:36-40 | Once the stored magnitude is positive, no later sample is dropped, and the filtered magnitude is at least 0.9 times the stored one |
| `FallDetection.StartupLatches` | src/components/FallDetection.js:91-98 | From the initial zero state, a first sample with raw magnitude in (0, 10) gives a filtered magnitude below 1.0 and sets the latch |
| `FallDetection.LatchHeldWhileResting` | src/components/FallDetection.js:107-114 | With stored and raw magnitudes at most 9.8, the filtered magnitude is at most 9.8, so a set latch is kept |
| `FallDetection.RestingRunStaysBelowReset` | src/components/FallDetection.js:36-83 | Over a run of raw samples with magnitudes at most 9.8, from a stored magnitude in [0, 9.8], every magnitude handed to the latch is at most 9.8 (induction) |
| `FallDetection.LatchHeldOverRestingRun` | src/components/FallDetection.js:36-114 | A set latch stays set over a whole run of resting samples through the filter pipeline |
| `FallDetection.LatchOutcomes` | src/components/FallDetection.js:91-114 | For this latch: set exactly when clear and `m < 1.0`; event exactly when set and `m > 15.0`; silent clear exactly when set and `9.8 < m < 15.0`; a set latch is kept by `m <= 9.8` or `m == 15.0` |
| `FallDetection.FallThenImpactLogsOnce` | src/components/FallDetection.js:95-105 | Readings 0.5 then 16.0 log exactly one event, stamped with the second reading's time, and leave the latch clear |
| `FallDetection.ResetThenImpactLogsNothing` | src/components/FallDetection.js:100-114 | Readings 0.5, 12.0, 16.0 log nothing: the silent reset at 12.0 means the impact finds the latch clear |
| `FallDetection.FreshDipRearms` | src/components/FallDetection.js:95-114 | Readings 0.5, 12.0, 0.5, 16.0 log exactly one event, at the last reading |
| `FallDetection.FallDetection.constructor` | src/components/FallDetection.js:19-27 | Stored sample all zeros, latch clear, log empty |
| `FallDetection.FallDetection.HandleAcceleration` | src/components/FallDetection.js:82-115 | Stores the sample and runs the latch on its magnitude: new latch `Next(old, m)`, one log entry exactly when the call emits |
| `FallDetection.FallDetection.OnAccelerometer` | src/components/FallDetection.js:34-45 | A dropped sample leaves the stored sample, latch and log unchanged; otherwise the filtered sample is stored and its magnitude is appended to the latch's history; the invariant is kept |
| `FallAndRotationDetection.ThresholdsOrdered` | src/components/FallAndRotationDetection.js:99-101 | The thresholds 0.5 / 1.0 / 2.0 are ordered `low < reset < high` |
| `FallAndRotationDetection.AccelMap` | src/components/FallAndRotationDetection.js:42-46 | A sample is dropped exactly when it is the zero vector; a sample that passes is the raw sample, unfiltered, with positive magnitude |
| `FallAndRotationDetection.NoFreeFallNoEvent` | src/components/FallAndRotationDetection.js:103-111 | With this latch, readings never below 0.5 never set it and never log an event |
| `FallAndRotationDetection.LatchOutcomes` | src/components/FallAndRotationDetection.js:103-119 | Event exactly when set and `m > 2.0`; silent clear exactly when set and `1.0 < m < 2.0`; a set latch is kept by `m <= 1.0` or `m == 2.0`; the latch is set exactly when clear and `m < 0.5`, and that call has no other effect |
| `FallAndRotationDetection.FallAndRotationDetection.constructor` | src/components/FallAndRotationDetection.js:20-30 | Stored samples all zeros, latch clear, log empty, and no magnitude yet handed to the latch |
| `FallAndRotationDetection.FallAndRotationDetection.HandleAcceleration` | src/components/FallAndRotationDetection.js:96-120 | Stores the raw sample and runs the latch on its magnitude; the gyroscope state is unchanged |
| `FallAndRotationDetection.FallAndRotationDetection.OnAccelerometer` | src/components/FallAndRotationDetection.js:40-51 | The zero vector changes nothing; any other sample is stored unfiltered and its magnitude is appended to the latch's history; every magnitude the latch has seen stays positive |
| `FallAndRotationDetection.FallAndRotationDetection.OnGyroscope` | src/components/FallAndRotationDetection.js:54-71 | The gyroscope state becomes the snapped filter of (stored, raw); fast rotation iff the filtered speed is above 3.0; the fall latch is not touched |

## Left out

- Rendering, styles, `toFixed` formatting, `console.log` and `Alert.alert`: these are
  display and diagnostics only. `showFallAlert` is left out for the same reason. Fast
  rotation is the method's boolean result, not a log line.
- Permission requests (`requestPermissions`, `requestGyroPermissions`, App.tsx): platform I/O.
- The network submission of a fall event (`axios.post`) and its commented-out twin: network I/O.
- Subscriptions, unsubscription, `setUpdateIntervalForType` and the sensor streams: these
  are event plumbing. One call of `OnAccelerometer` or `OnGyroscope` stands for one
  sample arriving on the stream.
- `setState` is asynchronous. The model treats every state update as immediate.
  `logFallEvent` is `async`, and the model treats its append as immediate too.
- `new Date().toISOString()`: the timestamp is a parameter of each call.
- `Math.sqrt` and IEEE-754 rounding: all arithmetic is over `real`. The norm is an input.
  `Signal.IsNorm`: the model assumes only that it is non-negative and zero exactly for the
  zero vector. It does not assume `n * n == x*x + y*y + z*z`, so no property depends on
  the exact value of the square root.
- `Signal.IsNorm`'s weaker form holds for any genuine square root: a square root of a
  non-negative sum is non-negative, and it is zero exactly when the sum is, which
  `Signal.SquaredNormPositiveIff` ties to the zero vector. The step from `n * n` to the
  sum is argued on paper and not proved in Dafny.
- src/components/SensorComponent.js: it only passes data through, so it is not part of
  this model.
- Both component classes keep the latch and the log in a shared `FallDetector` object,
  and the combined component keeps its gyroscope state in a `GyroscopeSensor` object. In
  the source these are fields of the component itself and of its `state`. The code that
  updates them is the same.
