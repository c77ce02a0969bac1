/** The `Patient` of Assignment2/Program.cs: a patient number, a level of
    emergency drawn once at construction, and a treatment time that callers
    set and reduce. `double` is modelled as `real`. The uniform draws the
    source takes from `Random.NextDouble` and the logarithm it takes with
    `Math.Log` are parameters. */
module Patients {

  /** The level of emergency for a uniform draw: 1 below 0.6, 2 from 0.6 up
      to 0.9, and 3 from 0.9 up. */
  function GenerateLevelOfEmergency(draw: real): (level: int)
    ensures 1 <= level <= 3
    ensures level == 1 <==> draw < 0.6
    ensures level == 2 <==> 0.6 <= draw < 0.9
    ensures level == 3 <==> 0.9 <= draw
  {
    if draw < 0.6 then 1
    else if draw < 0.9 then 2
    else 3
  }

  /** A larger draw never gives a lower level. */
  lemma LevelMonotone(d1: real, d2: real)
    requires d1 <= d2
    ensures GenerateLevelOfEmergency(d1) <= GenerateLevelOfEmergency(d2)
  {
  }

  /** Two to the power `k`. */
  function Power2(k: nat): (r: real)
    ensures r >= 1.0
  {
    if k == 0 then 1.0 else 2.0 * Power2(k - 1)
  }

  class Patient {
    const patientNumber: int
    const levelOfEmergency: int
    var treatmentTime: real

    /** The level of emergency is one the rule can produce. */
    ghost predicate Valid()
    {
      1 <= levelOfEmergency <= 3
    }

    /** The source's constructor: it assigns the patient number from its
        own getter, which reads the zero the field starts with, so the
        `patientNumber` argument is never stored; `meanTime` is unused and
        the treatment time keeps its initial zero. The level is drawn from
        `draw`. */
    constructor (patientNumber: int, meanTime: int, draw: real)
      ensures Valid()
      ensures this.patientNumber == 0
      ensures levelOfEmergency == GenerateLevelOfEmergency(draw)
      ensures treatmentTime == 0.0
    {
      this.patientNumber := 0;
      levelOfEmergency := GenerateLevelOfEmergency(draw);
      treatmentTime := 0.0;
    }

    /** The constructor as evidently intended: the number passed in is the
        patient's number. */
    constructor Numbered(patientNumber: int, meanTime: int, draw: real)
      ensures Valid()
      ensures this.patientNumber == patientNumber
      ensures levelOfEmergency == GenerateLevelOfEmergency(draw)
      ensures treatmentTime == 0.0
    {
      this.patientNumber := patientNumber;
      levelOfEmergency := GenerateLevelOfEmergency(draw);
      treatmentTime := 0.0;
    }

    /** The treatment time for this patient's level, with `logDraw` standing
        for `Math.Log` of the uniform draw: `meanTime * logDraw` scaled by 1
        at level 1, 2 at level 2 and 4 at any other level, which for a valid
        level is two to the power one less than the level. Since the
        logarithm is never positive for a draw below 1, a non-negative mean
        gives a time that is zero or negative. */
    function GenerateTreatmentTime(meanTime: int, logDraw: real): (r: real)
      ensures levelOfEmergency != 1 && levelOfEmergency != 2 ==> r == 4.0 * (meanTime as real * logDraw)
      ensures Valid() ==> r == Power2(levelOfEmergency - 1) * (meanTime as real * logDraw)
      ensures meanTime >= 0 && logDraw <= 0.0 ==> r <= 0.0
    {
      var logMeanTime := meanTime as real * logDraw;
      if levelOfEmergency == 1 then logMeanTime
      else if levelOfEmergency == 2 then 2.0 * logMeanTime
      else 4.0 * logMeanTime
    }

    /** The treatment time as evidently intended: an exponential draw
        `-meanTime * ln(u)` with the same scaling, so a non-negative mean
        gives a time that is never negative. */
    function IntendedTreatmentTime(meanTime: int, logDraw: real): (r: real)
      ensures Valid() ==> r == Power2(levelOfEmergency - 1) * (-(meanTime as real) * logDraw)
      ensures meanTime >= 0 && logDraw <= 0.0 ==> r >= 0.0
    {
      var meanDuration := -(meanTime as real) * logDraw;
      if levelOfEmergency == 1 then meanDuration
      else if levelOfEmergency == 2 then 2.0 * meanDuration
      else 4.0 * meanDuration
    }

    /** The `TreatmentTime` setter: stores the value and nothing else. */
    method SetTreatmentTime(value: real)
      modifies this
      ensures treatmentTime == value
    {
      treatmentTime := value;
    }

    /** Lowers the treatment time by exactly `reducedSeconds`. */
    method ReduceTreatmentTime(reducedSeconds: real)
      modifies this
      ensures treatmentTime == old(treatmentTime) - reducedSeconds
    {
      treatmentTime := treatmentTime - reducedSeconds;
    }
  }

  /** With a mean of 10 and a draw whose logarithm is -1, the source's rule
      gives a negative treatment time at every level; the intended rule gives
      a positive one. */
  lemma NegativeTreatmentTime(p: Patient)
    requires p.Valid()
    ensures p.GenerateTreatmentTime(10, -1.0) < 0.0
    ensures p.IntendedTreatmentTime(10, -1.0) > 0.0
  {
    var k := Power2(p.levelOfEmergency - 1);
    assert p.GenerateTreatmentTime(10, -1.0) == k * -10.0;
    assert p.IntendedTreatmentTime(10, -1.0) == k * 10.0;
  }

  /** A patient built with number 7 has number 0: the constructor drops the
      number it is given. */
  method NumberLost() returns (given: int, kept: int)
    ensures given == 7 && kept == 0 && given != kept
  {
    var p := new Patient(7, 10, 0.5);
    given, kept := 7, p.patientNumber;
  }

  /** With the intended constructor the number given is the number kept. */
  method NumberKept(n: int) returns (kept: int)
    ensures kept == n
  {
    var p := new Patient.Numbered(n, 10, 0.5);
    kept := p.patientNumber;
  }
}
