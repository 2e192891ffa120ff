/** The sampling calculators: the probability that a sample mean satisfies a
    target constraint (for an infinite population and for a finite one with
    the finite-population correction), and the Chebyshev bound.

    The UI code around them re-runs these computations whenever an input box
    changes; the model keeps only the computations and the fields they
    write. statrs is `Distrs.NormalLib`, `sqrt` is `f64::sqrt` and `show`
    is `f64::to_string`. */
module Calcs {
  import opened Wrappers
  import opened Constraints
  import D = Distrs

  const ExactMsg: string := "Cannot use exact in a continuous distribution."
  const InfUnsetMsg: string := "Target mean must be set"
  const FinUnsetMsg: string := "Must set target mean."

  /** The `match self.target_mean` shared by both sample calculators: the
      probability mass a continuous distribution with cumulative
      distribution `cdf` puts on the target, or the message explaining why
      there is none. `unset` is the calculator's own "target not set"
      message. */
  function TargetProb(cdf: real -> real, target: Constr<real>, unset: string): (r: Result<real, string>)
    ensures r.Ok? <==> IsIneq(target) && IsSome(target)
    ensures IsEq(target) && IsSome(target) ==> r == Err(ExactMsg)
    ensures !IsSome(target) ==> r == Err(unset)
    ensures target.LE? || target.LT? ==> r == Ok(cdf(target.v))
    ensures target.GE? || target.GT? ==> r == Ok(1.0 - cdf(target.v))
    ensures target.In? ==> r == Ok(cdf(target.hi) - cdf(target.lo))
    ensures target.Out? ==> r == Ok(1.0 - cdf(target.hi) + cdf(target.lo))
  {
    match target
    case GE(v) => Ok(1.0 - cdf(v))
    case GT(v) => Ok(1.0 - cdf(v))
    case LE(v) => Ok(cdf(v))
    case LT(v) => Ok(cdf(v))
    case EQ(_) => Err(ExactMsg)
    case NE(_) => Err(ExactMsg)
    case In(a, b) => Ok(cdf(b) - cdf(a))
    case Out(a, b) => Ok(1.0 - cdf(b) + cdf(a))
    case _ => Err(unset)
  }

  /** Complementary order constraints (those accepting exactly each other's
      rejected values) get probabilities summing to one: `GE(v)` with
      `LT(v)`, `GT(v)` with `LE(v)`, `In(a, b)` with `Out(a, b)`. */
  lemma TargetProbComplement(cdf: real -> real, c: Constr<real>, unset: string, x: real)
    requires IsIneq(c) && IsSome(c)
    ensures Complement(c).Some?
    ensures Comp(Complement(c).value, x) == !Comp(c, x)
    ensures TargetProb(cdf, c, unset).Ok? && TargetProb(cdf, Complement(c).value, unset).Ok?
    ensures TargetProb(cdf, c, unset).value + TargetProb(cdf, Complement(c).value, unset).value == 1.0
  {
  }

  /** The range masses agree with the one-sided ones: `In(a, b)` is the mass
      below `b` less the mass below `a`, and `Out(a, b)` is the mass below
      `a` plus the mass above `b`, matching `Comp`'s reading of the two
      ranges. */
  lemma RangeFromTails(cdf: real -> real, a: real, b: real, unset: string)
    ensures TargetProb(cdf, In(a, b), unset).value ==
      TargetProb(cdf, LE(b), unset).value - TargetProb(cdf, LE(a), unset).value
    ensures TargetProb(cdf, Out(a, b), unset).value ==
      TargetProb(cdf, LT(a), unset).value + TargetProb(cdf, GT(b), unset).value
  {
  }

  /** `cdf` is a cumulative distribution function: valued in [0, 1] and
      non-decreasing. */
  ghost predicate IsCdf(cdf: real -> real) {
    && (forall x :: 0.0 <= cdf(x) <= 1.0)
    && (forall x, y :: x <= y ==> cdf(x) <= cdf(y))
  }

  /** A range whose ends are in order; other constraints are unrestricted. */
  predicate OrderedRange(c: Constr<real>) {
    IsRange(c) ==> c.lo <= c.hi
  }

  /** With a true cdf and ordered range ends, every computed probability
      lies in [0, 1]. */
  lemma TargetProbInUnit(cdf: real -> real, c: Constr<real>, unset: string)
    requires IsCdf(cdf) && OrderedRange(c)
    ensures TargetProb(cdf, c, unset).Ok? ==> 0.0 <= TargetProb(cdf, c, unset).value <= 1.0
  {
    if c.In? || c.Out? {
      assert cdf(c.lo) <= cdf(c.hi);
    }
  }

  /** `f` is the square root on the non-negative reals. */
  ghost predicate IsSqrt(sqrt: real -> real) {
    forall x :: x >= 0.0 ==> sqrt(x) >= 0.0 && sqrt(x) * sqrt(x) == x
  }

  // ------------------------------------------------------ infinite population

  /** `SampleProbInf` without its UI: the fields and the six text boxes
      `[sample_size, mean, sd, target_mean, prob, error]`. */
  datatype SampleProbInf = SampleProbInf(
    sampleSize: nat,
    mean: real,
    sd: real,
    targetMean: Constr<real>,
    prob: Constr<real>,
    strings: seq<string>)

  /** `SampleProbInf::default`. Its target text `<0.0` is `LT(0.0)` while the
      field holds `LE(0.0)`; see `InfDefaultTarget`. */
  function InfDefault(): (s: SampleProbInf)
    ensures |s.strings| == 6 && s.sampleSize > 0
  {
    SampleProbInf(1, 0.0, 1.0, LE(0.0), Constr.None, ["1", "0", "1", "<0.0", "0.5", ""])
  }

  /** The standard error of the sample mean, `sd / sqrt(n)`. */
  function StdError(sd: real, n: nat, sqrt: real -> real): (r: real)
    requires IsSqrt(sqrt) && n > 0
    ensures r * r * (n as real) == sd * sd
    ensures r * sqrt(n as real) == sd
    ensures (r > 0.0 <==> sd > 0.0) && (r == 0.0 <==> sd == 0.0)
  {
    var root := sqrt(n as real);
    assert root * root == n as real;
    assert root > 0.0;
    var r := sd / root;
    assert r * root == sd;
    assert r * r * (root * root) == sd * sd;
    r
  }

  /** The probability update of `SampleProbInf::ui`: build the sampling
      distribution `Normal(mean, sd / sqrt(n))` and dispatch on the target.
      `invalidMsg` is statrs' message for rejected parameters. */
  function InfProbUpdate(lib: D.NormalLib, sqrt: real -> real, show: real -> string, invalidMsg: string,
                         s: SampleProbInf): (r: SampleProbInf)
    requires IsSqrt(sqrt) && s.sampleSize > 0 && |s.strings| == 6
    ensures |r.strings| == 6
    ensures r == s.(prob := r.prob, strings := s.strings[4 := r.strings[4]][5 := r.strings[5]])
    ensures r.prob.EQ? || r.prob.None?
    ensures r.prob.EQ? <==>
      (lib.valid(s.mean, StdError(s.sd, s.sampleSize, sqrt)) &&
       TargetProb(x => lib.cdf(s.mean, StdError(s.sd, s.sampleSize, sqrt), x), s.targetMean, InfUnsetMsg).Ok?)
    ensures r.prob.EQ? ==> r.prob.v == TargetProb(x => lib.cdf(s.mean, StdError(s.sd, s.sampleSize, sqrt), x), s.targetMean, InfUnsetMsg).value
    ensures r.strings[4] == (if r.prob.EQ? then show(r.prob.v) else "")
    ensures r.prob.EQ? ==> r.strings[5] == ""
    ensures !lib.valid(s.mean, StdError(s.sd, s.sampleSize, sqrt)) ==> r.strings[5] == invalidMsg
    ensures lib.valid(s.mean, StdError(s.sd, s.sampleSize, sqrt)) && IsEq(s.targetMean) && IsSome(s.targetMean) ==>
      r.strings[5] == ExactMsg
    ensures lib.valid(s.mean, StdError(s.sd, s.sampleSize, sqrt)) && !IsSome(s.targetMean) ==>
      r.strings[5] == InfUnsetMsg
  {
    var scale := StdError(s.sd, s.sampleSize, sqrt);
    if !lib.valid(s.mean, scale) then
      s.(prob := Constr.None, strings := s.strings[4 := ""][5 := invalidMsg])
    else
      match TargetProb(x => lib.cdf(s.mean, scale, x), s.targetMean, InfUnsetMsg)
      case Ok(p) => s.(prob := EQ(p), strings := s.strings[4 := show(p)][5 := ""])
      case Err(e) => s.(prob := Constr.None, strings := s.strings[4 := ""][5 := e])
  }

  /** After the update the probability text box and the `prob` field agree:
      parsing the box (as the next `vfill` does) gives back `prob`. */
  lemma InfProbTextAgrees(lib: D.NormalLib, sqrt: real -> real, show: real -> string,
                          num: string -> Option<real>, invalidMsg: string, s: SampleProbInf)
    requires IsSqrt(sqrt) && s.sampleSize > 0 && |s.strings| == 6
    requires CodecOn(num, show, InfProbUpdate(lib, sqrt, show, invalidMsg, s).prob)
    ensures var r := InfProbUpdate(lib, sqrt, show, invalidMsg, s);
      Parse(r.strings[4], num) == Ok(r.prob)
  {
    var r := InfProbUpdate(lib, sqrt, show, invalidMsg, s);
    if r.prob.EQ? {
      assert Payloads(r.prob)[0] == r.prob.v;
      EqualForms(r.prob.v, num, show);
    }
  }

  /** The default target text parses to `LT(0.0)`, not the `LE(0.0)` the
      field holds; both give the same probability, so the difference never
      shows. */
  lemma InfDefaultTarget(num: string -> Option<real>, cdf: real -> real)
    requires num("0.0") == Some(0.0)
    ensures Parse(InfDefault().strings[3], num) == Ok(LT(0.0))
    ensures InfDefault().targetMean == LE(0.0)
    ensures TargetProb(cdf, LT(0.0), InfUnsetMsg) == TargetProb(cdf, LE(0.0), InfUnsetMsg)
  {
    OneCharPayload('<', "0.0", num);
    assert InfDefault().strings[3] == ['<'] + "0.0";
  }

  // -------------------------------------------------------- finite population

  /** The finite-population correction `(N - n) / (N - 1)`. */
  function Correction(popSize: nat, sampleSize: nat): (r: real)
    requires popSize != 1
    ensures sampleSize == 1 ==> r == 1.0
    ensures sampleSize == popSize ==> r == 0.0
    ensures 1 <= sampleSize <= popSize ==> 0.0 <= r <= 1.0
    ensures r * (popSize as real - 1.0) == popSize as real - sampleSize as real
  {
    var den := popSize as real - 1.0;
    assert den != 0.0;
    var r := (popSize as real - sampleSize as real) / den;
    assert r * den == popSize as real - sampleSize as real;
    assert sampleSize == popSize ==> r == 0.0 / den;
    r
  }

  /** The corrected standard error `sqrt(sd * sd * correct / n)`: its square
      is the corrected variance of the sample mean. */
  function SampleSd(sd: real, correct: real, n: nat, sqrt: real -> real): (r: real)
    requires IsSqrt(sqrt) && n > 0
    ensures correct >= 0.0 ==> r >= 0.0 && r * r * (n as real) == sd * sd * correct
  {
    var v := sd * sd * correct / (n as real);
    assert v * (n as real) == sd * sd * correct;
    sqrt(v)
  }

  /** `SampleProbFin` without its UI: the fields and the nine text boxes
      `[pop_size, sample_size, correct, mean, sd, sample_sd, target_mean,
      prob, error]`. */
  datatype SampleProbFin = SampleProbFin(
    popSize: nat,
    sampleSize: nat,
    correct: real,
    mean: real,
    sd: real,
    sampleSd: real,
    targetMean: Constr<real>,
    prob: Constr<real>,
    strings: seq<string>)

  /** `SampleProbFin::default`: its correction and sample sd are the ones
      the update formulas give for N = 20, n = 1, sd = 1. */
  function FinDefault(): (s: SampleProbFin)
    ensures |s.strings| == 9 && s.popSize != 1 && s.sampleSize > 0
    ensures s.correct == Correction(s.popSize, s.sampleSize)
    ensures s.sampleSd >= 0.0 && s.sampleSd * s.sampleSd * (s.sampleSize as real) == s.sd * s.sd * s.correct
  {
    SampleProbFin(20, 1, 1.0, 0.0, 1.0, 1.0, LE(0.0), EQ(0.5),
                  ["20", "1", "1", "0", "1", "1", "<=0.0", "0.5", ""])
  }

  /** The correction step of `SampleProbFin::ui`: recompute `correct` from
      the two sizes and show it in box 2. */
  function FinCorrect(show: real -> string, s: SampleProbFin): (r: SampleProbFin)
    requires s.popSize != 1 && |s.strings| == 9
    ensures r == s.(correct := r.correct, strings := s.strings[2 := show(r.correct)])
    ensures r.correct * (s.popSize as real - 1.0) == s.popSize as real - s.sampleSize as real
  {
    var c := Correction(s.popSize, s.sampleSize);
    s.(correct := c, strings := s.strings[2 := show(c)])
  }

  /** The sample-sd step of `SampleProbFin::ui`: recompute `sample_sd` and
      show it in box 5. */
  function FinSampleSd(sqrt: real -> real, show: real -> string, s: SampleProbFin): (r: SampleProbFin)
    requires IsSqrt(sqrt) && s.sampleSize > 0 && |s.strings| == 9
    ensures r == s.(sampleSd := r.sampleSd, strings := s.strings[5 := show(r.sampleSd)])
    ensures s.correct >= 0.0 ==> r.sampleSd >= 0.0 && r.sampleSd * r.sampleSd * (s.sampleSize as real) == s.sd * s.sd * s.correct
  {
    var v := SampleSd(s.sd, s.correct, s.sampleSize, sqrt);
    s.(sampleSd := v, strings := s.strings[5 := show(v)])
  }

  /** The probability update of `SampleProbFin::ui` as written: when statrs
      rejects `Normal(mean, sample_sd)` it clears `prob` and reports the
      error, but leaves the probability text box (box 7) as it was. */
  function FinProbUpdateAsWritten(lib: D.NormalLib, show: real -> string, invalidMsg: string,
                                  s: SampleProbFin): (r: SampleProbFin)
    requires |s.strings| == 9
    ensures !lib.valid(s.mean, s.sampleSd) ==>
      r == s.(prob := Constr.None, strings := s.strings[8 := invalidMsg])
  {
    if !lib.valid(s.mean, s.sampleSd) then
      s.(prob := Constr.None, strings := s.strings[8 := invalidMsg])
    else
      FinDispatch(lib, show, s)
  }

  /** The probability update of `SampleProbFin::ui` with box 7 cleared on a
      statrs error too, as the infinite-population calculator does. */
  function FinProbUpdate(lib: D.NormalLib, show: real -> string, invalidMsg: string,
                         s: SampleProbFin): (r: SampleProbFin)
    requires |s.strings| == 9
    ensures |r.strings| == 9
    ensures r == s.(prob := r.prob, strings := s.strings[7 := r.strings[7]][8 := r.strings[8]])
    ensures r.prob.EQ? || r.prob.None?
    ensures r.prob.EQ? <==>
      (lib.valid(s.mean, s.sampleSd) && TargetProb(x => lib.cdf(s.mean, s.sampleSd, x), s.targetMean, FinUnsetMsg).Ok?)
    ensures r.prob.EQ? ==> r.prob.v == TargetProb(x => lib.cdf(s.mean, s.sampleSd, x), s.targetMean, FinUnsetMsg).value
    ensures lib.valid(s.mean, s.sampleSd) ==> r == FinProbUpdateAsWritten(lib, show, invalidMsg, s)
    ensures r.strings[7] == (if r.prob.EQ? then show(r.prob.v) else "")
    ensures r.prob.EQ? ==> r.strings[8] == ""
    ensures !lib.valid(s.mean, s.sampleSd) ==> r.strings[8] == invalidMsg
    ensures lib.valid(s.mean, s.sampleSd) && IsEq(s.targetMean) && IsSome(s.targetMean) ==> r.strings[8] == ExactMsg
    ensures lib.valid(s.mean, s.sampleSd) && !IsSome(s.targetMean) ==> r.strings[8] == FinUnsetMsg
  {
    if !lib.valid(s.mean, s.sampleSd) then
      s.(prob := Constr.None, strings := s.strings[7 := ""][8 := invalidMsg])
    else
      FinDispatch(lib, show, s)
  }

  /** The target dispatch of `SampleProbFin::ui` once statrs has accepted
      the sampling distribution. */
  function FinDispatch(lib: D.NormalLib, show: real -> string, s: SampleProbFin): (r: SampleProbFin)
    requires |s.strings| == 9
  {
    match TargetProb(x => lib.cdf(s.mean, s.sampleSd, x), s.targetMean, FinUnsetMsg)
    case Ok(p) => s.(prob := EQ(p), strings := s.strings[7 := show(p)][8 := ""])
    case Err(e) => s.(prob := Constr.None, strings := s.strings[7 := ""][8 := e])
  }

  /** As written, a rejected sampling distribution leaves a stale probability
      in box 7: `prob` is cleared, yet the next `vfill` parses the old text
      back into it. */
  lemma FinStaleProbText(lib: D.NormalLib, show: real -> string, num: string -> Option<real>,
                         invalidMsg: string, s: SampleProbFin)
    requires num("") == Option.None && CodecAt(num, show, 0.5)
    requires |s.strings| == 9 && !lib.valid(s.mean, s.sampleSd)
    requires s.strings[7] == show(0.5)
    ensures var r := FinProbUpdateAsWritten(lib, show, invalidMsg, s);
      r.prob == Constr.None && Parse(r.strings[7], num) == Ok(EQ(0.5))
  {
    EqualForms(0.5, num, show);
  }

  /** With the correction, box 7 and `prob` always agree after the update. */
  lemma FinProbTextAgrees(lib: D.NormalLib, show: real -> string, num: string -> Option<real>,
                          invalidMsg: string, s: SampleProbFin)
    requires |s.strings| == 9
    requires CodecOn(num, show, FinProbUpdate(lib, show, invalidMsg, s).prob)
    ensures var r := FinProbUpdate(lib, show, invalidMsg, s);
      Parse(r.strings[7], num) == Ok(r.prob)
  {
    var r := FinProbUpdate(lib, show, invalidMsg, s);
    if r.prob.EQ? {
      assert Payloads(r.prob)[0] == r.prob.v;
      EqualForms(r.prob.v, num, show);
    }
  }

  // --------------------------------------------------------------- Chebyshev

  /** The Chebyshev value `sd^2 / n / deviation^2`: the bound on the
      probability that the mean of `n` samples lies at least `deviation`
      away from the population mean. */
  function Cheby(sd: real, n: nat, deviation: real): (r: real)
    requires n > 0 && deviation != 0.0
    ensures r >= 0.0
    ensures r * ((n as real) * deviation * deviation) == sd * sd
  {
    var q := sd * sd / (n as real);
    assert q * (n as real) == sd * sd;
    var r := q / deviation / deviation;
    assert r * deviation * deviation == q;
    r
  }

  /** `Cheby` without its UI: the fields and the five text boxes
      `[mean, sd, sample_size, deviation, result]`. */
  datatype ChebyCalc = ChebyCalc(mean: real, sd: real, sampleSize: nat, deviation: real, strings: seq<string>)

  /** `Cheby::default`. */
  function ChebyDefault(): (c: ChebyCalc)
    ensures |c.strings| == 5 && c.sampleSize > 0 && c.deviation != 0.0
  {
    ChebyCalc(0.0, 1.0, 25, 1.5, ["0.0", "1.0", "25", "1.5", ""])
  }

  /** The update of `Cheby::ui`: only the result box changes, and it shows
      the Chebyshev value of the current fields. */
  function ChebyUpdate(show: real -> string, c: ChebyCalc): (r: ChebyCalc)
    requires |c.strings| == 5 && c.sampleSize > 0 && c.deviation != 0.0
    ensures |r.strings| == 5
    ensures r == c.(strings := c.strings[4 := r.strings[4]])
    ensures exists v :: v >= 0.0 && v * ((c.sampleSize as real) * c.deviation * c.deviation) == c.sd * c.sd
                        && r.strings[4] == show(v)
  {
    var v := Cheby(c.sd, c.sampleSize, c.deviation);
    c.(strings := c.strings[4 := show(v)])
  }
}
