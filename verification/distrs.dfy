/** The continuous-distribution calculators: the numeric text filter, the
    Normal and Chi-squared parameter bundles with their `Option`-propagating
    pdf/cdf/inverse-cdf adapters, and the `fill` state machines that solve
    the single missing slot of a bundle.

    The statrs numerics are opaque: `NormalLib` and `ChiLib` carry them as
    function parameters, and `show` stands for `f64::to_string`. A `fill`
    that returns `Ok(())` after updating the bundle is `Solved(new bundle)`,
    one that returns `Err(msg)` (always before writing anything) is
    `Refused(msg)`, and a failed `expect` or a `todo!()` is `Panic(msg)`. */
module Distrs {
  import opened Wrappers

  /** The characters `coerce_numeric` keeps: ASCII digits, `.` and `-`. */
  predicate IsNumericChar(c: char) {
    '0' <= c <= '9' || c == '.' || c == '-'
  }

  /** `coerce_numeric`: drop every character that is not numeric. */
  function CoerceNumeric(s: string): (r: string)
    ensures forall i :: 0 <= i < |r| ==> IsNumericChar(r[i])
    ensures forall c :: IsNumericChar(c) ==> multiset(r)[c] == multiset(s)[c]
    ensures (forall i :: 0 <= i < |s| ==> IsNumericChar(s[i])) ==> r == s
  {
    if |s| == 0 then ""
    else
      assert s == [s[0]] + s[1..];
      (if IsNumericChar(s[0]) then [s[0]] else "") + CoerceNumeric(s[1..])
  }

  /** Filtering commutes with concatenation, so the kept characters stay in
      their original order. */
  lemma {:induction false} CoerceNumericAppend(a: string, b: string)
    ensures CoerceNumeric(a + b) == CoerceNumeric(a) + CoerceNumeric(b)
  {
    if |a| == 0 {
      assert a + b == b;
    } else {
      assert (a + b)[0] == a[0];
      assert (a + b)[1..] == a[1..] + b;
      CoerceNumericAppend(a[1..], b);
    }
  }

  /** Filtering twice is filtering once. */
  lemma CoerceNumericIdempotent(s: string)
    ensures CoerceNumeric(CoerceNumeric(s)) == CoerceNumeric(s)
  {
  }

  /** Outcome of a `fill` call. */
  datatype Outcome<S> = Solved(state: S) | Refused(msg: string) | Panic(msg: string)

  const NotEnough: string := "Not enough filled"

  // ---------------------------------------------------------------- Normal

  /** The statrs Normal numerics: `valid(mean, sd)` is whether
      `Normal::new(mean, sd)` succeeds; `quantile` is `inverse_cdf`. */
  datatype NormalLib = NormalLib(
    valid: (real, real) -> bool,
    pdf: (real, real, real) -> real,
    cdf: (real, real, real) -> real,
    quantile: (real, real, real) -> real)

  /** The Normal calculator: four optional slots and the five text boxes
      `[mean, sd, xval, pval, error]`. */
  datatype Normal = Normal(
    mean: Option<real>,
    sd: Option<real>,
    xval: Option<real>,
    pval: Option<real>,
    strings: seq<string>)

  datatype NormalSlot = Mean | Sd | XVal | PVal

  function NormalGet(n: Normal, k: NormalSlot): Option<real> {
    match k
    case Mean => n.mean
    case Sd => n.sd
    case XVal => n.xval
    case PVal => n.pval
  }

  /** Index of a slot's text box in `strings`. */
  function NormalBox(k: NormalSlot): nat {
    match k
    case Mean => 0
    case Sd => 1
    case XVal => 2
    case PVal => 3
  }

  function Count(o: Option<real>): nat {
    if o.Some? then 1 else 0
  }

  /** How many of the four slots are known. */
  function NormalKnown(n: Normal): (r: nat)
    ensures r <= 4
    ensures r == 4 <==> forall k :: NormalGet(n, k).Some?
  {
    assert NormalGet(n, Mean) == n.mean && NormalGet(n, Sd) == n.sd;
    assert NormalGet(n, XVal) == n.xval && NormalGet(n, PVal) == n.pval;
    Count(n.mean) + Count(n.sd) + Count(n.xval) + Count(n.pval)
  }

  /** The slot `fill` solves when exactly three are known, looked for in the
      order x, p, mean, sd. */
  function NormalMissing(n: Normal): (k: NormalSlot)
    requires NormalKnown(n) == 3
    ensures NormalGet(n, k).None?
    ensures forall j :: j != k ==> NormalGet(n, j).Some?
  {
    if n.xval.None? then XVal
    else if n.pval.None? then PVal
    else if n.mean.None? then Mean
    else Sd
  }

  /** `Normal::new(self.mean?, self.sd?).ok()?`: the parameters, when both
      are known and statrs accepts them. */
  function NormalParams(lib: NormalLib, n: Normal): (r: Option<(real, real)>)
    ensures r.Some? <==> n.mean.Some? && n.sd.Some? && lib.valid(n.mean.value, n.sd.value)
    ensures r.Some? ==> r.value == (n.mean.value, n.sd.value)
  {
    var mean :- n.mean;
    var sd :- n.sd;
    if lib.valid(mean, sd) then Some((mean, sd)) else Option.None
  }

  /** `TryContinuous::pdf` for the Normal bundle. */
  function NormalPdf(lib: NormalLib, n: Normal, x: real): (r: Option<real>)
    ensures n.mean.None? || n.sd.None? ==> r.None?
    ensures r.Some? <==> NormalParams(lib, n).Some?
    ensures r.Some? ==> r.value == lib.pdf(n.mean.value, n.sd.value, x)
  {
    var (mean, sd) :- NormalParams(lib, n);
    Some(lib.pdf(mean, sd, x))
  }

  /** `TryContinuous::cdf` for the Normal bundle. */
  function NormalCdf(lib: NormalLib, n: Normal, x: real): (r: Option<real>)
    ensures n.mean.None? || n.sd.None? ==> r.None?
    ensures r.Some? <==> NormalParams(lib, n).Some?
    ensures r.Some? ==> r.value == lib.cdf(n.mean.value, n.sd.value, x)
  {
    var (mean, sd) :- NormalParams(lib, n);
    Some(lib.cdf(mean, sd, x))
  }

  /** `TryContinuous::inverse_cdf` for the Normal bundle. */
  function NormalInverseCdf(lib: NormalLib, n: Normal, p: real): (r: Option<real>)
    ensures n.mean.None? || n.sd.None? ==> r.None?
    ensures r.Some? <==> NormalParams(lib, n).Some?
    ensures r.Some? ==> r.value == lib.quantile(n.mean.value, n.sd.value, p)
  {
    var (mean, sd) :- NormalParams(lib, n);
    Some(lib.quantile(mean, sd, p))
  }

  /** The standard normal quantile `Normal::new(0., 1.).inverse_cdf(p)`. */
  function StdQuantile(lib: NormalLib, p: real): real {
    lib.quantile(0.0, 1.0, p)
  }

  const MedianMsg: string := "Not enough information, prob must not be 0.5"
  const AboveMedianMsg: string := "Prob > 0.5 but x value is less than the mean"
  const BelowMedianMsg: string := "Prob < 0.5 but x value is greater than the mean"
  const SameMsg: string := "Not enough information, mean and x value are the same"
  const StdNormalMsg: string := "SND cant fail"

  /** `Normal::fill`. Both parameter solves first build the standard normal
      with `expect("SND cant fail")`, which panics if statrs rejects (0, 1). */
  function NormalFill(lib: NormalLib, show: real -> string, n: Normal): (r: Outcome<Normal>)
    requires |n.strings| == 5
    ensures NormalKnown(n) <= 2 <==> r == Refused(NotEnough)
    ensures NormalKnown(n) == 4 ==> r == Solved(n)
    ensures r.Solved? ==> NormalKnown(r.state) == 4 && |r.state.strings| == 5
    ensures r.Solved? ==> forall k :: NormalGet(n, k).Some? ==> NormalGet(r.state, k) == NormalGet(n, k)
    ensures r.Solved? && NormalKnown(n) == 3 ==>
      var k := NormalMissing(n);
      && r.state.strings[NormalBox(k)] == show(NormalGet(r.state, k).value)
      && forall j :: 0 <= j < 5 && j != NormalBox(k) ==> r.state.strings[j] == n.strings[j]
    ensures r.Panic? <==>
      NormalKnown(n) == 3 &&
      (if NormalMissing(n) in {XVal, PVal} then NormalParams(lib, n).None? else !lib.valid(0.0, 1.0))
    ensures r.Refused? && r.msg != NotEnough ==> NormalKnown(n) == 3 && NormalMissing(n) == Sd
  {
    var filled := NormalKnown(n);
    if filled <= 2 then Refused(NotEnough)
    else if filled == 4 then Solved(n)
    else if n.xval.None? then
      match NormalInverseCdf(lib, n, n.pval.value)
      case None => Panic("Xval was only None")
      case Some(fill) => Solved(n.(xval := Some(fill), strings := n.strings[2 := show(fill)]))
    else if n.pval.None? then
      match NormalCdf(lib, n, n.xval.value)
      case None => Panic("Pval was only None, and distr is ok")
      case Some(fill) => Solved(n.(pval := Some(fill), strings := n.strings[3 := show(fill)]))
    else if !lib.valid(0.0, 1.0) then Panic(StdNormalMsg)
    else if n.mean.None? then
      var inv := StdQuantile(lib, n.pval.value);
      var fill := n.xval.value - n.sd.value * inv;
      Solved(n.(mean := Some(fill), strings := n.strings[0 := show(fill)]))
    else
      var inv := StdQuantile(lib, n.pval.value);
      if inv == 0.0 then Refused(MedianMsg)
      else
        var fill := (n.xval.value - n.mean.value) / inv;
        if fill < 0.0 then
          Refused(if inv > 0.0 then AboveMedianMsg else BelowMedianMsg)
        else if fill == 0.0 then Refused(SameMsg)
        else Solved(n.(sd := Some(fill), strings := n.strings[1 := show(fill)]))
  }

  /** Solving x inverts the cdf at p, and solving p evaluates it at x. */
  lemma NormalSolveXP(lib: NormalLib, show: real -> string, n: Normal)
    requires |n.strings| == 5 && NormalKnown(n) == 3 && NormalParams(lib, n).Some?
    ensures var r := NormalFill(lib, show, n);
      && (n.xval.None? ==> r.Solved? && r.state.xval == Some(lib.quantile(n.mean.value, n.sd.value, n.pval.value)))
      && (n.pval.None? ==> r.Solved? && r.state.pval == Some(lib.cdf(n.mean.value, n.sd.value, n.xval.value)))
  {
  }

  /** Solving the mean places x exactly `z` standard deviations from it,
      where `z` is the standard normal quantile of p. It fails only by the
      `expect` on the standard normal. */
  lemma NormalSolveMean(lib: NormalLib, show: real -> string, n: Normal)
    requires |n.strings| == 5 && NormalKnown(n) == 3 && n.mean.None?
    ensures var r := NormalFill(lib, show, n);
      && (!lib.valid(0.0, 1.0) ==> r == Panic(StdNormalMsg))
      && (lib.valid(0.0, 1.0) ==> r.Solved?)
      && (r.Solved? ==> r.state.mean.value + n.sd.value * StdQuantile(lib, n.pval.value) == n.xval.value)
  {
  }

  /** The error ladder of the sd solve, by the signs of `z` (the standard
      normal quantile of p) and of `x - mean`; when it succeeds the new sd
      is positive and again puts x exactly `z` standard deviations from the
      mean. */
  lemma NormalSolveSd(lib: NormalLib, show: real -> string, n: Normal)
    requires |n.strings| == 5 && NormalKnown(n) == 3 && n.sd.None?
    ensures var r := NormalFill(lib, show, n);
      var z := StdQuantile(lib, n.pval.value);
      var d := n.xval.value - n.mean.value;
      && (!lib.valid(0.0, 1.0) ==> r == Panic(StdNormalMsg))
      && (lib.valid(0.0, 1.0) && z == 0.0 ==> r == Refused(MedianMsg))
      && (lib.valid(0.0, 1.0) && z > 0.0 && d < 0.0 ==> r == Refused(AboveMedianMsg))
      && (lib.valid(0.0, 1.0) && z < 0.0 && d > 0.0 ==> r == Refused(BelowMedianMsg))
      && (lib.valid(0.0, 1.0) && z != 0.0 && d == 0.0 ==> r == Refused(SameMsg))
      && (lib.valid(0.0, 1.0) && ((z > 0.0 && d > 0.0) || (z < 0.0 && d < 0.0)) <==> r.Solved?)
      && (r.Solved? ==> r.state.sd.value > 0.0 && r.state.sd.value * z == d)
  {
    var z := StdQuantile(lib, n.pval.value);
    var d := n.xval.value - n.mean.value;
    if z != 0.0 {
      var q := d / z;
      assert q * z == d;
      if z > 0.0 {
        assert d < 0.0 <==> q < 0.0;
        assert d == 0.0 <==> q == 0.0;
      } else {
        assert d > 0.0 <==> q < 0.0;
        assert d == 0.0 <==> q == 0.0;
      }
    }
  }

  /** Probability one half cannot determine the sd: given that the standard
      quantile of 0.5 is 0, such a solve is refused, unless statrs already
      failed to build the standard normal. */
  lemma NormalMedianAmbiguous(lib: NormalLib, show: real -> string, n: Normal)
    requires |n.strings| == 5 && NormalKnown(n) == 3 && n.sd.None?
    requires n.pval == Some(0.5) && StdQuantile(lib, 0.5) == 0.0
    ensures NormalFill(lib, show, n) == if lib.valid(0.0, 1.0) then Refused(MedianMsg) else Panic(StdNormalMsg)
  {
  }

  /** The laws of a normal distribution the consistency proof relies on:
      statrs accepts exactly the positive standard deviations, the quantile
      inverts the cdf on (0, 1), and every normal is the standard one shifted
      and scaled. */
  ghost predicate NormalLaws(lib: NormalLib) {
    && (forall m, s :: lib.valid(m, s) <==> s > 0.0)
    && (forall m, s, p :: lib.valid(m, s) && 0.0 < p < 1.0 ==> lib.cdf(m, s, lib.quantile(m, s, p)) == p)
    && (forall m, s, p {:trigger lib.valid(m, s), StdQuantile(lib, p)} ::
          lib.valid(m, s) && 0.0 < p < 1.0 ==> lib.cdf(m, s, m + s * StdQuantile(lib, p)) == p)
  }

  /** The shift law of `NormalLaws` at a point `x` that lies `z` standard
      deviations from the mean, `z` being the standard quantile of `p`. */
  lemma ShiftLaw(lib: NormalLib, m: real, s: real, p: real, x: real)
    requires NormalLaws(lib)
    requires lib.valid(m, s) && 0.0 < p < 1.0
    requires m + s * StdQuantile(lib, p) == x
    ensures lib.cdf(m, s, x) == p
  {
    assert lib.cdf(m, s, m + s * StdQuantile(lib, p)) == p;
  }

  /** A fully known bundle whose probability is the cdf at its x value. */
  ghost predicate NormalConsistent(lib: NormalLib, n: Normal) {
    && NormalKnown(n) == 4
    && lib.valid(n.mean.value, n.sd.value)
    && n.pval.value == lib.cdf(n.mean.value, n.sd.value, n.xval.value)
  }

  /** Whatever slot `fill` solves, the result is consistent: re-deriving p
      from the other three slots gives p back. */
  lemma NormalFillConsistent(lib: NormalLib, show: real -> string, n: Normal)
    requires NormalLaws(lib)
    requires |n.strings| == 5 && NormalKnown(n) == 3
    requires n.sd.Some? ==> n.sd.value > 0.0
    requires n.pval.Some? ==> 0.0 < n.pval.value < 1.0
    ensures NormalFill(lib, show, n).Solved? ==> NormalConsistent(lib, NormalFill(lib, show, n).state)
  {
    var r := NormalFill(lib, show, n);
    if r.Solved? {
      var m := r.state;
      match NormalMissing(n)
      case XVal =>
        assert lib.valid(m.mean.value, m.sd.value);
      case PVal =>
      case Mean => NormalMeanConsistent(lib, show, n);
      case Sd => NormalSdConsistent(lib, show, n);
    }
  }

  lemma NormalMeanConsistent(lib: NormalLib, show: real -> string, n: Normal)
    requires NormalLaws(lib)
    requires |n.strings| == 5 && NormalKnown(n) == 3 && n.mean.None?
    requires n.sd.value > 0.0 && 0.0 < n.pval.value < 1.0
    ensures NormalFill(lib, show, n).Solved? ==> NormalConsistent(lib, NormalFill(lib, show, n).state)
  {
    var r := NormalFill(lib, show, n);
    NormalSolveMean(lib, show, n);
    if r.Solved? {
      var m := r.state;
      assert lib.valid(m.mean.value, m.sd.value);
      ShiftLaw(lib, m.mean.value, m.sd.value, n.pval.value, m.xval.value);
    }
  }

  lemma NormalSdConsistent(lib: NormalLib, show: real -> string, n: Normal)
    requires NormalLaws(lib)
    requires |n.strings| == 5 && NormalKnown(n) == 3 && n.sd.None?
    requires 0.0 < n.pval.value < 1.0
    ensures NormalFill(lib, show, n).Solved? ==> NormalConsistent(lib, NormalFill(lib, show, n).state)
  {
    var r := NormalFill(lib, show, n);
    NormalSolveSd(lib, show, n);
    if r.Solved? {
      var m := r.state;
      assert m.mean == n.mean && m.xval == n.xval && m.pval == n.pval by {
        assert NormalGet(r.state, Mean) == NormalGet(n, Mean);
        assert NormalGet(r.state, XVal) == NormalGet(n, XVal);
        assert NormalGet(r.state, PVal) == NormalGet(n, PVal);
      }
      assert lib.valid(m.mean.value, m.sd.value);
      ShiftLaw(lib, m.mean.value, m.sd.value, n.pval.value, m.xval.value);
    }
  }

  /** `Normal::default`: mean 0, sd 1, x 0 and no probability. */
  function NormalDefault(): (n: Normal)
    ensures |n.strings| == 5 && NormalKnown(n) == 3 && NormalMissing(n) == PVal
  {
    Normal(Some(0.0), Some(1.0), Some(0.0), Option.None, ["0.0", "1.0", "0.0", "", ""])
  }

  /** Calculating from the default bundle fills the probability P(X <= 0). */
  lemma NormalDefaultFill(lib: NormalLib, show: real -> string)
    requires lib.valid(0.0, 1.0)
    ensures var p := lib.cdf(0.0, 1.0, 0.0);
      NormalFill(lib, show, NormalDefault()) ==
        Solved(NormalDefault().(pval := Some(p), strings := ["0.0", "1.0", "0.0", show(p), ""]))
  {
    var p := lib.cdf(0.0, 1.0, 0.0);
    assert NormalDefault().strings[3 := show(p)] == ["0.0", "1.0", "0.0", show(p), ""];
  }

  // ------------------------------------------------------------ ChiSquare

  /** The statrs Chi-squared numerics: `valid(k)` is whether
      `ChiSquared::new(k)` succeeds. */
  datatype ChiLib = ChiLib(
    valid: real -> bool,
    pdf: (real, real) -> real,
    cdf: (real, real) -> real,
    quantile: (real, real) -> real)

  /** The Chi-squared calculator: three optional slots and the four text
      boxes `[freedom, xval, pval, error]`. */
  datatype ChiSquare = ChiSquare(
    freedom: Option<real>,
    xval: Option<real>,
    pval: Option<real>,
    strings: seq<string>)

  datatype ChiSlot = Freedom | ChiX | ChiP

  function ChiGet(c: ChiSquare, k: ChiSlot): Option<real> {
    match k
    case Freedom => c.freedom
    case ChiX => c.xval
    case ChiP => c.pval
  }

  function ChiBox(k: ChiSlot): nat {
    match k
    case Freedom => 0
    case ChiX => 1
    case ChiP => 2
  }

  function ChiKnown(c: ChiSquare): (r: nat)
    ensures r <= 3
    ensures r == 3 <==> forall k :: ChiGet(c, k).Some?
  {
    assert ChiGet(c, Freedom) == c.freedom && ChiGet(c, ChiX) == c.xval && ChiGet(c, ChiP) == c.pval;
    Count(c.freedom) + Count(c.xval) + Count(c.pval)
  }

  /** The slot `fill` solves when exactly two are known, looked for in the
      order x, p, freedom. */
  function ChiMissing(c: ChiSquare): (k: ChiSlot)
    requires ChiKnown(c) == 2
    ensures ChiGet(c, k).None?
    ensures forall j :: j != k ==> ChiGet(c, j).Some?
  {
    if c.xval.None? then ChiX
    else if c.pval.None? then ChiP
    else Freedom
  }

  /** `ChiSquared::new(self.freedom?).ok()?`. */
  function ChiParam(lib: ChiLib, c: ChiSquare): (r: Option<real>)
    ensures r.Some? <==> c.freedom.Some? && lib.valid(c.freedom.value)
    ensures r.Some? ==> r.value == c.freedom.value
  {
    var k :- c.freedom;
    if lib.valid(k) then Some(k) else Option.None
  }

  /** `TryContinuous::pdf` for the Chi-squared bundle. */
  function ChiPdf(lib: ChiLib, c: ChiSquare, x: real): (r: Option<real>)
    ensures c.freedom.None? ==> r.None?
    ensures r.Some? <==> ChiParam(lib, c).Some?
    ensures r.Some? ==> r.value == lib.pdf(c.freedom.value, x)
  {
    var k :- ChiParam(lib, c);
    Some(lib.pdf(k, x))
  }

  /** `TryContinuous::cdf` for the Chi-squared bundle. */
  function ChiCdf(lib: ChiLib, c: ChiSquare, x: real): (r: Option<real>)
    ensures c.freedom.None? ==> r.None?
    ensures r.Some? <==> ChiParam(lib, c).Some?
    ensures r.Some? ==> r.value == lib.cdf(c.freedom.value, x)
  {
    var k :- ChiParam(lib, c);
    Some(lib.cdf(k, x))
  }

  /** `TryContinuous::inverse_cdf` for the Chi-squared bundle. */
  function ChiInverseCdf(lib: ChiLib, c: ChiSquare, p: real): (r: Option<real>)
    ensures c.freedom.None? ==> r.None?
    ensures r.Some? <==> ChiParam(lib, c).Some?
    ensures r.Some? ==> r.value == lib.quantile(c.freedom.value, p)
  {
    var k :- ChiParam(lib, c);
    Some(lib.quantile(k, p))
  }

  /** `ChiSquare::fill`. Solving for the degrees of freedom is `todo!()`. */
  function ChiFill(lib: ChiLib, show: real -> string, c: ChiSquare): (r: Outcome<ChiSquare>)
    requires |c.strings| == 4
    ensures ChiKnown(c) <= 1 <==> r == Refused(NotEnough)
    ensures ChiKnown(c) == 3 ==> r == Solved(c)
    ensures r.Refused? ==> r.msg == NotEnough
    ensures r.Solved? ==> ChiKnown(r.state) == 3 && |r.state.strings| == 4
    ensures r.Solved? ==> forall k :: ChiGet(c, k).Some? ==> ChiGet(r.state, k) == ChiGet(c, k)
    ensures r.Solved? && ChiKnown(c) == 2 ==>
      var k := ChiMissing(c);
      && r.state.strings[ChiBox(k)] == show(ChiGet(r.state, k).value)
      && forall j :: 0 <= j < 4 && j != ChiBox(k) ==> r.state.strings[j] == c.strings[j]
    ensures r.Panic? <==>
      ChiKnown(c) == 2 && (ChiMissing(c) == Freedom || ChiParam(lib, c).None?)
    ensures ChiKnown(c) == 2 && ChiMissing(c) == ChiX && ChiParam(lib, c).Some? ==>
      r.Solved? && r.state.xval == Some(lib.quantile(c.freedom.value, c.pval.value))
    ensures ChiKnown(c) == 2 && ChiMissing(c) == ChiP && ChiParam(lib, c).Some? ==>
      r.Solved? && r.state.pval == Some(lib.cdf(c.freedom.value, c.xval.value))
  {
    var filled := ChiKnown(c);
    if filled <= 1 then Refused(NotEnough)
    else if filled == 3 then Solved(c)
    else if c.xval.None? then
      match ChiInverseCdf(lib, c, c.pval.value)
      case None => Panic("Xval was only None")
      case Some(fill) => Solved(c.(xval := Some(fill), strings := c.strings[1 := show(fill)]))
    else if c.pval.None? then
      match ChiCdf(lib, c, c.xval.value)
      case None => Panic("Pval was only None, and distr is ok")
      case Some(fill) => Solved(c.(pval := Some(fill), strings := c.strings[2 := show(fill)]))
    else
      Panic("not yet implemented")
  }

  /** `ChiSquare::default`: 10 degrees of freedom, x 1 and no probability. */
  function ChiDefault(): (c: ChiSquare)
    ensures |c.strings| == 4 && ChiKnown(c) == 2 && ChiMissing(c) == ChiP
  {
    ChiSquare(Some(10.0), Some(1.0), Option.None, ["10.0", "1.0", "", ""])
  }

  /** The Chi-squared quantile inverts its cdf on (0, 1) for every accepted
      number of degrees of freedom. */
  ghost predicate ChiLaws(lib: ChiLib) {
    forall k, p :: lib.valid(k) && 0.0 < p < 1.0 ==> lib.cdf(k, lib.quantile(k, p)) == p
  }

  /** Under `ChiLaws`, a solved Chi-squared bundle is consistent: p is the
      cdf at x. */
  lemma ChiFillConsistent(lib: ChiLib, show: real -> string, c: ChiSquare)
    requires ChiLaws(lib)
    requires |c.strings| == 4 && ChiKnown(c) == 2
    requires c.pval.Some? ==> 0.0 < c.pval.value < 1.0
    ensures ChiFill(lib, show, c).Solved? ==>
      var s := ChiFill(lib, show, c).state;
      lib.valid(s.freedom.value) && s.pval.value == lib.cdf(s.freedom.value, s.xval.value)
  {
  }
}
