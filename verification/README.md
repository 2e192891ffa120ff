# opencrunch core in Dafny

opencrunch is a desktop statistics calculator. Every calculator is a Rust
struct whose numeric fields are mirrored by a `strings` array of text boxes:
one per field, plus one the macro reserves for an error message, which some
calculators (`Cheby`, `Calc`) reuse for their output. The `crunch_fill`
attribute macro adds that array and a `vfill` method that copies every box
that parses into its field. Each field may be a `Constr`: a small algebra
of constraints (`>=v`, `<v`, `==v`, `[a,b]`, `]a,b[`, a bare operator with
its value still missing, or nothing) with a text grammar. The calculators
then solve the one unknown slot of a Normal or Chi-squared bundle, or turn
a target constraint on a sample mean into a probability.

This project models that core as pure Dafny functions over immutable
datatypes and proves properties of the model:

- `wrappers.dfy`: `Option` and `Result`, with `:-` standing in for `?`.
- `constraints.dfy` (module `Constraints`): the `Constr<T>` datatype and
  `from_str`, `to_string`, `comp`, `as_val`, the classifiers and `eval`. The
  payload type is generic. `num` and `show` are its `FromStr` and `Display`.
  The grammar theorems assume only that the codec agrees at the payloads
  involved (`CodecAt`, `CodecOn`): parsing undoes printing there, the
  printed text holds no grammar character, and the empty text is no
  payload. This is what a float formatter offers for the values it prints.
- `decimal.dfy` (module `Decimal`): a decimal-integer payload codec. It
  meets `PayloadCodec`, the codec conditions at every value, so the grammar
  theorems apply to every constraint over this payload type.
- `distrs.dfy` (module `Distrs`): `coerce_numeric`, the `Normal` and
  `ChiSquare` bundles, their `Option`-propagating pdf/cdf/inverse-cdf, and
  their `fill` solvers. The statrs numerics are the record parameters
  `NormalLib` and `ChiLib`. Where a proof needs the distribution laws, it
  takes them as the predicates `NormalLaws` and `ChiLaws`.
- `calcs.dfy` (module `Calcs`): the target-to-probability dispatch shared
  by both sample calculators, the infinite- and finite-population
  updates, the finite-population correction, the corrected sample sd, and
  the Chebyshev value. `sqrt` and `f64::to_string` are parameters.
- `derive.dfy` (module `Derive`): `crunch_fill` and `crunch_fill_eval`
  over an abstract token tree, with Rust's `slice::split`, and the
  semantics of the generated `vfill` methods.

A `fill` that returns `Ok(())` after updating the bundle is modelled as
`Solved(new bundle)`. A `fill` that returns `Err(msg)` is `Refused(msg)`;
it never writes anything before failing. A failed `expect` or a `todo!()`
is `Panic(msg)`. A macro panic is `Err(message)`.

## Model

| member | source | states |
|---|---|---|
| Constraints.Parse | src/main.rs:181-273 | Only the six exact operator texts give the six valueless constraints, each from exactly its own text. Only the empty text gives `None`. Every failure is one of the five messages the parser defines. |
| Constraints.ParseRange | src/main.rs:234-265 | A text opening with `[` can only give `In` and one opening with `]` only `Out`. Any failure is one of the parser's messages. |
| Constraints.Print | src/main.rs:276-296 | Each valued constraint prints as its operator (`==` for equality) or its brackets around its printed payloads, and only `None` prints as the empty text. Its partner is `PrintParseRoundTrip`, which shows the printed text parses back. |
| Constraints.PrintParseRoundTrip | src/main.rs:181-296 | Parsing the printed form of any constraint gives it back, for all fifteen variants. It needs payload parsing to invert payload printing at the constraint's own payloads, printed payloads free of grammar characters, and the empty text not to be a payload. |
| Constraints.ParseRangeForm | src/main.rs:234-265 | `[a,b]rest` parses to `In(num(a), num(b))` and `]a,b[rest` to `Out(num(a), num(b))`. It fails with "Not a valid input" when either payload does not parse. Text after the closer is ignored. |
| Constraints.TwoCharPayload | src/main.rs:199-218 | `>=t`, `<=t`, `==t` and `!=t` give GE, LE, EQ and NE of `num(t)`, or "Not a valid input". The two-character operators win over the one-character ones, so `>=t` never gives `GT`. |
| Constraints.OneCharPayload | src/main.rs:219-233 | `>t`, `<t` and `=t` give GT, LT and EQ of `num(t)`, or "Not a valid input". |
| Constraints.EqualForms | src/main.rs:209-213 | `==v`, `=v` and the bare payload `v` all parse to `EQ(v)`, wherever parsing inverts printing at `v` alone. |
| Constraints.MissingComma | src/main.rs:234-237 | A bracket with no comma after it fails with "Comma expected in range". |
| Constraints.MissingCloser | src/main.rs:238-242 | A range with its comma but no matching closer after the comma fails with "End ] expected" or "End [ expected". |
| Constraints.NotAConstraint | src/main.rs:266-271 | Non-empty text with no operator or bracket prefix that is not a payload fails with "Not a valid constraint". |
| Constraints.Comp | src/main.rs:298-318 | `GE(v)` accepts x exactly when `x >= v`, `GT(v)` when `x > v`, `EQ(v)` when `x == v`, and `In(a, b)` when `a <= x <= b`. With `CompComplement` this fixes `LT`, `LE`, `NE` and `Out` too. For a constraint without a value, `comp` holds exactly when the constraint is `None`. |
| Constraints.CompComplement | src/main.rs:298-318 | `None` accepts every value and the sentinels accept none. Each valued constraint has a complement: `GE`/`LT`, `GT`/`LE`, `EQ`/`NE`, `In`/`Out`. The complement accepts exactly the values the constraint rejects. Only valued constraints have one. |
| Constraints.AsVal | src/main.rs:321-326 | Gives a value exactly for a valued equality constraint, and that value is its only payload. |
| Constraints.IndexOf | src/main.rs:235-255 | `str::find` of one character, as the range parser uses it: no position exactly when the character does not occur, and otherwise the position of its first occurrence. |
| Constraints.Classes | src/main.rs:328-342 | `is_ineq` holds exactly for the constraints printed with `<`, `>`, `[` or `]` first and `is_eq` exactly for those printed with `=` or `!` first. Every constraint but `None` is in one class and not both, and a complement stays in its class. |
| Constraints.IsEq | src/main.rs:328-349 | `is_eq` and `is_ineq` split the fourteen non-`None` variants between them. |
| Constraints.IsRange | src/main.rs:351-353 | The ranges are the inequalities that carry two payloads. |
| Constraints.IsSome | src/main.rs:355-366 | `is_some` holds exactly when the constraint carries a payload. |
| Constraints.Eval | src/main.rs:369-389 | Succeeds exactly when every payload evaluates. On success it keeps the variant and maps each payload to its value. On failure it returns the error of the first failing payload, all earlier ones having succeeded. |
| Decimal.IntCodec | src/main.rs:181-296 | Decimal integers satisfy the payload conditions of the round-trip theorem at every integer. |
| Decimal.IntRoundTrip | src/main.rs:181-296 | Every constraint over decimal integers survives `to_string` then `from_str`. |
| Distrs.CoerceNumeric | src/distrs.rs:16-18 | Keeps only digits, `.` and `-`, with every such character kept as often as it occurred. Text already numeric is unchanged. |
| Distrs.CoerceNumericAppend | src/distrs.rs:16-18 | Filtering distributes over concatenation, so kept characters stay in their order. |
| Distrs.CoerceNumericIdempotent | src/distrs.rs:16-18 | Filtering twice is filtering once. |
| Distrs.NormalKnown | src/distrs.rs:89 | The count of known slots is at most four, and four exactly when every slot is known. |
| Distrs.NormalMissing | src/distrs.rs:94-131 | With three slots known, the slot `fill` solves is the unknown one, and the others are known. |
| Distrs.NormalParams | src/distrs.rs:41-53 | The parameters exist exactly when mean and sd are both known and statrs accepts them. |
| Distrs.NormalPdf | src/distrs.rs:42-44 | Defined exactly when the parameters are, and then it is the statrs pdf of those parameters. |
| Distrs.NormalCdf | src/distrs.rs:46-48 | Defined exactly when the parameters are, and then it is the statrs cdf. |
| Distrs.NormalInverseCdf | src/distrs.rs:50-52 | Defined exactly when the parameters are, and then it is the statrs inverse cdf. |
| Distrs.NormalFill | src/distrs.rs:88-142 | Refuses "Not enough filled" exactly when two or fewer slots are known. A full bundle is returned unchanged. A solve fills all four slots, keeps every known slot, shows the new value in its own box and leaves the other boxes alone. It panics exactly when x or p is missing and statrs rejects the parameters, or mean or sd is missing and statrs rejects the standard normal. Any other refusal comes from the sd solve. |
| Distrs.NormalSolveXP | src/distrs.rs:95-104 | The missing x becomes the inverse cdf at p. The missing p becomes the cdf at x. |
| Distrs.NormalSolveMean | src/distrs.rs:105-111 | The mean solve succeeds unless statrs rejects the standard normal, which panics. The solved mean puts x exactly z standard deviations above it, where z is the standard normal quantile of p. |
| Distrs.NormalSolveSd | src/distrs.rs:112-131 | Panics if statrs rejects the standard normal. Otherwise it gives the refusal for every sign of z and of `x - mean`, and succeeds exactly when the two signs agree and are non-zero. The solved sd is then positive and puts x exactly z sds from the mean. |
| Distrs.NormalMedianAmbiguous | src/distrs.rs:113-116 | With p = 0.5 the sd cannot be solved: the solve is refused, or panics if the standard normal itself is rejected. |
| Distrs.NormalFillConsistent | src/distrs.rs:88-142 | Assume the normal laws: positive sd only, the quantile inverts the cdf, and shift-and-scale. Assume also that a known sd is positive and a known p lies strictly between 0 and 1. Then whatever slot `fill` solves, the bundle's p is the cdf at its x. |
| Distrs.NormalMeanConsistent | src/distrs.rs:105-111 | The mean solve case of that consistency. |
| Distrs.NormalSdConsistent | src/distrs.rs:112-131 | The sd solve case of that consistency. |
| Distrs.NormalDefault | src/distrs.rs:29-39 | The default bundle knows mean, sd and x, so `fill` solves for p. |
| Distrs.NormalDefaultFill | src/distrs.rs:29-39 | Calculating from the default bundle fills P(X <= 0) into p and its box, and changes nothing else. |
| Distrs.ChiKnown | src/distrs.rs:210 | The count of known slots is at most three, and three exactly when all are known. |
| Distrs.ChiMissing | src/distrs.rs:215-228 | With two slots known, the slot solved is the unknown one. |
| Distrs.ChiParam | src/distrs.rs:164-176 | The degrees of freedom exist exactly when known and accepted by statrs. |
| Distrs.ChiPdf | src/distrs.rs:165-167 | Defined exactly when the parameter is, and then it is the statrs pdf. |
| Distrs.ChiCdf | src/distrs.rs:169-171 | Defined exactly when the parameter is, and then it is the statrs cdf. |
| Distrs.ChiInverseCdf | src/distrs.rs:173-175 | Defined exactly when the parameter is, and then it is the statrs inverse cdf. |
| Distrs.ChiFill | src/distrs.rs:209-239 | Refuses exactly when one slot or none is known, and a full bundle is unchanged. A solve keeps known slots and only touches the solved slot's box. It panics exactly when the freedom is the missing slot (a `todo!()`) or statrs rejects it. x becomes the quantile of p, and p the cdf at x. |
| Distrs.ChiDefault | src/distrs.rs:153-162 | The default bundle knows freedom and x, so `fill` solves for p. |
| Distrs.ChiFillConsistent | src/distrs.rs:209-239 | Assume the quantile inverts the cdf and a known p lies strictly between 0 and 1. Then a solved bundle's p is the cdf at its x. |
| Calcs.TargetProb | src/calcs.rs:104-134 | `LE(v)` and `LT(v)` give the mass below v, `cdf(v)`. `GE(v)` and `GT(v)` give `1 - cdf(v)`. `In(a, b)` gives `cdf(b) - cdf(a)` and `Out(a, b)` gives `1 - cdf(b) + cdf(a)`. A valued `EQ`/`NE` gives "Cannot use exact in a continuous distribution.". A constraint without a value gives the calculator's "unset" message. |
| Calcs.TargetProbComplement | src/calcs.rs:106-117 | Complementary order targets (`GE`/`LT`, `GT`/`LE`, `In`/`Out`) get probabilities that sum to one. |
| Calcs.RangeFromTails | src/calcs.rs:116-117 | The range masses agree with the one-sided ones: `In` is the mass below b less that below a, and `Out` is the mass below a plus that above b. |
| Calcs.TargetProbInUnit | src/calcs.rs:104-134 | With a true cdf and ordered range ends, every computed probability lies in [0, 1]. |
| Calcs.InfDefault | src/calcs.rs:68-86 | The default calculator has six boxes and a positive sample size. |
| Calcs.InfDefaultTarget | src/calcs.rs:68-86 | The default target box reads `LT(0.0)` while the field holds `LE(0.0)`. Both give the same probability. |
| Calcs.StdError | src/calcs.rs:104 | The scale of the sampling distribution is `sd / sqrt(n)`: times `sqrt(n)` it gives back sd, it has the sign of sd, and squared times n it is the population variance. |
| Calcs.InfProbUpdate | src/calcs.rs:104-134 | Only `prob` and the boxes 4 and 5 change. `prob` becomes `EQ(p)` exactly when statrs accepts `Normal(mean, sd/sqrt(n))` and the target has a probability, and p is that probability. Otherwise `prob` is cleared. Box 4 shows p, or is empty when there is none. Box 5 is empty on success, and otherwise shows statrs' message, "Cannot use exact in a continuous distribution." for an exact target, or "Target mean must be set" for a target without a value. |
| Calcs.InfProbTextAgrees | src/calcs.rs:104-134 | After the update, box 4 parses back to `prob`, wherever the empty text is no number and parsing inverts printing at the probability shown. |
| Calcs.Correction | src/calcs.rs:225-227 | The correction is 1 for a single draw and 0 for a census. It lies in [0, 1] for any sample within the population. Times `N - 1` it is `N - n`. |
| Calcs.FinCorrect | src/calcs.rs:225-228 | Only `correct` and box 2 change. The new correction satisfies the correction relation. |
| Calcs.SampleSd | src/calcs.rs:238 | For a non-negative correction, the sample sd is non-negative and its square times n is the corrected variance. |
| Calcs.FinSampleSd | src/calcs.rs:238-239 | Only `sample_sd` and box 5 change, and the new value is the corrected standard error. |
| Calcs.FinDefault | src/calcs.rs:192-216 | The default correction and sample sd are the values the update formulas give for N = 20, n = 1, sd = 1. |
| Calcs.FinProbUpdateAsWritten | src/calcs.rs:254-283 | When statrs rejects the sampling distribution, `prob` is cleared and the error is shown. Box 7 keeps its old text. |
| Calcs.FinStaleProbText | src/calcs.rs:279-282 | As written, a rejected distribution leaves `prob` empty while box 7 still parses to the old `EQ(0.5)`, wherever parsing inverts printing at 0.5. |
| Calcs.FinProbUpdate | src/calcs.rs:254-283 | With box 7 cleared on a statrs error, only `prob` and the boxes 7 and 8 change. `prob` is `EQ(p)` exactly when the distribution is accepted and the target has a probability. Box 7 shows p, or is empty when there is none. Box 8 is empty on success, and otherwise shows statrs' message, the exact-target message, or "Must set target mean.". In every accepted case the update equals the source's. |
| Calcs.FinProbTextAgrees | src/calcs.rs:254-283 | After the corrected update, box 7 parses back to `prob`, wherever the empty text is no number and parsing inverts printing at the probability shown. |
| Calcs.Cheby | src/calcs.rs:346 | The Chebyshev value is non-negative, and times `n * deviation^2` it is the variance. |
| Calcs.ChebyDefault | src/calcs.rs:325-336 | The default fields are in the domain of the Chebyshev formula. |
| Calcs.ChebyUpdate | src/calcs.rs:345-348 | Only the result box changes, and it shows a value satisfying the Chebyshev relation for the current fields. |
| Derive.OnPunct | opencrunch-derive/src/lib.rs:141-149 | The predicate holds exactly for the punctuation token of that character. |
| Derive.Split | opencrunch-derive/src/lib.rs:23-25 | Rust's `slice::split` gives at least one segment. Joining the segments with the separator gives back the input, and no segment holds a separator. |
| Derive.SplitJoin | opencrunch-derive/src/lib.rs:23-25 | Splitting a join of separator-free segments gives the segments back. |
| Derive.FieldNames | opencrunch-derive/src/lib.rs:25-28 | There are never more names than segments. When no segment is empty, the names are the first tokens of the segments, in order. |
| Derive.FieldNamesAppend | opencrunch-derive/src/lib.rs:25-28 | The names of a concatenation of segment lists are the names of the parts, so each segment is read on its own wherever it stands. |
| Derive.FieldNamesSingle | opencrunch-derive/src/lib.rs:25-28 | An empty segment contributes no name and a non-empty one its first token. With `FieldNamesAppend` this skips empty segments in any position. |
| Derive.StringsField | opencrunch-derive/src/lib.rs:33-42 | The appended tokens are `strings : [String; vals] ,`. They are preceded by a comma exactly when `end_comma` is unset, that is, when no comma-split segment of the body is empty. |
| Derive.StructPos | opencrunch-derive/src/lib.rs:13-18 | Finds the first `struct` identifier, and finds nothing exactly when there is none. |
| Derive.CrunchFill | opencrunch-derive/src/lib.rs:5-70 | The error cases, in the source's order: an empty item gives "Struct expected". No `struct`, or no token after it, gives the `unwrap` panic. A body that is not a group gives the unit-struct panic. On success the name is the token after `struct`, the names come from the comma-split body, and `strings` has one box per name plus one. |
| Derive.CrunchFillStruct | opencrunch-derive/src/lib.rs:5-52 | On `struct Name { f1: T1, ..., fk: Tk }`, with or without a trailing comma, the macro succeeds and finds exactly the declared names. It sizes `strings` to k + 1 and appends the doc attribute and the `strings` field, adding a separating comma only when needed. |
| Derive.CrunchFillItem | opencrunch-derive/src/lib.rs:5-52 | On `prefix struct name { body }` the macro replaces the body with the extended one and leaves the rest of the item unchanged. |
| Derive.RenderFields | opencrunch-derive/src/lib.rs:21-28 | Reading a rendered body gives back its declared names. `end_comma` is set exactly when there was a trailing comma or no field. |
| Derive.VFill | opencrunch-derive/src/lib.rs:53-57 | Field i takes the value its box parses to, and keeps its value when the box does not parse. The error box is never read. The result is a `Refilled` state, so `VFillIdempotent` applies to it. |
| Derive.VFillIdempotent | opencrunch-derive/src/lib.rs:53-57 | A second `vfill` changes nothing. |
| Derive.ParseEval | opencrunch-derive/src/lib.rs:121-125 | A box yields a value exactly when it parses as a constraint over expressions and every payload evaluates. The value has the parsed constraint's variant and is exactly what `eval` gives for it. |
| Derive.VFillEval | opencrunch-derive/src/lib.rs:120-126 | Field i becomes the evaluated constraint when its box parses and evaluates, and otherwise keeps its value. |

## Left out

- The statrs distributions are record parameters (`NormalLib`, `ChiLib`).
  They are not computed. Laws about them are hypotheses (`NormalLaws`,
  `ChiLaws`, `IsCdf`, `IsSqrt`), not proved facts.
- `f64` is modelled as Dafny's exact `real`. NaN, infinities, rounding and
  `f64::to_string`/`parse` are not modelled: `show` and `num` are
  parameters. Exact arithmetic makes the relations in `StdError`,
  `SampleSd`, `Correction` and `Cheby` exact where the program only
  approximates them.
- Calcs.Correction: requires `pop_size != 1`. The program divides by zero
  there and gets an infinity or NaN, which floats do not model here.
- Calcs.FinCorrect: requires `pop_size != 1`, for the same reason.
- Calcs.StdError: requires `sample_size > 0`; the program divides by
  `sqrt(0)` there.
- Calcs.InfProbUpdate: requires `sample_size > 0`, for the same reason.
- Calcs.SampleSd: requires `sample_size > 0`; the program divides by zero
  there.
- Calcs.FinSampleSd: requires `sample_size > 0`, for the same reason.
- Calcs.Cheby: requires `sample_size > 0` and `deviation != 0`; the
  program divides by zero there.
- Calcs.ChebyUpdate: requires `sample_size > 0` and `deviation != 0`, for
  the same reason.
- Calcs.ChebyUpdate: it states the relation of the shown value, not the
  exact floating-point formula.
- meval's `Expr` is a type parameter. Its parser and `eval` are the
  parameters `num` and `ev`.
- `Constr` byte slicing: the program slices `&str` by bytes and would panic
  inside a multi-byte character. The model works on characters.
- The egui widgets, `num_box`, the `Calcs` selector, the combinatorics
  calculator `Comb` (gamma functions) and the expression calculator `Calc`
  are UI or outside the core. The `resp.changed()` sequencing is left out
  too; only the updates themselves are modelled.
- The unfinished `ConstrErr`/`Constraint` sketch in src/distrs.rs:257-298
  (marked by its author to be ignored) and the `Show` and `NumBox` UI
  impls are not part of this model.
- Distrs.NormalFillConsistent: it also assumes that a known sd is
  positive and a known p lies strictly between 0 and 1. Otherwise a
  negative sd yields a solved mean that statrs rejects, and a p of 0 or 1
  has an infinite quantile, which the real-number model does not have.
- Distrs.ChiFillConsistent: it also assumes that a known p lies strictly
  between 0 and 1, because p of 0 or 1 has an infinite quantile.
- `Normal::fill`'s `unreachable!()` branches cannot be reached. The model
  proves that, because the count of known slots is at most four and three
  known slots always leave one missing.
- Derive.CrunchFill: the token tree is abstract. Spacing, spans, the
  exact text of the doc attribute (`DocText` approximates `format!` of a
  token stream) and the tokens of the generated `impl` block are not
  modelled. The generated `vfill` is modelled by its meaning (`VFill`,
  `VFillEval`) instead.
- `crunch_fill_eval` (opencrunch-derive/src/lib.rs:72-139) expands the
  struct exactly as `crunch_fill` does (lines 72-118 repeat lines 5-52).
  It is modelled by `CrunchFill` for the item and by `VFillEval` for its
  `vfill`.
- `Normal::fill` and `ChiSquare::fill` mutate `self`. The model returns a
  new bundle instead.

## Findings

| source | as written | input that shows it | evidently intended | confidence | as-written member | corrected member |
|---|---|---|---|---|---|---|
| src/calcs.rs:279-282 | When statrs rejects `Normal(mean, sample_sd)`, `prob` is set to `None` and the error is shown, but the probability box (`strings[7]`) keeps its old text. | The default calculator with its box 7 at `0.5`, and a population sd of 0, so that `sample_sd` is 0 and statrs rejects it. `prob` becomes `None` while box 7 still reads `0.5`, which the next `vfill` parses back into `EQ(0.5)`. | Clear box 7 as every other failure path does, and as the infinite-population calculator does at src/calcs.rs:129-133. | medium; not executed | Calcs.FinProbUpdateAsWritten | Calcs.FinProbUpdate |
