/** The `Constr<T>` constraint algebra of the calculator: a typed description
    of what is known about one quantity (an exact value, a one-sided bound,
    a closed range, its open complement, an operator whose value is still
    missing, or nothing at all), together with its text grammar, its
    comparison predicate, its classifiers and the lift of an evaluator over
    its payloads.

    The payload type is a parameter. Parsing and printing a payload are the
    functions `num` and `show`; every property that needs them to agree
    assumes it only at the payloads involved (`CodecAt`, `CodecOn`), so the
    properties apply to real numbers printed by a float formatter as well
    as to the decimal integers of module Decimal, where `PayloadCodec`
    holds for every value. */
module Constraints {
  import opened Wrappers

  datatype Constr<T> =
    | GE(v: T)
    | LE(v: T)
    | GT(v: T)
    | LT(v: T)
    | GENone
    | GTNone
    | LENone
    | LTNone
    | EQ(v: T)
    | NE(v: T)
    | EQNone
    | NENone
    | In(lo: T, hi: T)
    | Out(lo: T, hi: T)
    | None

  const InvalidInput: string := "Not a valid input"
  const CommaExpected: string := "Comma expected in range"
  const EndInExpected: string := "End ] expected"
  const EndOutExpected: string := "End [ expected"
  const InvalidConstraint: string := "Not a valid constraint"

  /** Every message the parser can fail with. */
  const ParseErrors: set<string> :=
    {InvalidInput, CommaExpected, EndInExpected, EndOutExpected, InvalidConstraint}

  /** Position of the first occurrence of `c` in `s` (Rust's `str::find` on a char). */
  function IndexOf(s: string, c: char): (r: Option<nat>)
    ensures r.None? <==> c !in s
    ensures r.Some? ==> r.value < |s| && s[r.value] == c && c !in s[..r.value]
  {
    if |s| == 0 then Option.None
    else if s[0] == c then Some(0)
    else
      match IndexOf(s[1..], c)
      case None => Option.None
      case Some(i) =>
        assert s[..i + 1] == [s[0]] + s[1..][..i];
        Some(i + 1)
  }

  /** The range the closer selects, when both payloads parsed. */
  function RangeOf<T>(a: Option<T>, b: Option<T>, closer: char): (r: Result<Constr<T>, string>)
    ensures r.Err? ==> r == Err(InvalidInput)
  {
    if a.Some? && b.Some? then Ok(if closer == ']' then In(a.value, b.value) else Out(a.value, b.value))
    else Err(InvalidInput)
  }

  /** The range forms `[a,b]` (closer `]`, giving `In`) and `]a,b[` (closer
      `[`, giving `Out`); `s[0]` is the opening bracket. Text after the
      closer is never looked at. */
  function ParseRange<T>(s: string, num: string -> Option<T>, closer: char): (r: Result<Constr<T>, string>)
    requires |s| >= 1 && (closer == ']' || closer == '[')
    ensures r.Err? ==> r.error in ParseErrors
    ensures r.Ok? ==> (if closer == ']' then r.value.In? else r.value.Out?)
  {
    match IndexOf(s[1..], ',')
    case None => Err(CommaExpected)
    case Some(k) => RangeAfterComma(s, num, closer, k + 1)
  }

  /** The rest of `ParseRange` once the comma has been found at `split`. */
  function RangeAfterComma<T>(s: string, num: string -> Option<T>, closer: char, split: nat): (r: Result<Constr<T>, string>)
    requires 1 <= split < |s| && s[split] == ',' && (closer == ']' || closer == '[')
    ensures r.Err? ==> r.error in ParseErrors
    ensures r.Ok? ==> (if closer == ']' then r.value.In? else r.value.Out?)
  {
    match IndexOf(s[split..], closer)
    case None => Err(if closer == ']' then EndInExpected else EndOutExpected)
    case Some(e) =>
      // s[split] is the comma, so the closer lies strictly after it
      assert s[split..][0] == ',';
      RangeOf(num(s[1..split]), num(s[split + 1..split + e]), closer)
  }

  /** `Constr::from_str`. The six bare operators are matched first, then the
      two-character operator prefixes, then the one-character ones, then the
      range brackets, then a bare payload, and finally the empty string. */
  function Parse<T>(s: string, num: string -> Option<T>): (r: Result<Constr<T>, string>)
    ensures r.Err? ==> r.error in ParseErrors
    ensures r == Ok(GENone) <==> s == ">="
    ensures r == Ok(GTNone) <==> s == ">"
    ensures r == Ok(LTNone) <==> s == "<"
    ensures r == Ok(LENone) <==> s == "<="
    ensures r == Ok(NENone) <==> s == "!="
    ensures r == Ok(EQNone) <==> s == "="
    ensures r == Ok(Constr.None) <==> s == "" && num("") == Option.None
  {
    if s == ">=" then Ok(GENone)
    else if s == ">" then Ok(GTNone)
    else if s == "<" then Ok(LTNone)
    else if s == "<=" then Ok(LENone)
    else if s == "!=" then Ok(NENone)
    else if s == "=" then Ok(EQNone)
    else if |s| >= 2 && s[..2] == ">=" then
      (match num(s[2..]) case Some(n) => Ok(GE(n)) case None => Err(InvalidInput))
    else if |s| >= 2 && s[..2] == "<=" then
      (match num(s[2..]) case Some(n) => Ok(LE(n)) case None => Err(InvalidInput))
    else if |s| >= 2 && s[..2] == "==" then
      (match num(s[2..]) case Some(n) => Ok(EQ(n)) case None => Err(InvalidInput))
    else if |s| >= 2 && s[..2] == "!=" then
      (match num(s[2..]) case Some(n) => Ok(NE(n)) case None => Err(InvalidInput))
    else if |s| >= 1 && s[..1] == ">" then
      (match num(s[1..]) case Some(n) => Ok(GT(n)) case None => Err(InvalidInput))
    else if |s| >= 1 && s[..1] == "<" then
      (match num(s[1..]) case Some(n) => Ok(LT(n)) case None => Err(InvalidInput))
    else if |s| >= 1 && s[..1] == "=" then
      (match num(s[1..]) case Some(n) => Ok(EQ(n)) case None => Err(InvalidInput))
    else if |s| >= 1 && s[..1] == "[" then
      ParseRange(s, num, ']')
    else if |s| >= 1 && s[..1] == "]" then
      ParseRange(s, num, '[')
    else
      match num(s)
      case Some(v) => Ok(EQ(v))
      case None => if |s| == 0 then Ok(Constr.None) else Err(InvalidConstraint)
  }

  /** `Constr::to_string`: each valued form is its operator (`==` for
      equality, although `=` also parses) or its brackets around the printed
      payloads; a missing value prints the bare operator, and `None` is the
      only constraint that prints as the empty string. */
  function Print<T>(c: Constr<T>, show: T -> string): (r: string)
    ensures r == "" <==> c.None?
    ensures c.GE? ==> r == ">=" + show(c.v)
    ensures c.LE? ==> r == "<=" + show(c.v)
    ensures c.GT? ==> r == ">" + show(c.v)
    ensures c.LT? ==> r == "<" + show(c.v)
    ensures c.EQ? ==> r == "==" + show(c.v)
    ensures c.NE? ==> r == "!=" + show(c.v)
    ensures c.In? ==> r == "[" + show(c.lo) + "," + show(c.hi) + "]"
    ensures c.Out? ==> r == "]" + show(c.lo) + "," + show(c.hi) + "["
  {
    match c
    case GE(v) => ">=" + show(v)
    case LE(v) => "<=" + show(v)
    case GT(v) => ">" + show(v)
    case LT(v) => "<" + show(v)
    case EQ(v) => "==" + show(v)
    case NE(v) => "!=" + show(v)
    case In(a, b) => "[" + show(a) + "," + show(b) + "]"
    case Out(a, b) => "]" + show(a) + "," + show(b) + "["
    case None => ""
    case GENone => ">="
    case GTNone => ">"
    case LENone => "<="
    case LTNone => "<"
    case EQNone => "="
    case NENone => "!="
  }

  /** A printed payload that cannot be mistaken for grammar: non-empty, not
      starting with an operator or bracket character, and free of the comma
      and both brackets. A printed number has this shape. */
  predicate CleanPayload(t: string) {
    |t| > 0 && t[0] !in "<>=![]" && ',' !in t && '[' !in t && ']' !in t
  }

  /** What the grammar needs of the payload parser and printer at one
      value `v`: parsing undoes printing and the printed text is clean. */
  ghost predicate CodecAt<T>(num: string -> Option<T>, show: T -> string, v: T) {
    num(show(v)) == Some(v) && CleanPayload(show(v))
  }

  /** The codec agrees at every payload of `c`, and the empty string is not
      a payload (Rust's `"".parse::<f64>()` fails). */
  ghost predicate CodecOn<T>(num: string -> Option<T>, show: T -> string, c: Constr<T>) {
    && num("") == Option.None
    && (forall i :: 0 <= i < |Payloads(c)| ==> CodecAt(num, show, Payloads(c)[i]))
  }

  /** The codec agrees at every value. This needs a countable payload type
      (a printed text is a finite string), so it holds for the integers of
      module Decimal but not for the reals. */
  ghost predicate PayloadCodec<T(!new)>(num: string -> Option<T>, show: T -> string) {
    && num("") == Option.None
    && (forall v :: CodecAt(num, show, v))
  }

  /** A codec that agrees everywhere agrees on every constraint. */
  lemma CodecEverywhere<T(!new)>(num: string -> Option<T>, show: T -> string, c: Constr<T>)
    requires PayloadCodec(num, show)
    ensures CodecOn(num, show, c)
  {
  }

  lemma IndexOfAfter(a: string, c: char, rest: string)
    requires c !in a
    ensures IndexOf(a + [c] + rest, c) == Some(|a|)
    decreases |a|
  {
    var s := a + [c] + rest;
    if |a| == 0 {
      assert s[0] == c;
    } else {
      assert s[0] == a[0];
      assert s[1..] == a[1..] + [c] + rest;
      IndexOfAfter(a[1..], c, rest);
    }
  }

  /** Text that opens with a bracket is handed to the range parser. */
  lemma ParseBracket<T>(s: string, num: string -> Option<T>)
    requires |s| >= 1 && (s[0] == '[' || s[0] == ']')
    ensures Parse(s, num) == ParseRange(s, num, CloserOf(s[0]))
  {
    FirstCharDiffers(s, ">=");
    FirstCharDiffers(s, ">");
    FirstCharDiffers(s, "<");
    FirstCharDiffers(s, "<=");
    FirstCharDiffers(s, "!=");
    FirstCharDiffers(s, "=");
    FirstCharDiffers(s, "==");
    if s[0] == ']' {
      FirstCharDiffers(s, "[");
    }
    assert s[..1] == [s[0]];
  }

  /** Texts that differ in their first character differ, and neither is a
      prefix of the other. */
  lemma FirstCharDiffers(s: string, t: string)
    requires |s| > 0 && |t| > 0 && s[0] != t[0]
    ensures s != t
    ensures |s| >= |t| ==> s[..|t|] != t
  {
    if |s| >= |t| {
      assert s[..|t|][0] == s[0];
    }
  }

  /** A range text `open a , b close rest`, with no comma in `a` and no
      closer in `b`, parses as the range of the two payloads; `rest` is
      ignored. */
  lemma {:induction false} ParseRangeForm<T>(num: string -> Option<T>, open: char, a: string, b: string, rest: string)
    requires open == '[' || open == ']'
    requires ',' !in a && CloserOf(open) !in b
    ensures Parse([open] + a + [','] + b + [CloserOf(open)] + rest, num) == RangeOf(num(a), num(b), CloserOf(open))
  {
    var s := [open] + a + [','] + b + [CloserOf(open)] + rest;
    RangeTail(open, a, ',', b, CloserOf(open), rest);
    ParseBracket(s, num);
    RangeSplit(s, num, CloserOf(open), a, b, rest);
  }

  lemma RangeTail<X>(open: X, a: seq<X>, comma: X, b: seq<X>, closer: X, rest: seq<X>)
    ensures var s := [open] + a + [comma] + b + [closer] + rest;
      s[0] == open && s[1..] == a + [comma] + (b + [closer] + rest)
  {
    var s := [open] + a + [comma] + b + [closer] + rest;
    assert s == [open] + (a + [comma] + (b + [closer] + rest));
  }

  lemma RangeSplit<T>(s: string, num: string -> Option<T>, closer: char, a: string, b: string, rest: string)
    requires closer == ']' || closer == '['
    requires |s| >= 1 && s[1..] == a + [','] + (b + [closer] + rest)
    requires ',' !in a && closer !in b
    ensures ParseRange(s, num, closer) == RangeOf(num(a), num(b), closer)
  {
    var split, e := |a| + 1, 1 + |b|;
    RangeComma(s, closer, a, b, rest);
    RangeCloser(s, closer, a, b, rest);
    assert s[1..split] == a;
    assert s[split + 1..split + e] == b;
    ParseRangeComma(s, num, closer, |a|);
    RangeAfterCommaAt(s, num, closer, split, e);
  }

  /** `ParseRange` once the comma has been located at `s[k + 1]`. */
  lemma ParseRangeComma<T>(s: string, num: string -> Option<T>, closer: char, k: nat)
    requires closer == ']' || closer == '['
    requires |s| >= 1 && IndexOf(s[1..], ',') == Some(k)
    ensures k + 1 < |s| && s[k + 1] == ','
    ensures ParseRange(s, num, closer) == RangeAfterComma(s, num, closer, k + 1)
  {
    assert s[k + 1] == s[1..][k];
  }

  /** `RangeAfterComma` once the closer has been located at `s[split + e]`. */
  lemma RangeAfterCommaAt<T>(s: string, num: string -> Option<T>, closer: char, split: nat, e: nat)
    requires closer == ']' || closer == '['
    requires 1 <= split < |s| && s[split] == ','
    requires IndexOf(s[split..], closer) == Some(e)
    ensures split + e <= |s|
    ensures RangeAfterComma(s, num, closer, split) == RangeOf(num(s[1..split]), num(s[split + 1..split + e]), closer)
  {
  }

  lemma RangeComma(s: string, closer: char, a: string, b: string, rest: string)
    requires |s| >= 1 && s[1..] == a + [','] + (b + [closer] + rest)
    requires ',' !in a
    ensures IndexOf(s[1..], ',') == Some(|a|)
    ensures s[1..|a| + 1] == a
  {
    IndexOfAfter(a, ',', b + [closer] + rest);
    assert s[1..|a| + 1] == s[1..][..|a|];
  }

  lemma RangeCloser(s: string, closer: char, a: string, b: string, rest: string)
    requires |s| >= 1 && s[1..] == a + [','] + (b + [closer] + rest)
    requires closer != ',' && closer !in b
    ensures IndexOf(s[|a| + 1..], closer) == Some(1 + |b|)
    ensures s[|a| + 2..|a| + 2 + |b|] == b
  {
    var u := s[|a| + 1..];
    assert u == s[1..][|a|..];
    assert u == ([','] + b) + [closer] + rest;
    IndexOfAfter([','] + b, closer, rest);
    assert s[|a| + 2..|a| + 2 + |b|] == u[1..1 + |b|];
  }

  /** The closing bracket that matches an opening one in the range grammar. */
  function CloserOf(open: char): char {
    if open == '[' then ']' else '['
  }

  /** Printing then parsing gives back the constraint, for every variant. */
  lemma PrintParseRoundTrip<T>(c: Constr<T>, num: string -> Option<T>, show: T -> string)
    requires CodecOn(num, show, c)
    ensures Parse(Print(c, show), num) == Ok(c)
  {
    if IsSome(c) {
      assert CodecAt(num, show, Payloads(c)[0]);
    }
    match c
    case GE(v) => TwoCharPayload(">=", show(v), num, show);
    case LE(v) => TwoCharPayload("<=", show(v), num, show);
    case EQ(v) => TwoCharPayload("==", show(v), num, show);
    case NE(v) => TwoCharPayload("!=", show(v), num, show);
    case GT(v) => OneCharPayload('>', show(v), num);
    case LT(v) => OneCharPayload('<', show(v), num);
    case In(a, b) => RangeRoundTrip(c, num, show);
    case Out(a, b) => RangeRoundTrip(c, num, show);
    case None =>
    case GENone =>
    case GTNone =>
    case LENone =>
    case LTNone =>
    case EQNone =>
    case NENone =>
  }

  lemma RangeRoundTrip<T>(c: Constr<T>, num: string -> Option<T>, show: T -> string)
    requires CodecOn(num, show, c)
    requires c.In? || c.Out?
    ensures Parse(Print(c, show), num) == Ok(c)
  {
    var open := if c.In? then '[' else ']';
    var a, b := show(c.lo), show(c.hi);
    assert CodecAt(num, show, Payloads(c)[0]) && CodecAt(num, show, Payloads(c)[1]);
    ParseRangeForm(num, open, a, b, "");
    assert Print(c, show) == [open] + a + [','] + b + [CloserOf(open)] + "";
  }

  /** A two-character operator followed by a non-empty payload text `t`
      parses as that operator applied to `num(t)`, or fails with "Not a
      valid input"; `">=t"` in particular never yields `GT`. */
  lemma TwoCharPayload<T>(op: string, t: string, num: string -> Option<T>, show: T -> string)
    requires op in {">=", "<=", "==", "!="}
    requires |t| > 0
    ensures Parse(op + t, num) ==
      match num(t)
      case Some(n) => Ok(if op == ">=" then GE(n) else if op == "<=" then LE(n) else if op == "==" then EQ(n) else NE(n))
      case None => Err(InvalidInput)
  {
    var s := op + t;
    assert s[..2] == op;
    assert s[2..] == t;
  }

  /** A one-character operator `>`, `<` or `=` followed by a payload text `t`
      that does not start with `=` parses as that operator applied to
      `num(t)`, or fails with "Not a valid input". */
  lemma OneCharPayload<T>(op: char, t: string, num: string -> Option<T>)
    requires op in {'>', '<', '='}
    requires |t| > 0 && t[0] != '='
    ensures Parse([op] + t, num) ==
      match num(t)
      case Some(n) => Ok(if op == '>' then GT(n) else if op == '<' then LT(n) else EQ(n))
      case None => Err(InvalidInput)
  {
    var s := [op] + t;
    assert s[..1] == [op];
    assert s[1] == t[0];
    assert s[1..] == t;
  }

  /** `==v`, `=v` and the bare payload `v` all parse to `EQ(v)`. */
  lemma EqualForms<T>(v: T, num: string -> Option<T>, show: T -> string)
    requires num("") == Option.None
    requires CodecAt(num, show, v)
    ensures Parse("==" + show(v), num) == Ok(EQ(v))
    ensures Parse("=" + show(v), num) == Ok(EQ(v))
    ensures Parse(show(v), num) == Ok(EQ(v))
  {
    var t := show(v);
    assert CleanPayload(t);
    TwoCharPayload("==", t, num, show);
    OneCharPayload('=', t, num);
    assert t[..1] == [t[0]];
    assert |t| >= 2 ==> t[..2][0] == t[0];
  }

  /** An opening bracket with no comma after it fails with "Comma expected
      in range". */
  lemma MissingComma<T>(open: char, t: string, num: string -> Option<T>)
    requires open == '[' || open == ']'
    requires ',' !in t
    ensures Parse([open] + t, num) == Err(CommaExpected)
  {
    var s := [open] + t;
    ParseBracket(s, num);
    assert s[1..] == t;
  }

  /** A range with its comma but without the matching closer after the comma
      fails with "End ] expected" (for `[`) or "End [ expected" (for `]`). */
  lemma MissingCloser<T>(open: char, a: string, b: string, num: string -> Option<T>)
    requires open == '[' || open == ']'
    requires ',' !in a && CloserOf(open) !in b
    ensures Parse([open] + a + "," + b, num) ==
      Err(if open == '[' then EndInExpected else EndOutExpected)
  {
    var s := [open] + a + "," + b;
    ParseBracket(s, num);
    assert s[1..] == a + [','] + b;
    IndexOfAfter(a, ',', b);
    assert s[|a| + 1..] == [','] + b;
    assert CloserOf(open) !in [','] + b;
  }

  /** Non-empty text that starts with no operator or bracket and is not a
      payload fails with "Not a valid constraint". */
  lemma NotAConstraint<T>(s: string, num: string -> Option<T>)
    requires |s| > 0 && s[0] !in "<>=[]"
    requires !(|s| >= 2 && s[..2] == "!=")
    requires num(s) == Option.None
    ensures Parse(s, num) == Err(InvalidConstraint)
  {
    assert s[..1] == [s[0]];
    assert |s| >= 2 ==> s[..2][0] == s[0];
  }

  /** `Constr::comp` for the `f64` instance: does `x` satisfy the constraint? */
  function Comp(c: Constr<real>, x: real): (r: bool)
    ensures !IsSome(c) ==> (r <==> c.None?)
    ensures c.GE? ==> (r <==> x >= c.v)
    ensures c.GT? ==> (r <==> x > c.v)
    ensures c.EQ? ==> (r <==> x == c.v)
    ensures c.In? ==> (r <==> c.lo <= x <= c.hi)
  {
    match c
    case GE(v) => x >= v
    case LE(v) => x <= v
    case GT(v) => x > v
    case LT(v) => x < v
    case EQ(v) => x == v
    case NE(v) => x != v
    case In(a, b) => x >= a && x <= b
    case Out(a, b) => x < a || x > b
    case None => true
    case GENone => false
    case GTNone => false
    case LENone => false
    case LTNone => false
    case EQNone => false
    case NENone => false
  }

  /** The constraint satisfied by exactly the values `c` rejects, for the
      variants that have one inside the algebra. */
  function Complement<T>(c: Constr<T>): Option<Constr<T>> {
    match c
    case GE(v) => Some(LT(v))
    case LT(v) => Some(GE(v))
    case GT(v) => Some(LE(v))
    case LE(v) => Some(GT(v))
    case EQ(v) => Some(NE(v))
    case NE(v) => Some(EQ(v))
    case In(a, b) => Some(Out(a, b))
    case Out(a, b) => Some(In(a, b))
    case _ => Option.None
  }

  /** `None` accepts everything, the sentinels accept nothing, and each
      valued constraint with a complement accepts exactly what the
      complement rejects (`Out` against `In`, `NE` against `EQ`, ...). */
  lemma CompComplement(c: Constr<real>, x: real)
    ensures c.None? ==> Comp(c, x)
    ensures !IsSome(c) && !c.None? ==> !Comp(c, x)
    ensures Complement(c).Some? ==> Comp(Complement(c).value, x) == !Comp(c, x)
    ensures Complement(c).Some? <==> IsSome(c)
  {
  }

  /** `as_val`: the single representative value, only for `EQ` and `NE`. */
  function AsVal<T>(c: Constr<T>): (r: Option<T>)
    ensures r.Some? <==> IsEq(c) && IsSome(c)
    ensures r.Some? ==> Payloads(c) == [r.value]
  {
    match c
    case EQ(n) => Some(n)
    case NE(n) => Some(n)
    case _ => Option.None
  }

  /** `is_ineq`: an order constraint, one-sided or ranged, with or without
      its value. */
  predicate IsIneq<T>(c: Constr<T>) {
    c.GE? || c.LE? || c.GT? || c.LT? || c.GENone? || c.LENone? || c.GTNone? || c.LTNone?
    || c.In? || c.Out?
  }

  /** Every constraint but `None` is an order or an equality constraint and
      not both; the order constraints are exactly those printed with an
      order sign or a bracket first, the equality ones those printed with
      `=` or `!` first, and a complement stays in its class. */
  lemma Classes<T>(c: Constr<T>, show: T -> string)
    ensures c.None? || IsIneq(c) || IsEq(c)
    ensures !(IsIneq(c) && IsEq(c))
    ensures IsIneq(c) <==> Print(c, show) != "" && Print(c, show)[0] in "<>[]"
    ensures IsEq(c) <==> Print(c, show) != "" && Print(c, show)[0] in "=!"
    ensures Complement(c).Some? ==> (IsIneq(Complement(c).value) <==> IsIneq(c))
  {
  }

  /** `is_eq`: an equality constraint, with or without its value. */
  function IsEq<T>(c: Constr<T>): (r: bool)
    ensures r <==> !c.None? && !IsIneq(c)
  {
    c.EQ? || c.NE? || c.EQNone? || c.NENone?
  }

  /** `is_range`: a closed range or its complement. */
  function IsRange<T>(c: Constr<T>): (r: bool)
    ensures r ==> IsIneq(c)
    ensures r <==> |Payloads(c)| == 2
  {
    c.In? || c.Out?
  }

  /** `is_some`: the constraint carries a value. */
  function IsSome<T>(c: Constr<T>): (r: bool)
    ensures r <==> Payloads(c) != []
  {
    !(c.None? || c.GENone? || c.GTNone? || c.LENone? || c.LTNone? || c.EQNone? || c.NENone?)
  }

  /** The payloads of a constraint, left to right. */
  function Payloads<T>(c: Constr<T>): seq<T> {
    match c
    case GE(v) => [v]
    case LE(v) => [v]
    case GT(v) => [v]
    case LT(v) => [v]
    case EQ(v) => [v]
    case NE(v) => [v]
    case In(a, b) => [a, b]
    case Out(a, b) => [a, b]
    case _ => []
  }

  /** The variant of a constraint with its payloads forgotten. */
  function Shape<T>(c: Constr<T>): Constr<()> {
    match c
    case GE(_) => GE(())
    case LE(_) => LE(())
    case GT(_) => GT(())
    case LT(_) => LT(())
    case EQ(_) => EQ(())
    case NE(_) => NE(())
    case In(_, _) => In((), ())
    case Out(_, _) => Out((), ())
    case None => Constr.None
    case GENone => GENone
    case GTNone => GTNone
    case LENone => LENone
    case LTNone => LTNone
    case EQNone => EQNone
    case NENone => NENone
  }

  /** `Constr<Expr>::eval`: evaluate every payload with `ev`, left to right,
      stopping at the first failure. */
  function Eval<E, V, X>(c: Constr<E>, ev: E -> Result<V, X>): (r: Result<Constr<V>, X>)
    ensures r.Ok? <==> forall i :: 0 <= i < |Payloads(c)| ==> ev(Payloads(c)[i]).Ok?
    ensures r.Ok? ==> Shape(r.value) == Shape(c)
    ensures r.Ok? ==> |Payloads(r.value)| == |Payloads(c)|
    ensures r.Ok? ==> forall i :: 0 <= i < |Payloads(c)| ==> ev(Payloads(c)[i]) == Ok(Payloads(r.value)[i])
    ensures r.Err? ==> exists i :: 0 <= i < |Payloads(c)| && ev(Payloads(c)[i]) == Err(r.error)
                                   && forall j :: 0 <= j < i ==> ev(Payloads(c)[j]).Ok?
  {
    match c
    case GE(x) =>
      assert Payloads(c)[0] == x;
      var y :- ev(x); Ok(GE(y))
    case LE(x) =>
      assert Payloads(c)[0] == x;
      var y :- ev(x); Ok(LE(y))
    case GT(x) =>
      assert Payloads(c)[0] == x;
      var y :- ev(x); Ok(GT(y))
    case LT(x) =>
      assert Payloads(c)[0] == x;
      var y :- ev(x); Ok(LT(y))
    case GENone => Ok(GENone)
    case GTNone => Ok(GTNone)
    case LENone => Ok(LENone)
    case LTNone => Ok(LTNone)
    case EQ(x) =>
      assert Payloads(c)[0] == x;
      var y :- ev(x); Ok(EQ(y))
    case NE(x) =>
      assert Payloads(c)[0] == x;
      var y :- ev(x); Ok(NE(y))
    case In(a, b) =>
      assert Payloads(c)[0] == a && Payloads(c)[1] == b;
      var ya :- ev(a); var yb :- ev(b); Ok(In(ya, yb))
    case Out(a, b) =>
      assert Payloads(c)[0] == a && Payloads(c)[1] == b;
      var ya :- ev(a); var yb :- ev(b); Ok(Out(ya, yb))
    case None => Ok(Constr.None)
    case EQNone => Ok(EQNone)
    case NENone => Ok(NENone)
  }
}
