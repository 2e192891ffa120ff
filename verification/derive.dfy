/** The `crunch_fill` and `crunch_fill_eval` attribute macros, over an
    abstract token tree. The macros read the field names of a braced struct
    by splitting its body at commas, append a `strings` array with one text
    box per field plus one for an error message, and generate a `vfill`
    method that copies every box that parses into its field. */
module Derive {
  import opened Wrappers
  import opened Constraints
  import Decimal

  datatype Delimiter = Parenthesis | Brace | Bracket | NoDelim

  /** A token tree of `proc_macro2`; spacing and spans are not modelled. */
  datatype Token =
    | Ident(name: string)
    | Punct(ch: char)
    | Literal(text: string)
    | Group(delim: Delimiter, stream: seq<Token>)

  const StructExpected: string := "Struct expected"
  const UnwrapNone: string := "called `Option::unwrap()` on a `None` value"
  const UnitStruct: string := "Not usable on unit structs."

  /** `on_punct(c)`: the token is the punctuation character `c`. */
  function OnPunct(c: char, t: Token): (r: bool)
    ensures r <==> t == Punct(c)
  {
    match t
    case Punct(p) => p == c
    case _ => false
  }

  /** No token of `s` is the separator `c`. */
  predicate NoSep(s: seq<Token>, c: char) {
    forall j :: 0 <= j < |s| ==> !OnPunct(c, s[j])
  }

  /** Joins segments with the separator between consecutive ones: the
      inverse of `Split`. */
  function Join(segs: seq<seq<Token>>, c: char): seq<Token>
    requires |segs| >= 1
    decreases |segs|
  {
    if |segs| == 1 then segs[0] else segs[0] + [Punct(c)] + Join(segs[1..], c)
  }

  lemma JoinCons(x: seq<Token>, segs: seq<seq<Token>>, c: char)
    requires |segs| >= 1
    ensures Join([x + segs[0]] + segs[1..], c) == x + Join(segs, c)
  {
    var lhs := [x + segs[0]] + segs[1..];
    if |segs| > 1 {
      assert lhs[1..] == segs[1..];
      assert x + segs[0] + [Punct(c)] + Join(segs[1..], c) == x + (segs[0] + [Punct(c)] + Join(segs[1..], c));
    }
  }

  /** Rust's `slice::split`: the maximal separator-free runs of `s`, one
      more than there are separators, an empty run wherever two separators
      meet or one stands at an end. */
  function Split(s: seq<Token>, c: char): (r: seq<seq<Token>>)
    ensures |r| >= 1
    ensures Join(r, c) == s
    ensures forall i :: 0 <= i < |r| ==> NoSep(r[i], c)
    decreases |s|
  {
    if |s| == 0 then [[]]
    else
      var rest := Split(s[1..], c);
      if OnPunct(c, s[0]) then
        assert Join([[]] + rest, c) == [Punct(c)] + Join(rest, c);
        assert s == [s[0]] + s[1..];
        [[]] + rest
      else
        JoinCons([s[0]], rest, c);
        assert s == [s[0]] + s[1..];
        [[s[0]] + rest[0]] + rest[1..]
  }

  lemma {:induction false} SplitPrefix(a: seq<Token>, b: seq<Token>, c: char)
    requires NoSep(a, c)
    ensures Split(a + [Punct(c)] + b, c) == [a] + Split(b, c)
    decreases |a|
  {
    var s := a + [Punct(c)] + b;
    if |a| == 0 {
      assert s[1..] == b;
    } else {
      assert s[1..] == a[1..] + [Punct(c)] + b;
      SplitPrefix(a[1..], b, c);
      assert [a[0]] + a[1..] == a;
    }
  }

  lemma {:induction false} SplitNoSep(a: seq<Token>, c: char)
    requires NoSep(a, c)
    ensures Split(a, c) == [a]
    decreases |a|
  {
    if |a| > 0 {
      SplitNoSep(a[1..], c);
      assert [a[0]] + a[1..] == a;
    }
  }

  /** Splitting a join of separator-free segments gives the segments back. */
  lemma {:induction false} SplitJoin(segs: seq<seq<Token>>, c: char)
    requires |segs| >= 1
    requires forall i :: 0 <= i < |segs| ==> NoSep(segs[i], c)
    ensures Split(Join(segs, c), c) == segs
    decreases |segs|
  {
    if |segs| == 1 {
      SplitNoSep(segs[0], c);
    } else {
      SplitJoin(segs[1..], c);
      SplitPrefix(segs[0], Join(segs[1..], c), c);
      assert [segs[0]] + segs[1..] == segs;
    }
  }

  /** The `filter_map` over the comma-split body: the first token of every
      non-empty segment, in order. */
  function FieldNames(segs: seq<seq<Token>>): (r: seq<Token>)
    ensures |r| <= |segs|
    ensures (forall i :: 0 <= i < |segs| ==> segs[i] != []) ==>
      |r| == |segs| && forall i :: 0 <= i < |segs| ==> r[i] == segs[i][0]
  {
    if |segs| == 0 then []
    else if segs[0] == [] then FieldNames(segs[1..])
    else [segs[0][0]] + FieldNames(segs[1..])
  }

  /** The `end_comma` flag: some segment is empty. */
  predicate EndComma(segs: seq<seq<Token>>) {
    exists i :: 0 <= i < |segs| && segs[i] == []
  }

  /** The doc attribute put in front of `strings`, listing the fields and
      the error box. */
  function DocAttr(names: seq<Token>): seq<Token> {
    [Punct('#'), Group(Bracket, [Ident("doc"), Punct('='), Literal(DocText(names))])]
  }

  function DocText(names: seq<Token>): string {
    if |names| == 0 then "error,"
    else TokenText(names[0]) + ", " + DocText(names[1..])
  }

  function TokenText(t: Token): string {
    match t
    case Ident(n) => n
    case Punct(p) => [p]
    case Literal(l) => l
    case Group(_, _) => "..."
  }

  /** `strings: [String; vals],`, preceded by a comma unless the body
      already ended with one. */
  function StringsField(vals: nat, endComma: bool): (r: seq<Token>)
    ensures |r| == (if endComma then 4 else 5)
    ensures r[|r| - 4] == Ident("strings") && r[|r| - 3] == Punct(':') && r[|r| - 1] == Punct(',')
    ensures r[|r| - 2] == Group(Bracket, [Ident("String"), Punct(';'), Literal(Decimal.ShowNat(vals) + "usize")])
    ensures r[0] == Punct(',') <==> !endComma
  {
    (if endComma then [] else [Punct(',')])
      + [Ident("strings"), Punct(':'),
         Group(Bracket, [Ident("String"), Punct(';'), Literal(Decimal.ShowNat(vals) + "usize")]),
         Punct(',')]
  }

  /** What the attribute produces besides the `vfill` impl: the item with
      its body replaced, the struct's name, the field names and the length
      of `strings`. */
  datatype Expansion = Expansion(item: seq<Token>, structName: Token, names: seq<Token>, vals: nat)

  /** The struct body with the doc attribute and the `strings` field
      appended. */
  function NewBody(stream: seq<Token>): seq<Token> {
    var segs := Split(stream, ',');
    var names := FieldNames(segs);
    stream + DocAttr(names) + StringsField(|names| + 1, EndComma(segs))
  }

  /** The position of the first `struct` keyword. */
  function StructPos(tree: seq<Token>): (r: Option<nat>)
    ensures r.Some? ==> r.value < |tree| && tree[r.value] == Ident("struct")
    ensures r.Some? ==> forall j :: 0 <= j < r.value ==> tree[j] != Ident("struct")
    ensures r.None? ==> forall j :: 0 <= j < |tree| ==> tree[j] != Ident("struct")
  {
    if |tree| == 0 then Option.None
    else if tree[0] == Ident("struct") then Some(0)
    else match StructPos(tree[1..])
      case Some(p) => Some(p + 1)
      case None => Option.None
  }

  /** `crunch_fill` applied to an item; `Err` carries the panic message. */
  function CrunchFill(tree: seq<Token>): (r: Result<Expansion, string>)
    ensures |tree| == 0 ==> r == Err(StructExpected)
    ensures |tree| > 0 && StructPos(tree).None? ==> r == Err(UnwrapNone)
    ensures StructPos(tree).Some? && StructPos(tree).value + 1 >= |tree| ==> r == Err(UnwrapNone)
    ensures r.Err? ==> r.error in {StructExpected, UnwrapNone, UnitStruct}
    ensures r.Err? && r.error == UnitStruct <==> StructPos(tree).Some? && StructPos(tree).value + 1 < |tree| && !tree[|tree| - 1].Group?
    ensures r.Ok? ==> tree[|tree| - 1].Group? && StructPos(tree).Some? && StructPos(tree).value + 1 < |tree|
    ensures r.Ok? ==>
      var body := tree[|tree| - 1];
      var segs := Split(body.stream, ',');
      && r.value.structName == tree[StructPos(tree).value + 1]
      && r.value.names == FieldNames(segs)
      && r.value.vals == |r.value.names| + 1
  {
    if |tree| == 0 then Err(StructExpected)
    else
      var body := tree[|tree| - 1];
      match StructPos(tree)
      case None => Err(UnwrapNone)
      case Some(p) =>
        if p + 1 >= |tree| then Err(UnwrapNone)
        else
          match body
          case Group(delim, stream) =>
            var names := FieldNames(Split(stream, ','));
            Ok(Expansion(tree[..|tree| - 1] + [Group(delim, NewBody(stream))], tree[p + 1], names, |names| + 1))
          case _ => Err(UnitStruct)
  }

  /** A field declaration `name: ty` whose type holds no top-level comma. */
  datatype FieldDecl = FieldDecl(name: string, ty: seq<Token>)

  predicate WellTyped(d: FieldDecl) {
    NoSep(d.ty, ',')
  }

  function DeclTokens(d: FieldDecl): seq<Token> {
    [Ident(d.name), Punct(':')] + d.ty
  }

  function DeclSegs(decls: seq<FieldDecl>): (r: seq<seq<Token>>)
    ensures |r| == |decls|
    ensures forall i :: 0 <= i < |decls| ==> r[i] == DeclTokens(decls[i])
  {
    if |decls| == 0 then [] else [DeclTokens(decls[0])] + DeclSegs(decls[1..])
  }

  /** The body of a braced struct declaring `decls`, with or without a
      comma after the last field. */
  function Render(decls: seq<FieldDecl>, trailingComma: bool): seq<Token> {
    if |decls| == 0 then []
    else Join(DeclSegs(decls) + (if trailingComma then [[]] else []), ',')
  }

  function NamesOf(decls: seq<FieldDecl>): (r: seq<Token>)
    ensures |r| == |decls|
    ensures forall i :: 0 <= i < |decls| ==> r[i] == Ident(decls[i].name)
  {
    if |decls| == 0 then [] else [Ident(decls[0].name)] + NamesOf(decls[1..])
  }

  /** Reading a rendered body back: the field names are the declared names
      in order, and `end_comma` is set exactly when there was a trailing
      comma (or no field at all). */
  lemma {:induction false} RenderFields(decls: seq<FieldDecl>, trailingComma: bool)
    requires forall i :: 0 <= i < |decls| ==> WellTyped(decls[i])
    ensures FieldNames(Split(Render(decls, trailingComma), ',')) == NamesOf(decls)
    ensures EndComma(Split(Render(decls, trailingComma), ',')) <==> trailingComma || |decls| == 0
  {
    if |decls| == 0 {
      assert Split([], ',') == [[]];
    } else {
      var segs := DeclSegs(decls) + (if trailingComma then [[]] else []);
      RenderSplit(decls, trailingComma);
      assert Split(Render(decls, trailingComma), ',') == segs;
      DeclNames(decls);
      if trailingComma {
        FieldNamesDropEmpty(DeclSegs(decls));
        assert segs[|decls|] == [];
      } else {
        assert segs == DeclSegs(decls);
        assert forall i :: 0 <= i < |segs| ==> segs[i] != [] by {
          forall i | 0 <= i < |segs| ensures segs[i] != [] {
            assert segs[i] == DeclTokens(decls[i]);
          }
        }
      }
    }
  }

  /** A rendered body splits back into the field declarations, plus an
      empty segment after a trailing comma. */
  lemma {:induction false} RenderSplit(decls: seq<FieldDecl>, trailingComma: bool)
    requires forall i :: 0 <= i < |decls| ==> WellTyped(decls[i])
    requires |decls| > 0
    ensures Split(Render(decls, trailingComma), ',') == DeclSegs(decls) + (if trailingComma then [[]] else [])
  {
    var segs := DeclSegs(decls) + (if trailingComma then [[]] else []);
    forall i | 0 <= i < |segs|
      ensures NoSep(segs[i], ',')
    {
      if i < |decls| {
        assert segs[i] == DeclTokens(decls[i]);
      }
    }
    SplitJoin(segs, ',');
  }

  lemma {:induction false} DeclNames(decls: seq<FieldDecl>)
    ensures FieldNames(DeclSegs(decls)) == NamesOf(decls)
  {
    if |decls| > 0 {
      DeclNames(decls[1..]);
      assert DeclSegs(decls)[1..] == DeclSegs(decls[1..]);
    }
  }

  /** Reading names segment by segment: the names of a concatenation are
      the names of its parts. With `FieldNamesSingle` this fixes
      `FieldNames` on every list of segments, empty ones anywhere. */
  lemma {:induction false} FieldNamesAppend(s1: seq<seq<Token>>, s2: seq<seq<Token>>)
    ensures FieldNames(s1 + s2) == FieldNames(s1) + FieldNames(s2)
    decreases |s1|
  {
    if |s1| == 0 {
      assert s1 + s2 == s2;
    } else {
      assert (s1 + s2)[1..] == s1[1..] + s2;
      FieldNamesAppend(s1[1..], s2);
    }
  }

  /** An empty segment contributes no name; a non-empty one contributes its
      first token. */
  lemma FieldNamesSingle(seg: seq<Token>)
    ensures FieldNames([seg]) == if seg == [] then [] else [seg[0]]
  {
    assert [seg][1..] == [];
  }

  lemma {:induction false} FieldNamesDropEmpty(segs: seq<seq<Token>>)
    ensures FieldNames(segs + [[]]) == FieldNames(segs)
    decreases |segs|
  {
    if |segs| == 0 {
      assert FieldNames([[]]) == FieldNames([]);
    } else {
      FieldNamesDropEmpty(segs[1..]);
      assert (segs + [[]])[1..] == segs[1..] + [[]];
    }
  }

  /** The macro on an ordinary struct `struct Name { decls }` (after any
      attributes or visibility that hold no `struct` keyword): it succeeds,
      finds the declared fields, sizes `strings` one past them, and adds a
      separating comma only when the body did not end with one. */
  lemma CrunchFillStruct(prefix: seq<Token>, name: string, decls: seq<FieldDecl>, trailingComma: bool)
    requires forall j :: 0 <= j < |prefix| ==> prefix[j] != Ident("struct")
    requires forall i :: 0 <= i < |decls| ==> WellTyped(decls[i])
    requires |decls| > 0
    ensures var tree := prefix + [Ident("struct"), Ident(name), Group(Brace, Render(decls, trailingComma))];
      var r := CrunchFill(tree);
      && r.Ok?
      && r.value.structName == Ident(name)
      && r.value.names == NamesOf(decls)
      && r.value.vals == |decls| + 1
      && r.value.item == prefix + [Ident("struct"), Ident(name),
           Group(Brace, Render(decls, trailingComma) + DocAttr(NamesOf(decls)) + StringsField(|decls| + 1, trailingComma))]
  {
    var body := Render(decls, trailingComma);
    CrunchFillItem(prefix, Ident(name), Brace, body);
    RenderFields(decls, trailingComma);
    assert NewBody(body) == body + DocAttr(NamesOf(decls)) + StringsField(|decls| + 1, trailingComma);
  }

  /** The macro on `prefix struct name { stream }`, in terms of `NewBody`. */
  lemma CrunchFillItem(prefix: seq<Token>, name: Token, delim: Delimiter, stream: seq<Token>)
    requires forall j :: 0 <= j < |prefix| ==> prefix[j] != Ident("struct")
    ensures var names := FieldNames(Split(stream, ','));
      CrunchFill(prefix + [Ident("struct"), name, Group(delim, stream)]) ==
        Ok(Expansion(prefix + [Ident("struct"), name, Group(delim, NewBody(stream))], name, names, |names| + 1))
  {
    var tree := prefix + [Ident("struct"), name, Group(delim, stream)];
    StructPosAfter(prefix, [Ident("struct"), name, Group(delim, stream)]);
    assert tree[..|tree| - 1] == prefix + [Ident("struct"), name];
    CrunchFillGroup(tree, |prefix|, delim, stream);
    AppendLast(prefix, Ident("struct"), name, Group(delim, NewBody(stream)));
  }

  lemma AppendLast<X>(p: seq<X>, a: X, b: X, c: X)
    ensures (p + [a, b]) + [c] == p + [a, b, c]
  {
  }

  lemma CrunchFillGroup(tree: seq<Token>, p: nat, delim: Delimiter, stream: seq<Token>)
    requires p + 1 < |tree| && StructPos(tree) == Some(p) && tree[|tree| - 1] == Group(delim, stream)
    ensures var names := FieldNames(Split(stream, ','));
      CrunchFill(tree) == Ok(Expansion(tree[..|tree| - 1] + [Group(delim, NewBody(stream))], tree[p + 1], names, |names| + 1))
  {
  }

  lemma {:induction false} StructPosAfter(prefix: seq<Token>, rest: seq<Token>)
    requires forall j :: 0 <= j < |prefix| ==> prefix[j] != Ident("struct")
    requires |rest| > 0 && rest[0] == Ident("struct")
    ensures StructPos(prefix + rest) == Some(|prefix|)
    decreases |prefix|
  {
    if |prefix| > 0 {
      assert (prefix + rest)[1..] == prefix[1..] + rest;
      StructPosAfter(prefix[1..], rest);
    }
  }

  // ------------------------------------------------------------------ vfill

  /** Field values after a `vfill`: field `i` holds what `strings[i]`
      parses to when it parses, and keeps its value otherwise. `parse(i, t)`
      is the `FromStr` of field `i`'s type. */
  predicate Refilled<V(==)>(fields: seq<V>, strings: seq<string>, parse: (nat, string) -> Option<V>, out: seq<V>)
    requires |strings| == |fields| + 1
  {
    && |out| == |fields|
    && forall i :: 0 <= i < |fields| ==>
         out[i] == (if parse(i, strings[i]).Some? then parse(i, strings[i]).value else fields[i])
  }

  /** The generated `vfill` of `crunch_fill`. The error box (the last
      string) is never read, and no string is written. */
  method VFill<V(==)>(fields: seq<V>, strings: seq<string>, parse: (nat, string) -> Option<V>) returns (out: seq<V>)
    requires |strings| == |fields| + 1
    ensures |out| == |fields|
    ensures Refilled(fields, strings, parse, out)
    ensures forall i :: 0 <= i < |fields| && parse(i, strings[i]).Some? ==> out[i] == parse(i, strings[i]).value
    ensures forall i :: 0 <= i < |fields| && parse(i, strings[i]).None? ==> out[i] == fields[i]
  {
    out := fields;
    var i := 0;
    while i < |fields|
      invariant 0 <= i <= |fields| && |out| == |fields|
      invariant forall j :: 0 <= j < i && parse(j, strings[j]).Some? ==> out[j] == parse(j, strings[j]).value
      invariant forall j :: 0 <= j < i && parse(j, strings[j]).None? ==> out[j] == fields[j]
      invariant forall j :: i <= j < |fields| ==> out[j] == fields[j]
    {
      var p := parse(i, strings[i]);
      if p.Some? {
        out := out[i := p.value];
      }
      i := i + 1;
    }
  }

  /** `vfill` is idempotent: the strings are untouched, so a second pass
      parses the same texts and writes the same values. */
  lemma VFillIdempotent<V>(fields: seq<V>, strings: seq<string>, parse: (nat, string) -> Option<V>,
                               once: seq<V>, twice: seq<V>)
    requires |strings| == |fields| + 1
    requires Refilled(fields, strings, parse, once)
    requires Refilled(once, strings, parse, twice)
    ensures twice == once
  {
  }

  /** The per-field step of `crunch_fill_eval`'s `vfill`: parse the text as
      a constraint over expressions, then evaluate every payload. */
  function ParseEval<E, V, X>(text: string, num: string -> Option<E>, ev: E -> Result<V, X>): (r: Option<Constr<V>>)
    ensures r.Some? <==> Parse(text, num).Ok? && Eval(Parse(text, num).value, ev).Ok?
    ensures r.Some? ==> Shape(r.value) == Shape(Parse(text, num).value)
    ensures r.Some? ==> Eval(Parse(text, num).value, ev) == Ok(r.value)
  {
    match Parse(text, num)
    case Err(_) => Option.None
    case Ok(c) =>
      match Eval(c, ev)
      case Ok(v) => Some(v)
      case Err(_) => Option.None
  }

  /** The generated `vfill` of `crunch_fill_eval`: field `i` is assigned only
      when its text parses and every payload evaluates. */
  method VFillEval<E, V(==), X>(fields: seq<Constr<V>>, strings: seq<string>, num: string -> Option<E>,
                                ev: E -> Result<V, X>) returns (out: seq<Constr<V>>)
    requires |strings| == |fields| + 1
    ensures |out| == |fields|
    ensures forall i :: 0 <= i < |fields| ==>
      if Parse(strings[i], num).Ok? && Eval(Parse(strings[i], num).value, ev).Ok?
      then out[i] == Eval(Parse(strings[i], num).value, ev).value
      else out[i] == fields[i]
  {
    out := VFill(fields, strings, (i: nat, t: string) => ParseEval(t, num, ev));
  }
}
