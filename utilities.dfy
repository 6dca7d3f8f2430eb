/**
 * The condition compiler (condition tuples to DynamoDB expression strings,
 * through one shared alias builder), the limit-aware page accumulator and
 * the resume-token pass-through.
 */
module Utilities {
  import opened Wrappers
  import opened JsValues
  import opened Constants
  import opened ExpressionBuilding

  /** `c[i]` on a JavaScript array: out of range reads as `undefined`. */
  function At(c: seq<Term>, i: nat): Term {
    if i < |c| then c[i] else Undef
  }

  /**
   * `OPTIMUS_OPERATORS[key]` as it is rendered by `join`: a missing entry is
   * `undefined`, which joins as "". A key in `ObjectPrototypeKeys` would find
   * an inherited member instead; that read is not modelled.
   */
  function OperatorText(key: Term): string {
    match OptimusOperator(Text(key))
    case Some(o) => o
    case None => ""
  }

  /** A compilation step: its outcome, and the builder's maps afterwards (an exception leaves earlier additions in place). */
  type Step<T> = (Result<T, JsError>, Aliases)

  /** `builder.addName(t)`: `t.toString()` throws a TypeError when `t` is `undefined`. */
  function AddNameStep(st: Aliases, t: Term): Step<string> {
    if t == Undef then (Failure(EngineTypeError), st)
    else var (a, st1) := st.AddName(t); (Success(a), st1)
  }

  /** `builder.addValue(t)`, with the same TypeError on `undefined`. */
  function AddValueStep(st: Aliases, t: Term): Step<string> {
    if t == Undef then (Failure(EngineTypeError), st)
    else var (a, st1) := st.AddValue(t); (Success(a), st1)
  }

  /** `xs.map(x => builder.addValue(x))`: left to right, stopping at the first exception. */
  function AddValuesStep(st: Aliases, xs: seq<Term>): Step<seq<string>>
    decreases |xs|
  {
    if |xs| == 0 then (Success([]), st)
    else
      var (r, st1) := AddValuesStep(st, xs[..|xs| - 1]);
      if r.Failure? then (Failure(r.error), st1)
      else
        var (a, st2) := AddValueStep(st1, xs[|xs| - 1]);
        if a.Failure? then (Failure(a.error), st2) else (Success(r.value + [a.value]), st2)
  }

  /** The message of the error thrown for a condition of no known shape: the template literal renders the array with `,`. */
  function UnexpectedCondition(c: seq<Term>): JsError {
    Named("Error", "Unexpected condition " + Text(Arr(c)) + ".")
  }

  /** The shape the compiler dispatches on: first `c[1]`, then the length of `c`. */
  datatype Shape = UnaryShape | InShape | TripleShape | QuintupleShape | UnknownShape

  function ShapeOf(c: seq<Term>): Shape {
    var op := At(c, 1);
    if op == Str("exists") || op == Str("doesn't exist") then UnaryShape
    else if op == Str("in") then InShape
    else if |c| == 3 then TripleShape
    else if |c| == 5 then QuintupleShape
    else UnknownShape
  }

  /** `getDynamoDbConditionExpressionString`: the dispatch on `c[1]` and then on the length of `c`. */
  function Compile(st: Aliases, c: seq<Term>): Step<string> {
    match ShapeOf(c)
    case UnaryShape => CompileUnaryCase(st, c)
    case InShape => CompileInCase(st, c)
    case TripleShape => CompileTripleCase(st, c)
    case QuintupleShape => CompileQuintupleCase(st, c)
    case UnknownShape => (Failure(UnexpectedCondition(c)), st)
  }

  /** `exists` / `doesn't exist`: a function call on the name alias. */
  function CompileUnaryCase(st: Aliases, c: seq<Term>): Step<string> {
    var fn := if At(c, 1) == Str("exists") then "attribute_exists" else "attribute_not_exists";
    var (n, st1) := AddNameStep(st, At(c, 0));
    (if n.Failure? then Failure(n.error) else Success(fn + "(" + n.value + ")"), st1)
  }

  /** `in`: the name alias, the operator and the parenthesised value aliases; `c[2].map` throws unless `c[2]` is an array. */
  function CompileInCase(st: Aliases, c: seq<Term>): Step<string> {
    var (n, st1) := AddNameStep(st, At(c, 0));
    if n.Failure? then (Failure(n.error), st1)
    else if !At(c, 2).Arr? then (Failure(EngineTypeError), st1)
    else
      var (vs, st2) := AddValuesStep(st1, At(c, 2).elems);
      if vs.Failure? then (Failure(vs.error), st2)
      else (Success(Join(" ", [n.value, OperatorText(At(c, 1)), "(" + Join(", ", vs.value) + ")"])), st2)
  }

  /** Three elements: name alias, operator, value alias. */
  function CompileTripleCase(st: Aliases, c: seq<Term>): Step<string> {
    var (n, st1) := AddNameStep(st, At(c, 0));
    if n.Failure? then (Failure(n.error), st1)
    else
      var (v, st2) := AddValueStep(st1, At(c, 2));
      if v.Failure? then (Failure(v.error), st2)
      else (Success(Join(" ", [n.value, OperatorText(At(c, 1)), v.value])), st2)
  }

  /** Five elements: name alias, operator, value alias, operator, value alias. */
  function CompileQuintupleCase(st: Aliases, c: seq<Term>): Step<string> {
    var (n, st1) := AddNameStep(st, At(c, 0));
    if n.Failure? then (Failure(n.error), st1)
    else
      var (v2, st2) := AddValueStep(st1, At(c, 2));
      if v2.Failure? then (Failure(v2.error), st2)
      else
        var (v4, st3) := AddValueStep(st2, At(c, 4));
        if v4.Failure? then (Failure(v4.error), st3)
        else (Success(Join(" ", [n.value, OperatorText(At(c, 1)), v2.value, OperatorText(At(c, 3)), v4.value])), st3)
  }

  /** `conditions.map(c => getDynamoDbConditionExpressionString(c, builder))`, left to right. */
  function CompileAll(st: Aliases, cs: seq<seq<Term>>): Step<seq<string>>
    decreases |cs|
  {
    if |cs| == 0 then (Success([]), st)
    else
      var (r, st1) := CompileAll(st, cs[..|cs| - 1]);
      if r.Failure? then (Failure(r.error), st1)
      else
        var (s, st2) := Compile(st1, cs[|cs| - 1]);
        if s.Failure? then (Failure(s.error), st2) else (Success(r.value + [s.value]), st2)
  }

  // ---------------------------------------------------------------------------
  // What compiling does to the shared builder

  /** `st'` keeps every entry of `st`: aliases handed out earlier stay valid. */
  ghost predicate Extends(st: Aliases, st': Aliases) {
    && (forall a :: a in st.names ==> a in st'.names && st'.names[a] == st.names[a])
    && (forall a :: a in st.values ==> a in st'.values && st'.values[a] == st.values[a])
  }

  /** The aliases `vs` are new with respect to `st` and stand for `xs`, one for one, in `st'`, which adds nothing else. */
  ghost predicate FreshValueAliases(st: Aliases, st': Aliases, xs: seq<Term>, vs: seq<string>) {
    && |vs| == |xs|
    && (forall i :: 0 <= i < |vs| ==> vs[i] !in st.values && vs[i] in st'.values && st'.values[vs[i]] == xs[i])
    && (forall a :: a in st'.values ==> a in st.values || a in vs)
  }

  lemma AddValueStepSpec(st: Aliases, t: Term)
    ensures var (r, st') := AddValueStep(st, t);
      && st'.names == st.names && Extends(st, st')
      && (WellFormed(st) ==> WellFormed(st'))
      && (r.Success? <==> t != Undef)
      && (r.Success? ==> r.value !in st.values && st'.values == st.values[r.value := t])
  {
    if t != Undef && WellFormed(st) {
      AddKeepsWellFormed(st, t);
    }
  }

  lemma AddNameStepSpec(st: Aliases, t: Term)
    ensures var (r, st') := AddNameStep(st, t);
      && st'.values == st.values && Extends(st, st')
      && (WellFormed(st) ==> WellFormed(st'))
      && (r.Success? <==> t != Undef)
      && (r.Success? ==> r.value !in st.names && st'.names == st.names[r.value := t])
  {
    if t != Undef && WellFormed(st) {
      AddKeepsWellFormed(st, t);
    }
  }

  lemma FreshSnoc(st: Aliases, st1: Aliases, st2: Aliases, init: seq<Term>, x: Term, vs: seq<string>, a: string)
    requires FreshValueAliases(st, st1, init, vs)
    requires Extends(st, st1)
    requires a !in st1.values && st2.values == st1.values[a := x]
    ensures FreshValueAliases(st, st2, init + [x], vs + [a])
  {
  }

  lemma ExtendsTransitive(st: Aliases, st1: Aliases, st2: Aliases)
    requires Extends(st, st1) && Extends(st1, st2)
    ensures Extends(st, st2)
  {
  }

  /** `map(addValue)` only adds values, keeps earlier entries and keeps the builder well formed. */
  lemma {:induction false} AddValuesStepFrame(st: Aliases, xs: seq<Term>)
    ensures var st' := AddValuesStep(st, xs).1;
      st'.names == st.names && Extends(st, st') && (WellFormed(st) ==> WellFormed(st'))
    decreases |xs|
  {
    if |xs| > 0 {
      var init := xs[..|xs| - 1];
      AddValuesStepFrame(st, init);
      var (r, st1) := AddValuesStep(st, init);
      if r.Success? {
        AddValueStepSpec(st1, xs[|xs| - 1]);
        ExtendsTransitive(st, st1, AddValueStep(st1, xs[|xs| - 1]).1);
      }
    }
  }

  /** `map(addValue)` succeeds exactly when no element is `undefined`. */
  lemma {:induction false} AddValuesSucceeds(st: Aliases, xs: seq<Term>)
    ensures AddValuesStep(st, xs).0.Success? <==> forall i :: 0 <= i < |xs| ==> xs[i] != Undef
    ensures AddValuesStep(st, xs).0.Failure? ==> AddValuesStep(st, xs).0.error == EngineTypeError
    decreases |xs|
  {
    if |xs| > 0 {
      var init := xs[..|xs| - 1];
      AddValuesSucceeds(st, init);
      AllDefinedSnoc(xs, init);
    }
  }

  lemma AllDefinedSnoc(xs: seq<Term>, init: seq<Term>)
    requires |xs| > 0 && init == xs[..|xs| - 1]
    ensures (forall i :: 0 <= i < |xs| ==> xs[i] != Undef) <==>
      (forall i :: 0 <= i < |init| ==> init[i] != Undef) && xs[|xs| - 1] != Undef
  {
    assert forall i :: 0 <= i < |init| ==> init[i] == xs[i];
  }

  /** On success, `map(addValue)` returns one new alias per element, in list order, and adds nothing else. */
  lemma {:induction false} AddValuesFresh(st: Aliases, xs: seq<Term>)
    ensures var (r, st') := AddValuesStep(st, xs);
      r.Success? ==> FreshValueAliases(st, st', xs, r.value)
    decreases |xs|
  {
    if |xs| > 0 {
      var init := xs[..|xs| - 1];
      var x := xs[|xs| - 1];
      assert xs == init + [x];
      AddValuesFresh(st, init);
      AddValuesStepFrame(st, init);
      var (r, st1) := AddValuesStep(st, init);
      if r.Success? {
        AddValueStepSpec(st1, x);
        var (a, st2) := AddValueStep(st1, x);
        if a.Success? {
          FreshSnoc(st, st1, st2, init, x, r.value, a.value);
        }
      }
    }
  }

  /** The aliases `map(addValue)` returns are pairwise distinct. */
  lemma {:induction false} AddValuesDistinct(st: Aliases, xs: seq<Term>)
    ensures var r := AddValuesStep(st, xs).0;
      r.Success? ==> forall i, j :: 0 <= i < j < |r.value| ==> r.value[i] != r.value[j]
    decreases |xs|
  {
    if |xs| > 0 {
      var init := xs[..|xs| - 1];
      AddValuesDistinct(st, init);
      AddValuesFresh(st, init);
      var (r, st1) := AddValuesStep(st, init);
      if r.Success? {
        AddValueStepSpec(st1, xs[|xs| - 1]);
      }
    }
  }

  // ---------------------------------------------------------------------------
  // The compiler's cases

  /** The operands a condition of each shape needs: defined, and for `in` an array of defined values. */
  predicate Compilable(c: seq<Term>) {
    match ShapeOf(c)
    case UnaryShape => At(c, 0) != Undef
    case InShape => At(c, 0) != Undef && At(c, 2).Arr? && forall i :: 0 <= i < |At(c, 2).elems| ==> At(c, 2).elems[i] != Undef
    case TripleShape => At(c, 0) != Undef && At(c, 2) != Undef
    case QuintupleShape => At(c, 0) != Undef && At(c, 2) != Undef && At(c, 4) != Undef
    case UnknownShape => false
  }

  /**
   * Compiling fails exactly when the condition is not `Compilable`: with the
   * "Unexpected condition" error for an unknown shape, and with a TypeError for a
   * missing operand or a non-array `in` list.
   */
  lemma CompileFails(st: Aliases, c: seq<Term>)
    ensures Compile(st, c).0.Failure? <==> !Compilable(c)
    ensures Compile(st, c).0 == Failure(UnexpectedCondition(c)) <==> ShapeOf(c) == UnknownShape
  {
    if ShapeOf(c) == InShape && At(c, 0) != Undef && At(c, 2).Arr? {
      AddValuesSucceeds(st.AddName(c[0]).1, At(c, 2).elems);
    }
  }

  /** Compiling keeps every earlier alias and keeps the builder well formed, whether or not it succeeds. */
  lemma CompileFrame(st: Aliases, c: seq<Term>)
    ensures Extends(st, Compile(st, c).1)
    ensures WellFormed(st) ==> WellFormed(Compile(st, c).1)
  {
    AddNameStepSpec(st, At(c, 0));
    match ShapeOf(c)
    case UnaryShape =>
    case InShape => CompileFrameIn(st, c);
    case TripleShape => CompileFrameTriple(st, c);
    case QuintupleShape => CompileFrameQuintuple(st, c);
    case UnknownShape =>
  }

  lemma CompileFrameIn(st: Aliases, c: seq<Term>)
    ensures Extends(st, CompileInCase(st, c).1)
    ensures WellFormed(st) ==> WellFormed(CompileInCase(st, c).1)
  {
    var (n, st1) := AddNameStep(st, At(c, 0));
    AddNameStepSpec(st, At(c, 0));
    if n.Success? && At(c, 2).Arr? {
      AddValuesStepFrame(st1, At(c, 2).elems);
      ExtendsTransitive(st, st1, AddValuesStep(st1, At(c, 2).elems).1);
    }
  }

  lemma CompileFrameTriple(st: Aliases, c: seq<Term>)
    ensures Extends(st, CompileTripleCase(st, c).1)
    ensures WellFormed(st) ==> WellFormed(CompileTripleCase(st, c).1)
  {
    var (n, st1) := AddNameStep(st, At(c, 0));
    AddNameStepSpec(st, At(c, 0));
    if n.Success? {
      AddValueStepSpec(st1, At(c, 2));
      ExtendsTransitive(st, st1, AddValueStep(st1, At(c, 2)).1);
    }
  }

  lemma CompileFrameQuintuple(st: Aliases, c: seq<Term>)
    ensures Extends(st, CompileQuintupleCase(st, c).1)
    ensures WellFormed(st) ==> WellFormed(CompileQuintupleCase(st, c).1)
  {
    var (n, st1) := AddNameStep(st, At(c, 0));
    AddNameStepSpec(st, At(c, 0));
    if n.Success? {
      AddValueStepSpec(st1, At(c, 2));
      var (v2, st2) := AddValueStep(st1, At(c, 2));
      ExtendsTransitive(st, st1, st2);
      if v2.Success? {
        AddValueStepSpec(st2, At(c, 4));
        ExtendsTransitive(st, st2, AddValueStep(st2, At(c, 4)).1);
      }
    }
  }

  /** `exists` / `doesn't exist` become `attribute_exists(#n)` / `attribute_not_exists(#n)`, adding one name and no value. */
  lemma CompileUnary(st: Aliases, c: seq<Term>)
    requires ShapeOf(c) == UnaryShape && Compilable(c)
    ensures var n := st.AddName(c[0]).0;
      && Compile(st, c).0 == Success((if c[1] == Str("exists") then "attribute_exists" else "attribute_not_exists") + "(" + n + ")")
      && n !in st.names && Compile(st, c).1 == st.AddName(c[0]).1
      && Compile(st, c).1.names == st.names[n := c[0]] && Compile(st, c).1.values == st.values
  {
    assert At(c, 0) == c[0] && At(c, 1) == c[1];
  }

  lemma JoinThree(sep: string, a: string, b: string, c: string)
    ensures Join(sep, [a, b, c]) == a + sep + b + sep + c
  {
    assert [a, b, c][1..] == [b, c];
    assert [b, c][1..] == [c];
    assert Join(sep, [b, c]) == b + sep + c;
    assert a + sep + (b + sep + c) == a + sep + b + sep + c;
  }

  lemma JoinFive(sep: string, a: string, b: string, c: string, d: string, e: string)
    ensures Join(sep, [a, b, c, d, e]) == a + sep + b + sep + c + sep + d + sep + e
  {
    assert [a, b, c, d, e][1..] == [b, c, d, e];
    assert [b, c, d, e][1..] == [c, d, e];
    JoinThree(sep, c, d, e);
  }

  /** The `in` case unfolded: the name, then the values, then the join. */
  lemma CompileInSteps(st: Aliases, c: seq<Term>)
    requires ShapeOf(c) == InShape && Compilable(c)
    ensures var (n, st1) := st.AddName(c[0]);
      var (vs, st2) := AddValuesStep(st1, c[2].elems);
      && vs.Success?
      && Compile(st, c) == (Success(Join(" ", [n, OperatorText(c[1]), "(" + Join(", ", vs.value) + ")"])), st2)
  {
    assert At(c, 0) == c[0] && At(c, 1) == c[1] && At(c, 2) == c[2];
    AddValuesSucceeds(st.AddName(c[0]).1, c[2].elems);
  }

  lemma InText(n: string, j: string)
    ensures Join(" ", [n, OperatorText(Str("in")), "(" + j + ")"]) == n + " IN (" + j + ")"
  {
    assert OperatorText(Str("in")) == "IN";
    JoinThree(" ", n, "IN", "(" + j + ")");
    assert n + " IN " + ("(" + j + ")") == n + " IN (" + j + ")";
  }

  lemma CompileInText(st: Aliases, c: seq<Term>)
    requires ShapeOf(c) == InShape && Compilable(c)
    ensures var (n, st1) := st.AddName(c[0]);
      var (vs, st2) := AddValuesStep(st1, c[2].elems);
      && vs.Success?
      && Compile(st, c) == (Success(n + " IN (" + Join(", ", vs.value) + ")"), st2)
  {
    var (n, st1) := st.AddName(c[0]);
    CompileInSteps(st, c);
    var (vs, st2) := AddValuesStep(st1, c[2].elems);
    assert c[1] == At(c, 1) == Str("in");
    InText(n, Join(", ", vs.value));
  }

  /** `in` becomes `#n IN (:v0, :v1, ...)`, with one new value alias per list element, in list order. */
  lemma CompileIn(st: Aliases, c: seq<Term>)
    requires ShapeOf(c) == InShape && Compilable(c)
    ensures var (n, st1) := st.AddName(c[0]);
      var (vs, st2) := AddValuesStep(st1, c[2].elems);
      && vs.Success?
      && Compile(st, c) == (Success(n + " IN (" + Join(", ", vs.value) + ")"), st2)
      && n !in st.names && st2.names == st.names[n := c[0]]
      && FreshValueAliases(st1, st2, c[2].elems, vs.value)
  {
    CompileInText(st, c);
    var st1 := st.AddName(c[0]).1;
    AddValuesFresh(st1, c[2].elems);
    AddValuesStepFrame(st1, c[2].elems);
  }

  /** Any other three-element condition becomes `#n <op> :v`, with the operator taken from the operator table. */
  lemma CompileTriple(st: Aliases, c: seq<Term>)
    requires ShapeOf(c) == TripleShape && Compilable(c)
    ensures var (n, st1) := st.AddName(c[0]);
      var (v, st2) := st1.AddValue(c[2]);
      && Compile(st, c).0 == Success(n + " " + OperatorText(c[1]) + " " + v)
      && Compile(st, c).1 == st2
      && n !in st.names && st2.names == st.names[n := c[0]]
      && v !in st.values && st2.values == st.values[v := c[2]]
  {
    var (n, st1) := st.AddName(c[0]);
    var (v, st2) := st1.AddValue(c[2]);
    JoinThree(" ", n, OperatorText(c[1]), v);
    assert AddNameStep(st, c[0]) == (Success(n), st1);
    assert AddValueStep(st1, c[2]) == (Success(v), st2);
    assert Compile(st, c) == (Success(Join(" ", [n, OperatorText(c[1]), v])), st2);
  }

  /** A five-element condition becomes `#n <op1> :v2 <op3> :v4`, e.g. `#n BETWEEN :v0 AND :v1`. */
  lemma CompileQuintuple(st: Aliases, c: seq<Term>)
    requires ShapeOf(c) == QuintupleShape && Compilable(c)
    ensures var (n, st1) := st.AddName(c[0]);
      var (v2, st2) := st1.AddValue(c[2]);
      var (v4, st3) := st2.AddValue(c[4]);
      && Compile(st, c).0 == Success(n + " " + OperatorText(c[1]) + " " + v2 + " " + OperatorText(c[3]) + " " + v4)
      && Compile(st, c).1 == st3
      && n !in st.names && st3.names == st.names[n := c[0]]
      && v2 !in st.values && v4 !in st2.values && st3.values == st.values[v2 := c[2]][v4 := c[4]]
  {
    var (n, st1) := st.AddName(c[0]);
    var (v2, st2) := st1.AddValue(c[2]);
    var (v4, st3) := st2.AddValue(c[4]);
    JoinFive(" ", n, OperatorText(c[1]), v2, OperatorText(c[3]), v4);
    assert AddNameStep(st, c[0]) == (Success(n), st1);
    assert AddValueStep(st1, c[2]) == (Success(v2), st2);
    assert AddValueStep(st2, c[4]) == (Success(v4), st3);
    assert Compile(st, c) == (Success(Join(" ", [n, OperatorText(c[1]), v2, OperatorText(c[3]), v4])), st3);
  }

  /**
   * `!=` and `<>` render the same; an operator missing from the table, and
   * not a property of `Object.prototype`, renders as the empty string.
   */
  lemma OperatorRendering(key: Term)
    ensures OperatorText(Str("!=")) == "<>" && OperatorText(Str("<>")) == "<>"
    ensures OptimusOperator(Text(key)).None? && Text(key) !in ObjectPrototypeKeys ==> OperatorText(key) == ""
  {
  }

  /** Once `map(addValue)` has thrown on a prefix, the rest of the list is never looked at. */
  lemma {:induction false} AddValuesFailureSticks(st: Aliases, xs: seq<Term>, k: nat)
    requires k <= |xs| && AddValuesStep(st, xs[..k]).0.Failure?
    ensures AddValuesStep(st, xs) == AddValuesStep(st, xs[..k])
    decreases |xs|
  {
    if k < |xs| {
      assert xs[..|xs| - 1][..k] == xs[..k];
      AddValuesFailureSticks(st, xs[..|xs| - 1], k);
    } else {
      assert xs[..k] == xs;
    }
  }

  /** Once a condition has thrown, the conditions after it are never compiled. */
  lemma {:induction false} CompileAllFailureSticks(st: Aliases, cs: seq<seq<Term>>, k: nat)
    requires k <= |cs| && CompileAll(st, cs[..k]).0.Failure?
    ensures CompileAll(st, cs) == CompileAll(st, cs[..k])
    decreases |cs|
  {
    if k < |cs| {
      assert cs[..|cs| - 1][..k] == cs[..k];
      CompileAllFailureSticks(st, cs[..|cs| - 1], k);
    } else {
      assert cs[..k] == cs;
    }
  }

  lemma CompileAllSnoc(st: Aliases, cs: seq<seq<Term>>, i: nat)
    requires i < |cs|
    ensures var (r, st1) := CompileAll(st, cs[..i]);
      r.Success? ==>
        var (s, st2) := Compile(st1, cs[i]);
        CompileAll(st, cs[..i + 1]) == (if s.Failure? then Failure(s.error) else Success(r.value + [s.value]), st2)
  {
    assert cs[..i + 1][..i] == cs[..i];
  }

  // ---------------------------------------------------------------------------
  // The compiler against a builder object

  /** `builder.addName(t)`, throwing the TypeError of `undefined.toString()`. */
  method AddNameTo(b: ExpressionBuilder, t: Term) returns (r: Result<string, JsError>)
    requires b.Valid()
    modifies b
    ensures b.Valid()
    ensures (r, b.State()) == AddNameStep(old(b.State()), t)
  {
    if t == Undef {
      return Failure(EngineTypeError);
    }
    var a := b.AddName(t);
    return Success(a);
  }

  /** `builder.addValue(t)`, throwing the TypeError of `undefined.toString()`. */
  method AddValueTo(b: ExpressionBuilder, t: Term) returns (r: Result<string, JsError>)
    requires b.Valid()
    modifies b
    ensures b.Valid()
    ensures (r, b.State()) == AddValueStep(old(b.State()), t)
  {
    if t == Undef {
      return Failure(EngineTypeError);
    }
    var a := b.AddValue(t);
    return Success(a);
  }

  /** `xs.map(x => builder.addValue(x))`. */
  method AddValuesTo(b: ExpressionBuilder, xs: seq<Term>) returns (r: Result<seq<string>, JsError>)
    requires b.Valid()
    modifies b
    ensures b.Valid()
    ensures (r, b.State()) == AddValuesStep(old(b.State()), xs)
  {
    var vs: seq<string> := [];
    var i := 0;
    while i < |xs|
      invariant 0 <= i <= |xs|
      invariant b.Valid()
      invariant (Success(vs), b.State()) == AddValuesStep(old(b.State()), xs[..i])
    {
      assert xs[..i + 1][..i] == xs[..i];
      var a := AddValueTo(b, xs[i]);
      if a.Failure? {
        AddValuesFailureSticks(old(b.State()), xs, i + 1);
        return Failure(a.error);
      }
      vs := vs + [a.value];
      i := i + 1;
    }
    assert xs[..i] == xs;
    return Success(vs);
  }

  /** `getDynamoDbConditionExpressionString(c, builder)`. */
  method CompileCondition(c: seq<Term>, b: ExpressionBuilder) returns (r: Result<string, JsError>)
    requires b.Valid()
    modifies b
    ensures b.Valid()
    ensures (r, b.State()) == Compile(old(b.State()), c)
  {
    var op := At(c, 1);
    if op == Str("exists") || op == Str("doesn't exist") {
      var fn := if op == Str("exists") then "attribute_exists" else "attribute_not_exists";
      var n := AddNameTo(b, At(c, 0));
      if n.Failure? {
        return Failure(n.error);
      }
      return Success(fn + "(" + n.value + ")");
    } else if op == Str("in") {
      var n := AddNameTo(b, At(c, 0));
      if n.Failure? {
        return Failure(n.error);
      }
      if !At(c, 2).Arr? {
        return Failure(EngineTypeError);
      }
      var vs := AddValuesTo(b, At(c, 2).elems);
      if vs.Failure? {
        return Failure(vs.error);
      }
      return Success(Join(" ", [n.value, OperatorText(op), "(" + Join(", ", vs.value) + ")"]));
    } else if |c| == 3 {
      var n := AddNameTo(b, c[0]);
      if n.Failure? {
        return Failure(n.error);
      }
      var v := AddValueTo(b, c[2]);
      if v.Failure? {
        return Failure(v.error);
      }
      return Success(Join(" ", [n.value, OperatorText(c[1]), v.value]));
    } else if |c| == 5 {
      var n := AddNameTo(b, c[0]);
      if n.Failure? {
        return Failure(n.error);
      }
      var v2 := AddValueTo(b, c[2]);
      if v2.Failure? {
        return Failure(v2.error);
      }
      var v4 := AddValueTo(b, c[4]);
      if v4.Failure? {
        return Failure(v4.error);
      }
      return Success(Join(" ", [n.value, OperatorText(c[1]), v2.value, OperatorText(c[3]), v4.value]));
    } else {
      return Failure(UnexpectedCondition(c));
    }
  }

  /** `conditions.map(c => getDynamoDbConditionExpressionString(c, builder))`. */
  method CompileConditions(cs: seq<seq<Term>>, b: ExpressionBuilder) returns (r: Result<seq<string>, JsError>)
    requires b.Valid()
    modifies b
    ensures b.Valid()
    ensures (r, b.State()) == CompileAll(old(b.State()), cs)
  {
    var out: seq<string> := [];
    var i := 0;
    while i < |cs|
      invariant 0 <= i <= |cs|
      invariant b.Valid()
      invariant (Success(out), b.State()) == CompileAll(old(b.State()), cs[..i])
    {
      assert cs[..i + 1][..i] == cs[..i];
      var s := CompileCondition(cs[i], b);
      CompileAllSnoc(old(b.State()), cs, i);
      if s.Failure? {
        CompileAllFailureSticks(old(b.State()), cs, i + 1);
        return Failure(s.error);
      }
      out := out + [s.value];
      i := i + 1;
    }
    assert cs[..i] == cs;
    return Success(out);
  }

  lemma CompileAllLast(st: Aliases, cs: seq<seq<Term>>)
    requires |cs| > 0
    ensures var (r, st1) := CompileAll(st, cs[..|cs| - 1]);
      CompileAll(st, cs).0.Success? <==> r.Success? && Compile(st1, cs[|cs| - 1]).0.Success?
  {
  }

  lemma AllCompilableSnoc(cs: seq<seq<Term>>, init: seq<seq<Term>>)
    requires |cs| > 0 && init == cs[..|cs| - 1]
    ensures (forall i :: 0 <= i < |cs| ==> Compilable(cs[i])) <==>
      (forall i :: 0 <= i < |init| ==> Compilable(init[i])) && Compilable(cs[|cs| - 1])
  {
    assert forall i :: 0 <= i < |init| ==> init[i] == cs[i];
  }

  /** Compiling a list succeeds exactly when every condition in it is `Compilable`. */
  lemma {:induction false} CompileAllSucceeds(st: Aliases, cs: seq<seq<Term>>)
    ensures CompileAll(st, cs).0.Success? <==> forall i :: 0 <= i < |cs| ==> Compilable(cs[i])
    decreases |cs|
  {
    if |cs| > 0 {
      var init := cs[..|cs| - 1];
      CompileAllSucceeds(st, init);
      CompileAllLast(st, cs);
      var st1 := CompileAll(st, init).1;
      CompileFails(st1, cs[|cs| - 1]);
      AllCompilableSnoc(cs, init);
    }
  }

  /** Compiling a list keeps every earlier alias and yields one text per condition. */
  lemma {:induction false} CompileAllFrame(st: Aliases, cs: seq<seq<Term>>)
    ensures Extends(st, CompileAll(st, cs).1)
    ensures WellFormed(st) ==> WellFormed(CompileAll(st, cs).1)
    ensures CompileAll(st, cs).0.Success? ==> |CompileAll(st, cs).0.value| == |cs|
    decreases |cs|
  {
    if |cs| > 0 {
      var init := cs[..|cs| - 1];
      CompileAllFrame(st, init);
      var (r, st1) := CompileAll(st, init);
      if r.Success? {
        CompileFrame(st1, cs[|cs| - 1]);
        ExtendsTransitive(st, st1, Compile(st1, cs[|cs| - 1]).1);
      }
    }
  }

  // ---------------------------------------------------------------------------
  // getDynamoDbExpression

  /** The optional inputs of `getDynamoDbExpression`. A condition is an array, so a present one is truthy. */
  datatype ExpressionProps = ExpressionProps(
    partitionKeyCondition: Option<seq<Term>>,
    sortKeyCondition: Option<seq<Term>>,
    filterConditions: Option<seq<seq<Term>>>,
    conditionConditions: Option<seq<seq<Term>>>)

  /** The object `getDynamoDbExpression` returns; `None` is an `undefined` field. */
  datatype DdbExpression = DdbExpression(
    keyConditionExpression: Option<string>,
    filterExpression: Option<string>,
    conditionExpression: Option<string>,
    attributeNames: map<string, Term>,
    attributeValues: map<string, Term>)

  /** The key conditions, partition key first. */
  function KeyConditions(p: ExpressionProps): (ks: seq<seq<Term>>)
    ensures |ks| == (if p.partitionKeyCondition.Some? then 1 else 0) + (if p.sortKeyCondition.Some? then 1 else 0)
    ensures p.partitionKeyCondition.Some? ==> ks[0] == p.partitionKeyCondition.value
    ensures p.sortKeyCondition.Some? ==> ks[|ks| - 1] == p.sortKeyCondition.value
  {
    (if p.partitionKeyCondition.Some? then [p.partitionKeyCondition.value] else [])
    + (if p.sortKeyCondition.Some? then [p.sortKeyCondition.value] else [])
  }

  function FilterList(p: ExpressionProps): seq<seq<Term>> {
    if p.filterConditions.Some? then p.filterConditions.value else []
  }

  /**
   * `getDynamoDbExpression`: one builder for the key conditions, then the
   * filter conditions, then the condition list, which is read from
   * `filterConditions` as written (`conditionConditions` is never read).
   */
  function Expression(p: ExpressionProps): Result<DdbExpression, JsError> {
    ExpressionOver(KeyConditions(p), FilterList(p))
  }

  /** The body of `getDynamoDbExpression` for the key list and the filter list. */
  function ExpressionOver(keys: seq<seq<Term>>, filters: seq<seq<Term>>): Result<DdbExpression, JsError> {
    var (k, st1) := CompileAll(NoAliases, keys);
    if k.Failure? then Failure(k.error)
    else
      var (f, st2) := CompileAll(st1, filters);
      if f.Failure? then Failure(f.error)
      else
        var (g, st3) := CompileAll(st2, filters);
        if g.Failure? then Failure(g.error)
        else
          Success(DdbExpression(
            if |keys| > 0 then Some(Join(" AND ", k.value)) else None,
            if |filters| > 0 then Some(Join(" AND ", f.value)) else None,
            if |filters| > 0 then Some(Join(" AND ", g.value)) else None,
            st3.names,
            st3.values))
  }

  /** `getDynamoDbExpression(props)`. */
  method GetDynamoDbExpression(p: ExpressionProps) returns (r: Result<DdbExpression, JsError>)
    ensures r == Expression(p)
  {
    var b := new ExpressionBuilder();
    var keys := KeyConditions(p);
    var k := CompileConditions(keys, b);
    if k.Failure? {
      return Failure(k.error);
    }
    var filters := if p.filterConditions.Some? then p.filterConditions.value else [];
    var f := CompileConditions(filters, b);
    if f.Failure? {
      return Failure(f.error);
    }
    var conditions := if p.filterConditions.Some? then p.filterConditions.value else [];
    var g := CompileConditions(conditions, b);
    if g.Failure? {
      return Failure(g.error);
    }
    return Success(DdbExpression(
      if |keys| > 0 then Some(Join(" AND ", k.value)) else None,
      if |filters| > 0 then Some(Join(" AND ", f.value)) else None,
      if |conditions| > 0 then Some(Join(" AND ", g.value)) else None,
      b.AttributeNames(),
      b.AttributeValues()));
  }

  /** The result is an error exactly when some key or filter condition is not `Compilable`. */
  lemma ExpressionSucceeds(p: ExpressionProps)
    ensures Expression(p).Success? <==>
      (forall c :: c in KeyConditions(p) + FilterList(p) ==> Compilable(c))
  {
    var keys := KeyConditions(p);
    var filters := FilterList(p);
    CompileAllSucceeds(NoAliases, keys);
    var st1 := CompileAll(NoAliases, keys).1;
    CompileAllSucceeds(st1, filters);
    var st2 := CompileAll(st1, filters).1;
    CompileAllSucceeds(st2, filters);
    forall c | c in keys + filters
      ensures c in keys || c in filters
    {
    }
  }

  /**
   * Each expression field is defined exactly when its list is non-empty; the
   * condition expression is defined exactly when the filter list is, and
   * every alias in the returned maps stands for the content it was made from.
   */
  lemma ExpressionFields(p: ExpressionProps)
    requires Expression(p).Success?
    ensures var e := Expression(p).value;
      && (e.keyConditionExpression.Some? <==> p.partitionKeyCondition.Some? || p.sortKeyCondition.Some?)
      && (e.filterExpression.Some? <==> |FilterList(p)| > 0)
      && (e.conditionExpression.Some? <==> |FilterList(p)| > 0)
      && WellFormed(Aliases(e.attributeNames, e.attributeValues))
  {
    var keys := KeyConditions(p);
    var filters := FilterList(p);
    CompileAllFrame(NoAliases, keys);
    var st1 := CompileAll(NoAliases, keys).1;
    CompileAllFrame(st1, filters);
    var st2 := CompileAll(st1, filters).1;
    CompileAllFrame(st2, filters);
  }

  /** `conditionConditions` has no effect on the result. */
  lemma ConditionConditionsIgnored(p: ExpressionProps, other: Option<seq<seq<Term>>>)
    ensures Expression(p) == Expression(p.(conditionConditions := other))
  {
    var q := p.(conditionConditions := other);
    assert KeyConditions(q) == KeyConditions(p) && FilterList(q) == FilterList(p);
  }

  /**
   * The condition expression is the filter list compiled a second time, on the
   * same builder after the filter expression, so it uses fresh aliases.
   */
  lemma ConditionIsFilterCompiledAgain(p: ExpressionProps)
    requires Expression(p).Success? && |FilterList(p)| > 0
    ensures var st1 := CompileAll(NoAliases, KeyConditions(p)).1;
      var st2 := CompileAll(st1, FilterList(p)).1;
      && Expression(p).value.filterExpression == Some(Join(" AND ", CompileAll(st1, FilterList(p)).0.value))
      && Expression(p).value.conditionExpression == Some(Join(" AND ", CompileAll(st2, FilterList(p)).0.value))
  {
  }

  /** With no conditions at all, every expression is undefined and both maps are empty. */
  lemma EmptyExpression(other: Option<seq<seq<Term>>>)
    ensures Expression(ExpressionProps(None, None, None, other)) == Success(DdbExpression(None, None, None, map[], map[]))
  {
  }

  // ---------------------------------------------------------------------------
  // getItemsFromPaginator

  /** One page of a query or scan: its items and, when more may follow, the key to resume from. */
  datatype Page = Page(items: seq<Record>, lastEvaluatedKey: Option<Record>)

  /** `limit && ...`: an absent limit and a limit of 0 are falsy. */
  predicate LimitSet(limit: Option<int>) {
    limit.Some? && limit.value != 0
  }

  /** `s.slice(0, end)`: a negative end counts back from the end of `s`. */
  function SlicePrefix<T>(s: seq<T>, end: int): (r: seq<T>)
    ensures |r| == if end >= 0 then (if end <= |s| then end else |s|) else (if |s| + end >= 0 then |s| + end else 0)
    ensures r == s[..|r|]
  {
    if end >= 0 then (if end <= |s| then s[..end] else s)
    else if |s| + end >= 0 then s[..|s| + end] else []
  }

  /** All items of the pages, in page order. */
  function AllItems(pages: seq<Page>): seq<Record> {
    if |pages| == 0 then [] else pages[0].items + AllItems(pages[1..])
  }

  /**
   * The `for await` loop from the point where `items` have been collected:
   * push the next page's items; stop as soon as a truthy limit is reached,
   * returning the first `limit` items and that page's key.
   */
  function Accumulate(pages: seq<Page>, limit: Option<int>, items: seq<Record>): (seq<Record>, Option<Record>)
    decreases |pages|
  {
    if |pages| == 0 then (items, None)
    else
      var items' := items + pages[0].items;
      if LimitSet(limit) && |items'| >= limit.value then (SlicePrefix(items', limit.value), pages[0].lastEvaluatedKey)
      else Accumulate(pages[1..], limit, items')
  }

  /** `getItemsFromPaginator(paginator, limit)`, with the paginator's pages given as a list. */
  method GetItemsFromPaginator(pages: seq<Page>, limit: Option<int>) returns (items: seq<Record>, key: Option<Record>)
    ensures (items, key) == Accumulate(pages, limit, [])
  {
    items := [];
    for i := 0 to |pages|
      invariant Accumulate(pages, limit, []) == Accumulate(pages[i..], limit, items)
    {
      assert pages[i..][1..] == pages[i + 1..];
      items := items + pages[i].items;
      if LimitSet(limit) && |items| >= limit.value {
        return SlicePrefix(items, limit.value), pages[i].lastEvaluatedKey;
      }
    }
    assert pages[|pages|..] == [];
    key := None;
  }

  /** Without a truthy limit, every page is read and the result is all items with no resume key. */
  lemma {:induction false} AccumulateWithoutLimit(pages: seq<Page>, limit: Option<int>, items: seq<Record>)
    requires !LimitSet(limit)
    ensures Accumulate(pages, limit, items) == (items + AllItems(pages), None)
    decreases |pages|
  {
    if |pages| > 0 {
      AccumulateWithoutLimit(pages[1..], limit, items + pages[0].items);
      assert Accumulate(pages, limit, items) == Accumulate(pages[1..], limit, items + pages[0].items);
      assert AllItems(pages) == pages[0].items + AllItems(pages[1..]);
      assert items + pages[0].items + AllItems(pages[1..]) == items + (pages[0].items + AllItems(pages[1..]));
    } else {
      assert items + [] == items;
    }
  }

  /** Page `k` is the one whose items make the running count reach `need`. */
  ghost predicate Reaches(pages: seq<Page>, need: int, k: nat) {
    k < |pages| && |AllItems(pages[..k])| < need <= |AllItems(pages[..k + 1])|
  }

  lemma AllItemsCons(pages: seq<Page>, k: nat)
    requires 0 < |pages| && k < |pages|
    ensures AllItems(pages[..k + 1]) == pages[0].items + AllItems(pages[1..][..k])
  {
    assert pages[..k + 1][1..] == pages[1..][..k];
  }

  /**
   * With a positive limit `L`: when the pages hold fewer than `L` items, all
   * of them and no key; otherwise exactly the first `L` items, with the key
   * of the page at which the count reached `L`.
   */
  lemma {:induction false} AccumulateWithLimit(pages: seq<Page>, limit: int, items: seq<Record>)
    requires 0 < limit && |items| < limit
    ensures var (r, key) := Accumulate(pages, Some(limit), items);
      var all := items + AllItems(pages);
      && (|all| < limit ==> r == all && key.None?)
      && (limit <= |all| ==> r == all[..limit] && exists k: nat :: Reaches(pages, limit - |items|, k) && key == pages[k].lastEvaluatedKey)
    decreases |pages|
  {
    if |pages| > 0 {
      var items' := items + pages[0].items;
      assert items' + AllItems(pages[1..]) == items + AllItems(pages);
      if |items'| >= limit {
        assert pages[..0] == [] && pages[..1] == [pages[0]];
        assert AllItems(pages[..1]) == pages[0].items;
        assert Reaches(pages, limit - |items|, 0);
      } else {
        AccumulateWithLimit(pages[1..], limit, items');
        var all := items + AllItems(pages);
        if limit <= |all| {
          assert limit <= |items' + AllItems(pages[1..])|;
          var k: nat :| Reaches(pages[1..], limit - |items'|, k)
            && Accumulate(pages[1..], Some(limit), items').1 == pages[1..][k].lastEvaluatedKey;
          AllItemsCons(pages, k);
          AllItemsCons(pages, k + 1);
          assert Reaches(pages, limit - |items|, k + 1);
          assert Accumulate(pages, Some(limit), items) == Accumulate(pages[1..], Some(limit), items');
          assert pages[1..][k] == pages[k + 1];
          var res := Accumulate(pages, Some(limit), items);
          assert res.0 == all[..limit];
          assert res.1 == pages[k + 1].lastEvaluatedKey;
        }
      }
    } else {
      assert items + [] == items;
    }
  }

  /** With a positive limit, at most `limit` items are returned. */
  lemma PaginatorRespectsLimit(pages: seq<Page>, limit: int)
    requires 0 < limit
    ensures |Accumulate(pages, Some(limit), []).0| <= limit
  {
    AccumulateWithLimit(pages, limit, []);
  }

  /**
   * A negative limit is truthy and always reached, so the loop stops after the
   * first page and returns that page's items without the last `-limit` ones.
   */
  lemma NegativeLimitStopsAtFirstPage(pages: seq<Page>, limit: int)
    requires limit < 0 && 0 < |pages|
    ensures Accumulate(pages, Some(limit), []) == (SlicePrefix(pages[0].items, limit), pages[0].lastEvaluatedKey)
  {
    assert [] + pages[0].items == pages[0].items;
  }

  // ---------------------------------------------------------------------------
  // Resume tokens

  /**
   * `encodeNextToken`: `undefined` passes through; a key is encoded by
   * `encode` (JSON text in base64). With a `decode` that undoes `encode`,
   * `DecodeNextToken` gives the key back, since both pass `undefined` through.
   */
  function EncodeNextToken(key: Option<Record>, encode: Record -> string): (t: Option<string>)
    ensures t.None? <==> key.None?
  {
    if key.None? then None else Some(encode(key.value))
  }

  /**
   * `decodeNextToken`: `undefined` passes through; otherwise `decode` stands for
   * base64 decoding, JSON parsing and shape validation, and any failure there
   * becomes an `InvalidNextTokenError`.
   */
  function DecodeNextToken(token: Option<string>, decode: string -> Option<Record>): (r: Result<Option<Record>, JsError>)
    ensures token.None? ==> r == Success(None)
    ensures token.Some? && decode(token.value).None? ==> r == Failure(InvalidNextToken)
    ensures r.Success? && r.value.Some? ==> token.Some? && decode(token.value) == r.value
  {
    if token.None? then Success(None)
    else match decode(token.value)
      case None => Failure(InvalidNextToken)
      case Some(k) => Success(Some(k))
  }

}
