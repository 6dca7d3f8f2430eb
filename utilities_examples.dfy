/** The condition compiler on concrete conditions: the expected expression text and alias maps. */
module UtilitiesExamples {
  import opened Wrappers
  import opened JsValues
  import opened ExpressionBuilding
  import opened Utilities

  /** A plain name's alias on an empty map: a short letter-led word is kept as it is. */
  lemma PlainFirstName(w: string)
    requires 0 < |w| <= MaxContentLength && IsLetter(w[0])
    requires forall k :: 0 <= k < |w| ==> IsAliasChar(w[k])
    ensures NoAliases.AddName(Str(w)).0 == "#" + w + "_0"
  {
    CleanTextIsItsOwnBody(w);
    FirstAliasesOfEmptyBuilder(Str(w));
  }

  /** A plain value's alias on a map that holds no alias with the same body. */
  lemma PlainFreshValue(st: Aliases, w: string)
    requires 0 < |w| <= MaxContentLength && IsLetter(w[0])
    requires forall k :: 0 <= k < |w| ==> IsAliasChar(w[k])
    requires forall i: nat :: AliasAt(":" + w, i) !in st.values
    ensures st.AddValue(Str(w)).0 == ":" + w + "_0"
  {
    CleanTextIsItsOwnBody(w);
    FreshIndexIsLeastUnused(st.values.Keys, ":" + w, 0);
    assert NatText(0) == "0";
  }

  /** `attribute_exists(#expiresAt_0)`, with the one name alias in the map. */
  lemma ExistsExample()
    ensures Compile(NoAliases, [Str("expiresAt"), Str("exists")])
      == (Success("attribute_exists" + "(" + "#expiresAt_0" + ")"), Aliases(map["#expiresAt_0" := Str("expiresAt")], map[]))
  {
    assert "#" + "expiresAt" + "_0" == "#expiresAt_0";
    var c := [Str("expiresAt"), Str("exists")];
    CompileUnary(NoAliases, c);
    PlainFirstName("expiresAt");
  }

  /** `#n <op> :v` for plain words, on an empty builder. */
  lemma PlainTriple(name: string, op: Term, value: string)
    requires 0 < |name| <= MaxContentLength && IsLetter(name[0])
    requires forall k :: 0 <= k < |name| ==> IsAliasChar(name[k])
    requires 0 < |value| <= MaxContentLength && IsLetter(value[0])
    requires forall k :: 0 <= k < |value| ==> IsAliasChar(value[k])
    requires op != Str("exists") && op != Str("doesn't exist") && op != Str("in")
    ensures Compile(NoAliases, [Str(name), op, Str(value)]).0
      == Success(("#" + name + "_0") + " " + OperatorText(op) + " " + (":" + value + "_0"))
  {
    var c := [Str(name), op, Str(value)];
    CompileTriple(NoAliases, c);
    PlainFirstName(name);
    var st1 := NoAliases.AddName(Str(name)).1;
    PlainFreshValue(st1, value);
  }

  /** `#id_0 = :abcd_0`. */
  lemma EqualsExample()
    ensures Compile(NoAliases, [Str("id"), Str("="), Str("abcd")]).0 == Success("#id_0" + " " + "=" + " " + ":abcd_0")
  {
    assert "#" + "id" + "_0" == "#id_0" && ":" + "abcd" + "_0" == ":abcd_0";
    PlainTriple("id", Str("="), "abcd");
    assert OperatorText(Str("=")) == "=";
  }

  /** Both spellings of inequality render as `#id_0 <> :abcd_0`. */
  lemma InequalityExample()
    ensures Compile(NoAliases, [Str("id"), Str("!="), Str("abcd")]).0 == Success("#id_0" + " " + "<>" + " " + ":abcd_0")
    ensures Compile(NoAliases, [Str("id"), Str("<>"), Str("abcd")]).0 == Success("#id_0" + " " + "<>" + " " + ":abcd_0")
  {
    assert "#" + "id" + "_0" == "#id_0" && ":" + "abcd" + "_0" == ":abcd_0";
    PlainTriple("id", Str("!="), "abcd");
    PlainTriple("id", Str("<>"), "abcd");
    OperatorRendering(Str("<>"));
  }

  /**
   * As written, `begins with` in a three-element condition renders infix, as
   * `#name_0 begins_with :P_0`, not as the function call `begins_with(#name_0, :P_0)`.
   */
  lemma BeginsWithRendersInfix()
    ensures Compile(NoAliases, [Str("name"), Str("begins with"), Str("P")]).0
      == Success("#name_0" + " " + "begins_with" + " " + ":P_0")
  {
    assert "#" + "name" + "_0" == "#name_0" && ":" + "P" + "_0" == ":P_0";
    PlainTriple("name", Str("begins with"), "P");
    assert OperatorText(Str("begins with")) == "begins_with";
  }

  lemma DigitsBody(w: string)
    requires 0 < |w| <= MaxContentLength && forall k :: 0 <= k < |w| ==> IsDigit(w[k])
    ensures Body(w) == "A" + w
  {
    SanitizeKeepsClean(w);
  }

  /** The aliases of the between example: `#id_0`, then `:A0000_0` and `:A1000_0`. */
  lemma BetweenAliases()
    ensures var (n, st1) := NoAliases.AddName(Str("id"));
      var (v2, st2) := st1.AddValue(Str("0000"));
      n == "#id_0" && v2 == ":A0000_0" && st2.AddValue(Str("1000")).0 == ":A1000_0"
  {
    PlainFirstName("id");
    assert "#" + "id" + "_0" == "#id_0";
    var st1 := NoAliases.AddName(Str("id")).1;
    DigitsBody("0000");
    DigitsBody("1000");
    assert NatText(0) == "0";
    assert Stem(":", Str("0000")) == ":A0000";
    assert AliasAt(":A0000", 0) == ":A0000_0";
    FreshIndexIsLeastUnused(st1.values.Keys, ":A0000", 0);
    assert st1.AddValue(Str("0000")).0 == ":A0000_0";
    var st2 := st1.AddValue(Str("0000")).1;
    assert st2.values.Keys == {":A0000_0"};
    assert Stem(":", Str("1000")) == ":A1000";
    assert AliasAt(":A1000", 0) == ":A1000_0";
    FreshIndexIsLeastUnused(st2.values.Keys, ":A1000", 0);
  }

  /** `#id_0 BETWEEN :A0000_0 AND :A1000_0`. */
  lemma BetweenExample()
    ensures Compile(NoAliases, [Str("id"), Str("between"), Str("0000"), Str("and"), Str("1000")]).0
      == Success("#id_0" + " " + "BETWEEN" + " " + ":A0000_0" + " " + "AND" + " " + ":A1000_0")
  {
    var c := [Str("id"), Str("between"), Str("0000"), Str("and"), Str("1000")];
    assert OperatorText(c[1]) == "BETWEEN" && OperatorText(c[3]) == "AND";
    assert ShapeOf(c) == QuintupleShape && Compilable(c);
    CompileQuintuple(NoAliases, c);
    BetweenAliases();
  }

  /** A singleton grouping `[c]` has no case in the compiler and is rejected. */
  lemma GroupingRejected(inner: seq<Term>)
    ensures Compile(NoAliases, [Arr(inner)]).0 == Failure(UnexpectedCondition([Arr(inner)]))
  {
  }

  lemma PairText(a: string, b: string)
    ensures Text(Arr([Str(a), Str(b)])) == a + "," + b
  {
    assert ElementTexts([Str(a), Str(b)]) == [a, b];
    assert [a, b][1..] == [b];
    assert Join(",", [a, b]) == a + "," + b;
    assert Text(Arr([Str(a), Str(b)])) == Join(",", ElementTexts([Str(a), Str(b)]));
  }

  /** `"x,exists"` sanitises to `x_exists`. */
  lemma ExistsPairBody(x: string)
    requires 0 < |x| <= 8 && IsLetter(x[0]) && forall k :: 0 <= k < |x| ==> IsAliasChar(x[k])
    ensures Body(Text(Arr([Str(x), Str("exists")]))) == x + "_exists"
  {
    PairText(x, "exists");
    SanitizeAppend(x + ",", "exists");
    SanitizeAppend(x, ",");
    SanitizeDisallowed(',');
    SanitizeKeepsClean(x);
    SanitizeKeepsClean("exists");
    assert Sanitize(x + "," + "exists") == x + "_" + "exists";
    assert x + "_" + "exists" == x + "_exists";
  }

  /** The aliases of an `and` node's two sides `[x, "exists"]` and `[y, "exists"]`: `#x_exists_0` and `:y_exists_0`. */
  lemma AndNodeAliases(x: string, y: string)
    requires 0 < |x| <= 8 && IsLetter(x[0]) && forall k :: 0 <= k < |x| ==> IsAliasChar(x[k])
    requires 0 < |y| <= 8 && IsLetter(y[0]) && forall k :: 0 <= k < |y| ==> IsAliasChar(y[k])
    ensures var (n, st1) := NoAliases.AddName(Arr([Str(x), Str("exists")]));
      n == "#" + (x + "_exists") + "_0" && st1.AddValue(Arr([Str(y), Str("exists")])).0 == ":" + (y + "_exists") + "_0"
  {
    var l := Arr([Str(x), Str("exists")]);
    ExistsPairBody(x);
    FirstAliasesOfEmptyBuilder(l);
    var st1 := NoAliases.AddName(l).1;
    ExistsPairBody(y);
    FirstValueAlias(st1, Arr([Str(y), Str("exists")]), y + "_exists");
  }

  /** On an empty value map, a value's alias is its body with the suffix `_0`. */
  lemma FirstValueAlias(st: Aliases, content: Term, body: string)
    requires st.values == map[] && Body(Text(content)) == body
    ensures st.AddValue(content).0 == ":" + body + "_0"
  {
    FreshIndexIsLeastUnused(st.values.Keys, ":" + body, 0);
    assert NatText(0) == "0";
  }

  /** The alias texts of the `and` example, kept apart from the compile step they finish. */
  lemma AndNodeAliasTexts()
    ensures "#" + ("a" + "_exists") + "_0" == "#a_exists_0" && ":" + ("b" + "_exists") + "_0" == ":b_exists_0"
  {
  }

  /**
   * An `and` node `[c1, "and", c2]` takes the three-element case: the left
   * condition becomes a name alias of its comma-joined text and the right one a
   * value alias, so `[["a", "exists"], "and", ["b", "exists"]]` compiles to
   * `#a_exists_0 AND :b_exists_0`.
   */
  lemma AndNodeTakesTripleCase()
    ensures Compile(NoAliases, [Arr([Str("a"), Str("exists")]), Str("and"), Arr([Str("b"), Str("exists")])]).0
      == Success("#a_exists_0" + " " + "AND" + " " + ":b_exists_0")
  {
    var c := [Arr([Str("a"), Str("exists")]), Str("and"), Arr([Str("b"), Str("exists")])];
    assert OperatorText(c[1]) == "AND";
    assert ShapeOf(c) == TripleShape && Compilable(c);
    CompileTriple(NoAliases, c);
    AndNodeAliases("a", "b");
    AndNodeAliasTexts();
  }

  /** A short letter-led word of alias characters. */
  predicate Word(w: string) {
    0 < |w| <= MaxContentLength && IsLetter(w[0]) && forall k :: 0 <= k < |w| ==> IsAliasChar(w[k])
  }

  lemma AddValuesPair(st: Aliases, a: Term, b: Term)
    requires a != Undef && b != Undef
    ensures var (va, st1) := st.AddValue(a);
      AddValuesStep(st, [a, b]) == (Success([va, st1.AddValue(b).0]), st1.AddValue(b).1)
  {
    var xs := [a, b];
    assert xs[..1] == [a] && xs[..1][..0] == [];
    assert xs[..|xs| - 1] == [a] && xs[|xs| - 1] == b;
    assert AddValuesStep(st, [a]) == (Success([st.AddValue(a).0]), st.AddValue(a).1) by {
      assert [a][..0] == [];
      assert [] + [st.AddValue(a).0] == [st.AddValue(a).0];
    }
    assert [st.AddValue(a).0] + [st.AddValue(a).1.AddValue(b).0] == [st.AddValue(a).0, st.AddValue(a).1.AddValue(b).0];
  }

  /** Two different words added as values to an empty value map: both take `_0`. */
  lemma InPairValues(st: Aliases, a: string, b: string)
    requires Word(a) && Word(b) && a != b && st.values == map[]
    ensures AddValuesStep(st, [Str(a), Str(b)]).0 == Success([":" + a + "_0", ":" + b + "_0"])
  {
    AddValuesPair(st, Str(a), Str(b));
    PlainFreshValue(st, a);
    var st2 := st.AddValue(Str(a)).1;
    CleanTextIsItsOwnBody(a);
    assert st2.values.Keys == {AliasAt(":" + a, 0)};
    forall i: nat ensures AliasAt(":" + b, i) !in st2.values {
      DistinctStems(a, b, 0, i);
    }
    PlainFreshValue(st2, b);
  }

  /** The aliases `[name, "in", [a, b]]` takes from an empty builder: `#name_0`, then `:a_0` and `:b_0`. */
  lemma InPairAliases(name: string, a: string, b: string)
    requires Word(name) && Word(a) && Word(b) && a != b
    ensures var (n, st1) := NoAliases.AddName(Str(name));
      && n == "#" + name + "_0"
      && AddValuesStep(st1, [Str(a), Str(b)]).0 == Success([":" + a + "_0", ":" + b + "_0"])
  {
    PlainFirstName(name);
    var st1 := NoAliases.AddName(Str(name)).1;
    assert st1.values == map[];
    InPairValues(st1, a, b);
  }

  /**
   * `[name, "in", [a, b]]` on an empty builder: one name alias and, in list
   * order, one value alias per element, e.g. `#status_0 IN (:available_0, :deleted_0)`.
   */
  lemma InPair(name: string, a: string, b: string)
    requires Word(name) && Word(a) && Word(b) && a != b
    ensures Compile(NoAliases, [Str(name), Str("in"), Arr([Str(a), Str(b)])]).0
      == Success(("#" + name + "_0") + " IN (" + ((":" + a + "_0") + ", " + (":" + b + "_0")) + ")")
  {
    var c := [Str(name), Str("in"), Arr([Str(a), Str(b)])];
    assert ShapeOf(c) == InShape && Compilable(c);
    CompileInText(NoAliases, c);
    assert c[2].elems == [Str(a), Str(b)];
    InPairAliases(name, a, b);
    var n := "#" + name + "_0";
    var x := ":" + a + "_0";
    var y := ":" + b + "_0";
    assert [x, y][1..] == [y];
    assert Join(", ", [x, y]) == x + ", " + y;
  }

  /** Aliases of two different words never coincide: the words are letters, digits and `_`, the suffixes digits. */
  lemma DistinctStems(a: string, b: string, i: nat, j: nat)
    requires Word(a) && Word(b) && a != b
    ensures AliasAt(":" + a, i) != AliasAt(":" + b, j)
  {
    LastUnderscoreAt(":" + a, i);
    LastUnderscoreAt(":" + b, j);
    assert (":" + a)[1..] == a && (":" + b)[1..] == b;
  }

  /** The position of the last `_` in `s`, or `|s|` when there is none. */
  function LastUnderscore(s: string): (p: nat)
    ensures p <= |s|
  {
    if |s| == 0 then 0
    else if s[|s| - 1] == '_' then |s| - 1
    else if LastUnderscore(s[..|s| - 1]) == |s| - 1 then |s| else LastUnderscore(s[..|s| - 1])
  }

  lemma {:induction false} DigitsHaveNoUnderscore(s: string, d: string)
    requires forall k :: 0 <= k < |d| ==> IsDigit(d[k])
    ensures LastUnderscore(s + "_" + d) == |s|
    decreases |d|
  {
    if |d| == 0 {
      assert s + "_" + d == s + "_";
    } else {
      var t := s + "_" + d;
      assert t[..|t| - 1] == s + "_" + d[..|d| - 1];
      DigitsHaveNoUnderscore(s, d[..|d| - 1]);
    }
  }

  lemma LastUnderscoreAt(stem: string, i: nat)
    ensures LastUnderscore(AliasAt(stem, i)) == |stem|
    ensures AliasAt(stem, i)[..|stem|] == stem
  {
    DigitsHaveNoUnderscore(stem, NatText(i));
  }

  /** `#status_0 IN (:available_0, :deleted_0)`. */
  lemma InExample()
    ensures Compile(NoAliases, [Str("status"), Str("in"), Arr([Str("available"), Str("deleted")])]).0
      == Success("#status_0" + " IN (" + (":available_0" + ", " + ":deleted_0") + ")")
  {
    assert Word("status") && Word("available") && Word("deleted");
    assert "#" + "status" + "_0" == "#status_0";
    assert ":" + "available" + "_0" == ":available_0";
    assert ":" + "deleted" + "_0" == ":deleted_0";
    InPair("status", "available", "deleted");
  }

  /** The state after the first compile of `[name, op, value]`: one `_0` alias in each map. */
  lemma FirstTripleState(name: string, op: Term, value: string)
    requires Word(name) && Word(value)
    requires op != Str("exists") && op != Str("doesn't exist") && op != Str("in")
    ensures Compile(NoAliases, [Str(name), op, Str(value)]).1
      == Aliases(map[AliasAt("#" + name, 0) := Str(name)], map[AliasAt(":" + value, 0) := Str(value)])
  {
    var c := [Str(name), op, Str(value)];
    CompileTriple(NoAliases, c);
    PlainFirstName(name);
    var (n, st1) := NoAliases.AddName(Str(name));
    PlainFreshValue(st1, value);
    var (v, st2) := st1.AddValue(Str(value));
    assert NatText(0) == "0";
    assert n == AliasAt("#" + name, 0) && v == AliasAt(":" + value, 0);
    assert st2.names == map[n := Str(name)] && st2.values == map[v := Str(value)];
  }

  /** On a map holding only the `_0` candidate, the next alias takes `_1`. */
  lemma SecondSuffix(taken: set<string>, stem: string)
    requires taken == {AliasAt(stem, 0)}
    ensures FreshIndex(taken, stem) == 1
  {
    AliasInjective(stem, 0, 1);
    FreshIndexIsLeastUnused(taken, stem, 1);
  }

  /**
   * The same three-element condition compiled twice on one builder: `_0`
   * aliases the first time, `_1` aliases the second.
   */
  lemma RepeatedTriple(name: string, op: Term, value: string)
    requires Word(name) && Word(value)
    requires op != Str("exists") && op != Str("doesn't exist") && op != Str("in")
    ensures var c := [Str(name), op, Str(value)];
      var (r1, st1) := Compile(NoAliases, c);
      && r1 == Success(("#" + name + "_0") + " " + OperatorText(op) + " " + (":" + value + "_0"))
      && Compile(st1, c).0 == Success(("#" + name + "_1") + " " + OperatorText(op) + " " + (":" + value + "_1"))
  {
    var c := [Str(name), op, Str(value)];
    PlainTriple(name, op, value);
    FirstTripleState(name, op, value);
    var st1 := Compile(NoAliases, c).1;
    CompileTriple(st1, c);
    CleanTextIsItsOwnBody(name);
    CleanTextIsItsOwnBody(value);
    assert Stem("#", Str(name)) == "#" + name && Stem(":", Str(value)) == ":" + value;
    assert st1.names.Keys == {AliasAt("#" + name, 0)};
    SecondSuffix(st1.names.Keys, "#" + name);
    var (n, st2) := st1.AddName(Str(name));
    assert n == AliasAt("#" + name, 1);
    assert st2.values.Keys == {AliasAt(":" + value, 0)};
    SecondSuffix(st2.values.Keys, ":" + value);
    var v := st2.AddValue(Str(value)).0;
    assert v == AliasAt(":" + value, 1);
    assert NatText(1) == "1";
    assert n == "#" + name + "_1" && v == ":" + value + "_1";
  }

  /**
   * One filter condition fills both the filter and the condition expression,
   * the second time with fresh aliases: `[name, op, value]` gives the filter
   * `#name_0 op :value_0` and the condition `#name_1 op :value_1`.
   */
  lemma FilterAlsoBecomesCondition(name: string, op: Term, value: string, other: Option<seq<seq<Term>>>)
    requires Word(name) && Word(value)
    requires op != Str("exists") && op != Str("doesn't exist") && op != Str("in")
    ensures var e := Expression(ExpressionProps(None, None, Some([[Str(name), op, Str(value)]]), other));
      && e.Success?
      && e.value.keyConditionExpression == None
      && e.value.filterExpression == Some(("#" + name + "_0") + " " + OperatorText(op) + " " + (":" + value + "_0"))
      && e.value.conditionExpression == Some(("#" + name + "_1") + " " + OperatorText(op) + " " + (":" + value + "_1"))
  {
    var c := [Str(name), op, Str(value)];
    RepeatedTriple(name, op, value);
    var p := ExpressionProps(None, None, Some([c]), other);
    assert KeyConditions(p) == [];
    var st1 := Compile(NoAliases, c).1;
    SingleCondition(NoAliases, c);
    SingleCondition(st1, c);
  }

  /** A one-element condition list compiles to the one condition's text. */
  lemma SingleCondition(st: Aliases, c: seq<Term>)
    requires Compile(st, c).0.Success?
    ensures CompileAll(st, [c]) == (Success([Compile(st, c).0.value]), Compile(st, c).1)
  {
    assert [c][..0] == [] && [c][0] == c;
    assert [] + [Compile(st, c).0.value] == [Compile(st, c).0.value];
  }
}
