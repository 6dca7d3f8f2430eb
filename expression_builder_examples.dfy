/** The alias builder on concrete inputs: the expected placeholders for a few names and values. */
module ExpressionBuilderExamples {
  import opened JsValues
  import opened ExpressionBuilding

  /** A fresh builder gives the first alias of any content the suffix `_0`. */
  lemma FirstAliasIsZero(st: Aliases, content: Term)
    requires forall i: nat :: AliasAt(Stem("#", content), i) !in st.names
    ensures st.AddName(content).0 == Stem("#", content) + "_0"
  {
    FreshIndexIsLeastUnused(st.names.Keys, Stem("#", content), 0);
  }

  lemma PlainNames()
    ensures NoAliases.AddName(Str("id")).0 == "#id_0"
    ensures NoAliases.AddValue(Str("abcd")).0 == ":abcd_0"
  {
    SanitizeKeepsClean("id");
    SanitizeKeepsClean("abcd");
  }

  /** A number's text starts with a digit, so its alias body gets the `A` prefix. */
  lemma NumberValue()
    ensures NoAliases.AddValue(Int(12)).0 == ":A12_0"
  {
    assert NatText(12) == "12";
    SanitizeKeepsClean("12");
  }

  /** The same name added twice gets `_0` and then `_1`. */
  lemma DuplicateNames()
    ensures var (a0, st1) := NoAliases.AddName(Str("status"));
            var (a1, _) := st1.AddName(Str("status"));
            a0 == "#status_0" && a1 == "#status_1"
  {
    var stem := Stem("#", Str("status"));
    SanitizeKeepsClean("status");
    assert stem == "#status";
    var (a0, st1) := NoAliases.AddName(Str("status"));
    assert a0 == AliasAt(stem, 0);
    AliasInjective(stem, 0, 1);
    FreshIndexIsLeastUnused(st1.names.Keys, stem, 1);
  }

  /** A character between two clean words is replaced on its own. */
  lemma Between(a: string, c: char, b: string)
    requires forall k :: 0 <= k < |a| ==> IsAliasChar(a[k])
    requires forall k :: 0 <= k < |b| ==> IsAliasChar(b[k])
    ensures Sanitize(a + [c] + b) == a + SanitizeChar(c) + b
  {
    SanitizeAppend(a + [c], b);
    SanitizeAppend(a, [c]);
    assert SanitizePrefix([c], 0) == "";
    SanitizeKeepsClean(a);
    SanitizeKeepsClean(b);
  }

  /**
   * One disallowed character between two words becomes `_`, or `__` when it
   * lies outside the Basic Multilingual Plane.
   */
  lemma ResourceStatus(c: char)
    requires !IsAliasChar(c)
    ensures c < '\U{10000}' ==> Sanitize("resource" + [c] + "status") == "resource_status"
    ensures '\U{10000}' <= c ==> Sanitize("resource" + [c] + "status") == "resource__status"
  {
    Between("resource", c, "status");
  }

  /** The two spellings of the test, `-` and `~` between the words, give one body. */
  lemma SeparatorBodies()
    ensures Body("resource-status") == "resource_status"
    ensures Body("resource~status") == "resource_status"
  {
    ResourceStatus('-');
    assert "resource" + "-" + "status" == "resource-status";
    ResourceStatus('~');
    assert "resource" + "~" + "status" == "resource~status";
  }

  lemma TildeSanitized()
    ensures Sanitize("resource~status") == "resource_status"
  {
    ResourceStatus('~');
    assert "resource" + "~" + "status" == "resource~status";
  }

  /** A disallowed first character of the Basic Multilingual Plane becomes `_` in front of the sanitised rest. */
  lemma DisallowedFirst(c: char, text: string, clean: string)
    requires !IsAliasChar(c) && c < '\U{10000}' && Sanitize(text) == clean
    ensures Sanitize([c] + text) == "_" + clean
  {
    SanitizeAppend([c], text);
    SanitizeDisallowed(c);
  }

  /** A disallowed first character before fifteen sanitised ones: the body is `A_` and those fifteen. */
  lemma DisallowedHead(c: char, rest: string, clean: string)
    requires !IsAliasChar(c) && c < '\U{10000}'
    requires Sanitize(rest) == clean && |clean| == MaxContentLength - 1
    ensures Body([c] + rest) == "A_" + clean
  {
    DisallowedFirst(c, rest, clean);
    NonLetterStartGetsPrefix([c] + rest);
    assert |"_" + clean| == MaxContentLength;
  }

  lemma HashTildeBody()
    ensures Body("#resource~status") == "A_resource_status"
  {
    TildeSanitized();
    DisallowedHead('#', "resource~status", "resource_status");
    assert ['#'] + "resource~status" == "#resource~status";
    assert "A_" + "resource_status" == "A_resource_status";
  }

  lemma TodoBody()
    ensures Body("~todo") == "A_todo"
  {
    SanitizeAppend("~", "todo");
    SanitizeDisallowed('~');
    SanitizeKeepsClean("todo");
    assert "~" + "todo" == "~todo";
  }

  /** Characters outside `[A-Za-z0-9_]` become `_`. */
  lemma InvalidCharacters()
    ensures NoAliases.AddName(Str("resource-status")).0 == "#resource_status_0"
  {
    SeparatorBodies();
    FirstAliasesOfEmptyBuilder(Str("resource-status"));
    assert "#" + "resource_status" + "_0" == "#resource_status_0";
  }

  /** A content that starts with a non-letter gets an `A` in front of its sanitised text. */
  lemma LeadingNonLetter()
    ensures NoAliases.AddName(Str("#resource~status")).0 == "#A_resource_status_0"
  {
    assert "#" + "A_resource_status" + "_0" == "#A_resource_status_0";
    HashTildeBody();
    FirstAliasesOfEmptyBuilder(Str("#resource~status"));
  }

  /** The same holds for values: `~todo` becomes `:A_todo_0`. */
  lemma LeadingNonLetterValue()
    ensures NoAliases.AddValue(Str("~todo")).0 == ":A_todo_0"
  {
    TodoBody();
    FirstAliasesOfEmptyBuilder(Str("~todo"));
    assert ":" + "A_todo" + "_0" == ":A_todo_0";
  }

  /** Once the `_0` candidate is taken, the next alias of the same stem is `_1`. */
  lemma SecondCandidate(stem: string)
    ensures FreshIndex({AliasAt(stem, 0)}, stem) == 1
  {
    AliasInjective(stem, 0, 1);
    FreshIndexIsLeastUnused({AliasAt(stem, 0)}, stem, 1);
  }

  /** Two names that differ only in a disallowed character collide on the body and are told apart by the suffix. */
  lemma SanitisedCollision()
    ensures NoAliases.AddName(Str("resource-status")).1.AddName(Str("resource~status")).0 == "#resource_status_1"
  {
    var stem := "#resource_status";
    var (r, st1) := NoAliases.AddName(Str("resource-status"));
    FirstCollisionState();
    assert st1.names.Keys == {AliasAt(stem, 0)};
    CommonStem();
    SecondCandidate(stem);
    CollisionText();
  }

  /** The first name takes `_0` on the common stem. */
  lemma FirstCollisionState()
    ensures NoAliases.AddName(Str("resource-status")).1.names == map[AliasAt("#resource_status", 0) := Str("resource-status")]
  {
    CommonStem();
    FreshIndexIsLeastUnused({}, "#resource_status", 0);
  }

  /** Both spellings share the stem `#resource_status`. */
  lemma CommonStem()
    ensures Stem("#", Str("resource-status")) == "#resource_status"
    ensures Stem("#", Str("resource~status")) == "#resource_status"
  {
    SeparatorBodies();
    assert "#" + "resource_status" == "#resource_status";
  }

  lemma CollisionText()
    ensures AliasAt("#resource_status", 1) == "#resource_status_1"
  {
    assert NatText(1) == "1";
  }

  /** Content that starts with sixteen clean characters, a letter first, has those as its body. */
  lemma CleanHead(a: string, b: string)
    requires |a| == MaxContentLength && IsLetter(a[0])
    requires forall k :: 0 <= k < |a| ==> IsAliasChar(a[k])
    ensures Body(a + b) == a
  {
    SanitizeAppend(a, b);
    SanitizeKeepsClean(a);
    assert (Sanitize(a) + Sanitize(b))[..MaxContentLength] == a;
  }

  lemma LongBody()
    ensures Body("she_sells_sea_shells_by_the_sea_shore") == "she_sells_sea_sh"
  {
    assert "she_sells_sea_shells_by_the_sea_shore" == "she_sells_sea_sh" + "ells_by_the_sea_shore";
    CleanHead("she_sells_sea_sh", "ells_by_the_sea_shore");
  }

  /** Only the first sixteen sanitised characters are kept. */
  lemma LongContent()
    ensures NoAliases.AddName(Str("she_sells_sea_shells_by_the_sea_shore")).0 == "#she_sells_sea_sh_0"
  {
    LongBody();
    FirstAliasesOfEmptyBuilder(Str("she_sells_sea_shells_by_the_sea_shore"));
    assert "#" + "she_sells_sea_sh" + "_0" == "#she_sells_sea_sh_0";
  }

  /**
   * An emoji is two UTF-16 code units, so it becomes two `_`: the value
   * `😀a` gets the alias `:A__a_0`.
   */
  lemma AstralValue()
    ensures NoAliases.AddValue(Str("\U{1F600}a")).0 == ":A__a_0"
  {
    var t := "\U{1F600}a";
    assert t == ['\U{1F600}'] + "a";
    SanitizeAppend(['\U{1F600}'], "a");
    SanitizeDisallowed('\U{1F600}');
    SanitizeKeepsClean("a");
    assert Sanitize(t) == "__a";
    NonLetterStartGetsPrefix(t);
    assert Body(t) == "A__a";
    FirstAliasesOfEmptyBuilder(Str(t));
    assert ":" + "A__a" + "_0" == ":A__a_0";
  }
}
