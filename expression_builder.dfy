/**
 * The alias builder behind every expression: it turns attribute names and
 * values into placeholders (`#name_0`, `:value_0`) and remembers which
 * placeholder stands for which content.
 */
module ExpressionBuilding {
  import opened JsValues

  predicate IsLetter(c: char) { 'A' <= c <= 'Z' || 'a' <= c <= 'z' }

  /** The characters `[A-Za-z0-9_]` that may stay in an alias. */
  predicate IsAliasChar(c: char) { IsLetter(c) || IsDigit(c) || c == '_' }

  /** How many sanitised characters of the content an alias keeps. */
  const MaxContentLength: nat := 16

  /**
   * What the replacement `/[^A-Za-z0-9_]/g` writes for one character. The
   * regular expression works on UTF-16 code units, so a disallowed
   * character outside the Basic Multilingual Plane (two code units) becomes
   * `__`, and any other disallowed character becomes `_`.
   */
  function SanitizeChar(c: char): string {
    if IsAliasChar(c) then [c] else if c < '\U{10000}' then "_" else "__"
  }

  /** Every character outside `[A-Za-z0-9_]` becomes one `_` per UTF-16 code unit. */
  function Sanitize(text: string): string {
    SanitizePrefix(text, |text|)
  }

  /** The replacement applied to the first `n` characters. */
  function SanitizePrefix(text: string, n: nat): string
    requires n <= |text|
  {
    if n == 0 then "" else SanitizePrefix(text, n - 1) + SanitizeChar(text[n - 1])
  }

  /** The replacement of a prefix depends only on that prefix. */
  lemma {:induction false} SanitizePrefixOf(t1: string, t2: string, n: nat)
    requires n <= |t1| && n <= |t2| && t1[..n] == t2[..n]
    ensures SanitizePrefix(t1, n) == SanitizePrefix(t2, n)
  {
    if n > 0 {
      assert t1[..n - 1] == t2[..n - 1] by {
        assert t1[..n - 1] == t1[..n][..n - 1];
        assert t2[..n - 1] == t2[..n][..n - 1];
      }
      assert t1[n - 1] == t1[..n][n - 1] == t2[n - 1];
      SanitizePrefixOf(t1, t2, n - 1);
    }
  }

  lemma {:induction false} SanitizePrefixShape(text: string, n: nat)
    requires n <= |text|
    ensures n <= |SanitizePrefix(text, n)| <= 2 * n
    ensures forall k :: 0 <= k < |SanitizePrefix(text, n)| ==> IsAliasChar(SanitizePrefix(text, n)[k])
  {
    if n > 0 {
      SanitizePrefixShape(text, n - 1);
      var h, t := SanitizePrefix(text, n - 1), SanitizeChar(text[n - 1]);
      assert SanitizePrefix(text, n) == h + t;
      assert 1 <= |t| <= 2 && forall k :: 0 <= k < |t| ==> IsAliasChar(t[k]);
      forall k | 0 <= k < |h + t|
        ensures IsAliasChar((h + t)[k])
      {
        if k >= |h| {
          assert (h + t)[k] == t[k - |h|];
        } else {
          assert (h + t)[k] == h[k];
        }
      }
    }
  }

  /**
   * The sanitised text uses only alias characters and is at least as long as
   * the content; in particular every character of it is a single UTF-16 code
   * unit, so `Truncate` counts code units as `.substring` does.
   */
  lemma SanitizeShape(text: string)
    ensures |text| <= |Sanitize(text)| <= 2 * |text|
    ensures forall k :: 0 <= k < |Sanitize(text)| ==> IsAliasChar(Sanitize(text)[k])
  {
    SanitizePrefixShape(text, |text|);
  }

  lemma {:induction false} SanitizePrefixKeepsClean(text: string, n: nat)
    requires n <= |text|
    requires forall k :: 0 <= k < |text| ==> IsAliasChar(text[k])
    ensures SanitizePrefix(text, n) == text[..n]
  {
    if n > 0 {
      SanitizePrefixKeepsClean(text, n - 1);
      assert text[..n] == text[..n - 1] + [text[n - 1]];
    }
  }

  /** Text made only of alias characters is left as it is. */
  lemma SanitizeKeepsClean(text: string)
    requires forall k :: 0 <= k < |text| ==> IsAliasChar(text[k])
    ensures Sanitize(text) == text
  {
    SanitizePrefixKeepsClean(text, |text|);
    assert text[..|text|] == text;
  }

  lemma {:induction false} SanitizePrefixAppend(a: string, b: string, m: nat)
    requires m <= |b|
    ensures SanitizePrefix(a + b, |a| + m) == Sanitize(a) + SanitizePrefix(b, m)
  {
    if m == 0 {
      assert (a + b)[..|a|] == a[..|a|];
      SanitizePrefixOf(a + b, a, |a|);
    } else {
      var c := SanitizeChar(b[m - 1]);
      assert SanitizePrefix(a + b, |a| + m) == SanitizePrefix(a + b, |a| + m - 1) + c by {
        assert (a + b)[|a| + m - 1] == b[m - 1];
      }
      SanitizePrefixAppend(a, b, m - 1);
      assert SanitizePrefix(b, m) == SanitizePrefix(b, m - 1) + c;
    }
  }

  /** Sanitising works character by character, so it distributes over concatenation. */
  lemma SanitizeAppend(a: string, b: string)
    ensures Sanitize(a + b) == Sanitize(a) + Sanitize(b)
  {
    SanitizePrefixAppend(a, b, |b|);
  }

  /** The first character's replacement comes first. */
  lemma SanitizeFirst(text: string)
    requires 0 < |text|
    ensures Sanitize(text) == SanitizeChar(text[0]) + Sanitize(text[1..])
  {
    assert text == [text[0]] + text[1..];
    SanitizeAppend([text[0]], text[1..]);
    assert SanitizePrefix([text[0]], 0) == "";
  }

  /**
   * A single disallowed character becomes `_`, or `__` when it lies outside
   * the Basic Multilingual Plane.
   */
  lemma SanitizeDisallowed(c: char)
    requires !IsAliasChar(c)
    ensures c < '\U{10000}' ==> Sanitize([c]) == "_"
    ensures '\U{10000}' <= c ==> Sanitize([c]) == "__"
  {
    assert SanitizePrefix([c], 0) == "";
  }

  /** `.substring(0, 16)` on text whose characters are single code units. */
  function Truncate(s: string): string {
    if |s| <= MaxContentLength then s else s[..MaxContentLength]
  }

  /** The alias body: sanitised, truncated, and prefixed with `A` unless it starts with a letter. */
  function Body(text: string): string {
    var almost := Truncate(Sanitize(text));
    if |almost| > 0 && IsLetter(almost[0]) then almost else "A" + almost
  }

  /** The part of every alias for this content that precedes the `_i` suffix. */
  function Stem(prefix: string, content: Term): string {
    prefix + Body(Text(content))
  }

  /** The candidate alias with suffix `i`. */
  function AliasAt(stem: string, i: nat): string {
    stem + "_" + NatText(i)
  }

  /** The body of an alias is non-empty, at most 17 characters, starts with a letter and uses only `[A-Za-z0-9_]`. */
  lemma BodyShape(text: string)
    ensures 0 < |Body(text)| <= MaxContentLength + 1
    ensures IsLetter(Body(text)[0])
    ensures forall k :: 0 <= k < |Body(text)| ==> IsAliasChar(Body(text)[k])
  {
    SanitizeShape(text);
  }

  /** Content that already is a short letter-led alias body is kept as it is. */
  lemma CleanTextIsItsOwnBody(text: string)
    requires 0 < |text| <= MaxContentLength && IsLetter(text[0])
    requires forall k :: 0 <= k < |text| ==> IsAliasChar(text[k])
    ensures Body(text) == text
  {
    SanitizeKeepsClean(text);
  }

  /** Content that does not start with a letter gets an `A` in front of its sanitised, truncated text. */
  lemma NonLetterStartGetsPrefix(text: string)
    requires |text| == 0 || !IsLetter(text[0])
    ensures Body(text) == "A" + Truncate(Sanitize(text))
  {
    if |text| > 0 {
      SanitizeFirst(text);
      assert Sanitize(text)[0] == SanitizeChar(text[0])[0];
    }
  }

  /**
   * Truncation happens before the `A` prefix: two texts whose first sixteen
   * sanitised characters agree share a body.
   */
  lemma TruncationBeforePrefix(t1: string, t2: string)
    requires MaxContentLength <= |Sanitize(t1)| && MaxContentLength <= |Sanitize(t2)|
    requires Sanitize(t1)[..MaxContentLength] == Sanitize(t2)[..MaxContentLength]
    ensures Body(t1) == Body(t2)
  {
    assert Truncate(Sanitize(t1)) == Truncate(Sanitize(t2));
  }

  // ---------------------------------------------------------------------------
  // The least unused suffix

  lemma AliasInjective(stem: string, i: nat, j: nat)
    ensures AliasAt(stem, i) == AliasAt(stem, j) ==> i == j
  {
    if AliasAt(stem, i) == AliasAt(stem, j) {
      var p := |stem| + 1;
      assert AliasAt(stem, i)[p..] == NatText(i);
      assert AliasAt(stem, j)[p..] == NatText(j);
      NatTextInjective(i, j);
    }
  }

  /** The candidates with suffixes below `n`. */
  ghost function AliasesBelow(stem: string, n: nat): set<string> {
    if n == 0 then {} else AliasesBelow(stem, n - 1) + {AliasAt(stem, n - 1)}
  }

  lemma {:induction false} NotBelow(stem: string, n: nat, k: nat)
    requires n <= k
    ensures AliasAt(stem, k) !in AliasesBelow(stem, n)
  {
    if n > 0 {
      NotBelow(stem, n - 1, k);
      AliasInjective(stem, n - 1, k);
    }
  }

  lemma {:induction false} BelowIn(stem: string, n: nat, taken: set<string>)
    requires forall j :: 0 <= j < n ==> AliasAt(stem, j) in taken
    ensures AliasesBelow(stem, n) <= taken
  {
    if n > 0 {
      BelowIn(stem, n - 1, taken);
    }
  }

  /** The least suffix from `i` on whose candidate is not taken. */
  function LeastFreeFrom(taken: set<string>, stem: string, i: nat): (k: nat)
    requires forall j :: 0 <= j < i ==> AliasAt(stem, j) in taken
    ensures i <= k && AliasAt(stem, k) !in taken
    ensures forall j :: 0 <= j < k ==> AliasAt(stem, j) in taken
    decreases taken - AliasesBelow(stem, i)
  {
    if AliasAt(stem, i) in taken then
      BelowIn(stem, i, taken);
      NotBelow(stem, i, i);
      assert AliasesBelow(stem, i + 1) == AliasesBelow(stem, i) + {AliasAt(stem, i)};
      LeastFreeFrom(taken, stem, i + 1)
    else
      i
  }

  /** The suffix `#add` chooses: the least one whose candidate is unused. */
  function FreshIndex(taken: set<string>, stem: string): nat {
    LeastFreeFrom(taken, stem, 0)
  }

  /** The alias `#add` returns for `content` when `taken` are the keys already in its map. */
  function NextAlias(taken: set<string>, prefix: string, content: Term): string {
    var stem := Stem(prefix, content);
    AliasAt(stem, FreshIndex(taken, stem))
  }

  /**
   * The suffix is the least unused index: a suffix whose candidate is free
   * while every smaller one is taken is the one chosen.
   */
  lemma FreshIndexIsLeastUnused(taken: set<string>, stem: string, k: nat)
    ensures FreshIndex(taken, stem) == k <==>
      (AliasAt(stem, k) !in taken && forall j :: 0 <= j < k ==> AliasAt(stem, j) in taken)
  {
    var f := FreshIndex(taken, stem);
    assert AliasAt(stem, f) !in taken;
  }

  // ---------------------------------------------------------------------------
  // The two alias maps as a value

  /** The builder's two maps: names under `#` aliases and values under `:` aliases. */
  datatype Aliases = Aliases(names: map<string, Term>, values: map<string, Term>) {

    /** `addName`: a fresh `#` alias mapped to `content`; the value map is untouched. */
    function AddName(content: Term): (r: (string, Aliases))
      ensures r.0 !in names && r.0 == AliasAt(Stem("#", content), FreshIndex(names.Keys, Stem("#", content)))
      ensures r.1.names == names[r.0 := content] && r.1.values == values
    {
      var a := NextAlias(names.Keys, "#", content);
      (a, this.(names := names[a := content]))
    }

    /** `addValue`: a fresh `:` alias mapped to `content`; the name map is untouched. */
    function AddValue(content: Term): (r: (string, Aliases))
      ensures r.0 !in values && r.0 == AliasAt(Stem(":", content), FreshIndex(values.Keys, Stem(":", content)))
      ensures r.1.values == values[r.0 := content] && r.1.names == names
    {
      var a := NextAlias(values.Keys, ":", content);
      (a, this.(values := values[a := content]))
    }
  }

  const NoAliases: Aliases := Aliases(map[], map[])

  /** `a` is one of the candidate aliases of `content` under `prefix`. */
  ghost predicate IsAliasOf(prefix: string, a: string, content: Term) {
    exists i: nat :: a == AliasAt(Stem(prefix, content), i)
  }

  /** Every key of either map is an alias of the content it maps to. */
  ghost predicate WellFormed(st: Aliases) {
    && (forall a :: a in st.names ==> IsAliasOf("#", a, st.names[a]))
    && (forall a :: a in st.values ==> IsAliasOf(":", a, st.values[a]))
  }

  lemma AddKeepsWellFormed(st: Aliases, content: Term)
    requires WellFormed(st)
    ensures WellFormed(st.AddName(content).1) && WellFormed(st.AddValue(content).1)
  {
    var (n, st1) := st.AddName(content);
    assert n == AliasAt(Stem("#", content), FreshIndex(st.names.Keys, Stem("#", content)));
    var (v, st2) := st.AddValue(content);
    assert v == AliasAt(Stem(":", content), FreshIndex(st.values.Keys, Stem(":", content)));
  }

  /** On an empty builder, both kinds of alias take the suffix `_0`. */
  lemma FirstAliasesOfEmptyBuilder(content: Term)
    ensures NoAliases.AddName(content).0 == "#" + Body(Text(content)) + "_0"
    ensures NoAliases.AddValue(content).0 == ":" + Body(Text(content)) + "_0"
  {
  }

  /** Adding the same name `n` times: `n` aliases, and the value map is untouched. */
  function AddNameTimes(st: Aliases, content: Term, n: nat): (r: (seq<string>, Aliases))
    ensures |r.0| == n && r.1.values == st.values
  {
    if n == 0 then ([], st)
    else
      var (prev, st1) := AddNameTimes(st, content, n - 1);
      var (a, st2) := st1.AddName(content);
      (prev + [a], st2)
  }

  /**
   * Repeatedly adding the same content to a map that holds none of its
   * candidates yields the suffixes `_0`, `_1`, ... in order, and the name map
   * then holds exactly the first `n` candidates.
   */
  lemma {:induction false} RepeatedNamesCountUp(st: Aliases, content: Term, n: nat)
    requires forall i: nat :: AliasAt(Stem("#", content), i) !in st.names
    ensures forall i :: 0 <= i < n ==> AddNameTimes(st, content, n).0[i] == AliasAt(Stem("#", content), i)
    ensures forall i: nat :: AliasAt(Stem("#", content), i) in AddNameTimes(st, content, n).1.names <==> i < n
  {
    var stem := Stem("#", content);
    if n > 0 {
      RepeatedNamesCountUp(st, content, n - 1);
      var st1 := AddNameTimes(st, content, n - 1).1;
      FreshIndexIsLeastUnused(st1.names.Keys, stem, n - 1);
      var st2 := st1.AddName(content).1;
      assert st1.AddName(content).0 == AliasAt(stem, n - 1);
      forall i: nat ensures AliasAt(stem, i) in st2.names <==> i < n {
        AliasInjective(stem, i, n - 1);
      }
    }
  }

  // ---------------------------------------------------------------------------
  // The builder object

  class ExpressionBuilder {
    var names: map<string, Term>
    var values: map<string, Term>

    function State(): Aliases
      reads this
    {
      Aliases(names, values)
    }

    ghost predicate Valid()
      reads this
    {
      WellFormed(State())
    }

    constructor ()
      ensures Valid() && names == map[] && values == map[]
    {
      names := map[];
      values := map[];
    }

    /**
     * The alias search of `#add`: sanitise the content's text, then try the
     * suffixes 0, 1, ... until the candidate is not among `taken`.
     */
    static method FreshAlias(content: Term, taken: set<string>, prefix: string) returns (alias: string)
      requires content != Undef
      ensures alias == NextAlias(taken, prefix, content)
      ensures alias !in taken
    {
      var stem := prefix + Body(Text(content));
      var i := 0;
      while AliasAt(stem, i) in taken
        invariant forall j :: 0 <= j < i ==> AliasAt(stem, j) in taken
        invariant LeastFreeFrom(taken, stem, i) == FreshIndex(taken, stem)
        decreases taken - AliasesBelow(stem, i)
      {
        BelowIn(stem, i, taken);
        NotBelow(stem, i, i);
        assert AliasesBelow(stem, i + 1) == AliasesBelow(stem, i) + {AliasAt(stem, i)};
        i := i + 1;
      }
      alias := AliasAt(stem, i);
    }

    /** `addName`: a fresh `#` alias for `name`, recorded in the name map. */
    method AddName(name: Term) returns (alias: string)
      requires Valid() && name != Undef
      modifies this
      ensures Valid()
      ensures (alias, State()) == old(State()).AddName(name)
      ensures alias !in old(names) && names == old(names)[alias := name] && values == old(values)
    {
      AddKeepsWellFormed(State(), name);
      alias := FreshAlias(name, names.Keys, "#");
      names := names[alias := name];
    }

    /** `addValue`: a fresh `:` alias for `value`, recorded in the value map. */
    method AddValue(value: Term) returns (alias: string)
      requires Valid() && value != Undef
      modifies this
      ensures Valid()
      ensures (alias, State()) == old(State()).AddValue(value)
      ensures alias !in old(values) && values == old(values)[alias := value] && names == old(names)
    {
      AddKeepsWellFormed(State(), value);
      alias := FreshAlias(value, values.Keys, ":");
      values := values[alias := value];
    }

    /** The `attributeNames` getter: every entry maps a `#` alias to the content it was made from. */
    function AttributeNames(): (m: map<string, Term>)
      reads this
      requires Valid()
      ensures forall a :: a in m ==> IsAliasOf("#", a, m[a])
    {
      names
    }

    /** The `attributeValues` getter: every entry maps a `:` alias to the content it was made from. */
    function AttributeValues(): (m: map<string, Term>)
      reads this
      requires Valid()
      ensures forall a :: a in m ==> IsAliasOf(":", a, m[a])
    {
      values
    }
  }
}
