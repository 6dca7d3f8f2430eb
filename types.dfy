/**
 * The run-time part of the library's type declarations: relationship types
 * and their flip, foreign-key plurality, the error classes with their names
 * and messages, and the condition tuple types, stated as predicates on
 * condition arrays together with what the compiler does with each of them.
 */
module Types {
  import opened Wrappers
  import opened JsValues
  import opened Constants
  import opened ExpressionBuilding
  import opened Utilities

  // ---------------------------------------------------------------------------
  // Relationship types

  /** `TableRelationshipType`. */
  datatype RelationshipType = OneToOne | OneToMany | ManyToOne | ManyToMany

  /** The enum member's string value. */
  function TypeName(t: RelationshipType): string {
    match t
    case OneToOne => "ONE_TO_ONE"
    case OneToMany => "ONE_TO_MANY"
    case ManyToOne => "MANY_TO_ONE"
    case ManyToMany => "MANY_TO_MANY"
  }

  lemma TypeNameInjective(a: RelationshipType, b: RelationshipType)
    ensures TypeName(a) == TypeName(b) <==> a == b
  {
  }

  /** `FlipTableRelationshipType`: the relationship as the peer table sees it. */
  function Flip(t: RelationshipType): RelationshipType {
    match t
    case OneToMany => ManyToOne
    case ManyToOne => OneToMany
    case _ => t
  }

  /** Flipping twice gives back the original type. */
  lemma FlipInvolution(t: RelationshipType)
    ensures Flip(Flip(t)) == t
  {
  }

  /** Only the one-to-one and many-to-many relationships look the same from both sides. */
  lemma FlipFixedPoints(t: RelationshipType)
    ensures Flip(t) == t <==> (t == OneToOne || t == ManyToMany)
    ensures Flip(t) != t ==> {t, Flip(t)} == {OneToMany, ManyToOne}
  {
  }

  /** `TableRelationshipForeignKeyPlurality`: one- and many-to-one sides hold a single foreign key. */
  predicate SingleForeignKey(t: RelationshipType) {
    t == OneToOne || t == ManyToOne
  }

  /** The foreign key(s) an item of one side holds. */
  datatype ForeignKeys = Single(key: Term) | Plural(keys: seq<Term>)

  predicate FitsPlurality(t: RelationshipType, fk: ForeignKeys) {
    fk.Single? <==> SingleForeignKey(t)
  }

  /**
   * Each side's plurality as the enum's documentation describes it: in a
   * one-to-many relationship this side holds an array and the peer side a
   * single key, the reverse for many-to-one, and both sides agree for the
   * symmetric types.
   */
  lemma PeerPlurality(t: RelationshipType)
    ensures SingleForeignKey(t) <==> (t == OneToOne || t == ManyToOne)
    ensures SingleForeignKey(Flip(t)) <==> (t == OneToOne || t == OneToMany)
    ensures (t == OneToOne || t == ManyToMany) ==> (SingleForeignKey(t) <==> SingleForeignKey(Flip(t)))
  {
  }

  // ---------------------------------------------------------------------------
  // Errors

  /** `UnprocessedKeysError`: note its `name` is "ItemNotFoundError". */
  function UnprocessedKeysError(count: nat): (e: JsError)
    ensures e.Named? && e.name == "ItemNotFoundError"
  {
    Named("ItemNotFoundError", "Error processing " + NatText(count) + " keys.")
  }

  /** The unprocessed-keys message determines the number of keys. */
  lemma UnprocessedKeysMessageDeterminesCount(a: nat, b: nat)
    ensures UnprocessedKeysError(a) == UnprocessedKeysError(b) <==> a == b
  {
    if UnprocessedKeysError(a) == UnprocessedKeysError(b) {
      var p := "Error processing ";
      var ma := p + NatText(a) + " keys.";
      var mb := p + NatText(b) + " keys.";
      assert ma == mb;
      assert |NatText(a)| == |NatText(b)|;
      assert ma[|p|..|ma| - 6] == NatText(a);
      assert mb[|p|..|mb| - 6] == NatText(b);
      NatTextInjective(a, b);
    }
  }

  /**
   * `throw new ItemNotFoundError(params)`: reading `params.itemKeys.length`
   * throws a TypeError first when the keys are missing.
   */
  function ItemNotFoundFrom(params: Term): (e: JsError)
    ensures e.ItemNotFound? <==> params.Obj? && Get(params.fields, "itemKeys") != Undef
    ensures e.ItemNotFound? ==> e.itemKeys == Get(params.fields, "itemKeys")
    ensures !e.ItemNotFound? ==> e == EngineTypeError
  {
    if params.Obj? && Get(params.fields, "itemKeys") != Undef then ItemNotFound(Get(params.fields, "itemKeys"))
    else EngineTypeError
  }

  const OptimisticLockError: JsError := Named("OptimisticLockError", "Optimistic lock error.")

  const InvalidResumeKeyError: JsError := Named("InvalidResumeKeyError", "Invalid resumeKey.")

  const TableRelationshipAlreadyExistsError: JsError :=
    Named("TableRelationshipAlreadyExistsError", "The Table relationship already exists.")

  function ItemWithoutVersionError(message: string): JsError {
    Named("ItemWithoutVersionError", message)
  }

  /**
   * `TableRelationshipViolationError`'s message for the two tables' names;
   * `itemText` stands for `JSON.stringify(item)`.
   */
  function ViolationMessage(t: RelationshipType, tableA: string, tableB: string, itemText: string): (m: string)
    ensures m == "Item violates " + TypeName(t) + " relationship between " + tableA + " and " + tableB + ": " + itemText
  {
    assert [tableA, tableB][1..] == [tableB];
    assert Join(" and ", [tableA, tableB]) == tableA + " and " + tableB;
    var prefix := "Item violates " + TypeName(t) + " relationship between ";
    assert prefix + (tableA + " and " + tableB) == prefix + tableA + " and " + tableB;
    "Item violates " + TypeName(t) + " relationship between " + Join(" and ", [tableA, tableB]) + ": " + itemText
  }

  function TableRelationshipViolationError(t: RelationshipType, tableA: string, tableB: string, itemText: string): JsError {
    Named("TableRelationshipViolationError", ViolationMessage(t, tableA, tableB, itemText))
  }

  /** The library's error names are distinct, except that unprocessed keys reuse "ItemNotFoundError". */
  lemma ErrorNamesDistinct(count: nat, message: string)
    ensures OptimisticLockError != InvalidResumeKeyError
    ensures OptimisticLockError.name != TableRelationshipAlreadyExistsError.name
    ensures ItemWithoutVersionError(message).name != TableRelationshipAlreadyExistsError.name
    ensures UnprocessedKeysError(count).name != TableRelationshipAlreadyExistsError.name
  {
  }

  // ---------------------------------------------------------------------------
  // Condition tuple types

  /** The type of an attribute as far as the condition types distinguish it. */
  datatype AttType = StringType | NumberType | ArrayType | OtherType

  predicate OfType(v: Term, t: AttType) {
    match t
    case StringType => v.Str?
    case NumberType => v.Int?
    case ArrayType => v.Arr?
    case OtherType => v.Bool? || v.Obj?
  }

  predicate IsOp(v: Term, ops: set<string>) {
    v.Str? && v.s in ops
  }

  const Comparisons: set<string> := {"=", "<", ">", "<=", ">="}

  /** `[L, "between", R, "and", R]`. */
  predicate Between(c: seq<Term>, t: AttType) {
    |c| == 5 && c[0].Str? && c[1] == Str("between") && OfType(c[2], t) && c[3] == Str("and") && OfType(c[4], t)
  }

  /** `[L, "in", Array<R>]`. */
  predicate InList(c: seq<Term>, t: AttType) {
    |c| == 3 && c[0].Str? && c[1] == Str("in") && c[2].Arr?
    && forall i :: 0 <= i < |c[2].elems| ==> OfType(c[2].elems[i], t)
  }

  /** `PartitionKeyCondition`: only equality. */
  predicate PartitionKeyCondition(c: seq<Term>, t: AttType) {
    |c| == 3 && c[0].Str? && c[1] == Str("=") && OfType(c[2], t)
  }

  /** The sort-key operators: string keys also admit `begins with`. */
  function SortKeyOperators(t: AttType): set<string> {
    if t == StringType then Comparisons + {"begins with"} else Comparisons
  }

  /** `SortKeyCondition`. */
  predicate SortKeyCondition(c: seq<Term>, t: AttType) {
    (|c| == 3 && c[0].Str? && IsOp(c[1], SortKeyOperators(t)) && OfType(c[2], t)) || Between(c, t)
  }

  /** The binary operators a filter leaf admits for an attribute of type `t`. */
  function FilterOperators(t: AttType): set<string> {
    match t
    case StringType => Comparisons + {"<>", "!=", "begins with", "contains"}
    case NumberType => Comparisons + {"<>", "!="}
    case ArrayType => {"contains"}
    case OtherType => {"="}
  }

  /** `FilterConditionLeaf`: unary, or typed by the attribute; an array attribute's `contains` takes any operand. */
  predicate FilterLeaf(c: seq<Term>, t: AttType) {
    || (|c| == 2 && c[0].Str? && IsOp(c[1], {"exists", "doesn't exist"}))
    || (|c| == 3 && c[0].Str? && IsOp(c[1], FilterOperators(t)) && (t == ArrayType || OfType(c[2], t)))
    || ((t == StringType || t == NumberType) && (Between(c, t) || InList(c, t)))
  }

  /**
   * `FilterCondition` over an item whose attribute types are `env`: a leaf
   * on one of its attributes, a binary `or`/`and` node, or a singleton grouping.
   */
  predicate FilterCondition(env: map<string, AttType>, c: seq<Term>)
    decreases Arr(c)
  {
    || (|c| >= 2 && c[0].Str? && c[0].s in env && FilterLeaf(c, env[c[0].s]))
    || (|c| == 3 && c[0].Arr? && IsOp(c[1], {"or", "and"}) && c[2].Arr?
        && FilterCondition(env, c[0].elems) && FilterCondition(env, c[2].elems))
    || (|c| == 1 && c[0].Arr? && FilterCondition(env, c[0].elems))
  }

  /** Every operator a typed condition uses in a three- or five-element form has an entry in the operator table. */
  lemma TypedOperatorsRender(c: seq<Term>, t: AttType)
    requires PartitionKeyCondition(c, t) || SortKeyCondition(c, t) || (FilterLeaf(c, t) && |c| >= 3)
    ensures OptimusOperator(Text(c[1])).Some?
    ensures |c| == 5 ==> OptimusOperator(Text(c[3])) == Some("AND")
  {
    OperatorTableDomain(Text(c[1]));
  }

  /** Key conditions always compile: partition first `#k = :v`, sort keys in any of their forms. */
  lemma KeyConditionsCompile(st: Aliases, c: seq<Term>, t: AttType)
    requires PartitionKeyCondition(c, t) || SortKeyCondition(c, t)
    ensures Compile(st, c).0.Success?
    ensures PartitionKeyCondition(c, t) ==>
      Compile(st, c).0.value == st.AddName(c[0]).0 + " = " + st.AddName(c[0]).1.AddValue(c[2]).0
  {
    CompileFails(st, c);
    if PartitionKeyCondition(c, t) {
      PartitionKeyText(st, c, t);
    }
  }

  lemma PartitionKeyText(st: Aliases, c: seq<Term>, t: AttType)
    requires PartitionKeyCondition(c, t)
    ensures Compile(st, c).0 == Success(st.AddName(c[0]).0 + " = " + st.AddName(c[0]).1.AddValue(c[2]).0)
  {
    assert ShapeOf(c) == TripleShape && Compilable(c);
    CompileTriple(st, c);
    assert OperatorText(c[1]) == "=";
    var (n, st1) := st.AddName(c[0]);
    var v := st1.AddValue(c[2]).0;
    assert n + " " + "=" + " " + v == n + " = " + v;
  }

  /**
   * A well-typed filter condition compiles unless it is a grouping, which has
   * no case in the compiler, or an array `contains` whose operand is
   * `undefined`; `or`/`and` nodes go through the three-element case.
   */
  lemma FilterConditionOutcome(env: map<string, AttType>, st: Aliases, c: seq<Term>)
    requires FilterCondition(env, c)
    ensures Compile(st, c).0.Failure? <==> |c| == 1 || (|c| == 3 && c[1] == Str("contains") && c[2] == Undef)
    ensures |c| == 1 ==> Compile(st, c).0 == Failure(UnexpectedCondition(c))
    ensures |c| == 3 && c[0].Arr? ==> ShapeOf(c) == TripleShape
  {
    CompileFails(st, c);
    FilterCompilable(env, c);
  }

  /** The filter conditions the compiler cannot handle: groupings, and an array `contains` of `undefined`. */
  lemma FilterCompilable(env: map<string, AttType>, c: seq<Term>)
    requires FilterCondition(env, c)
    ensures Compilable(c) <==> !(|c| == 1 || (|c| == 3 && c[1] == Str("contains") && c[2] == Undef))
  {
    if |c| >= 2 && c[0].Str? && c[0].s in env && FilterLeaf(c, env[c[0].s]) {
      LeafCompilable(c, env[c[0].s]);
    } else if |c| == 3 && c[0].Arr? && IsOp(c[1], {"or", "and"}) && c[2].Arr? {
      assert ShapeOf(c) == TripleShape;
    } else {
      assert |c| == 1 && ShapeOf(c) == UnknownShape;
    }
  }

  /** A typed leaf compiles unless it is an array `contains` of `undefined`. */
  lemma LeafCompilable(c: seq<Term>, t: AttType)
    requires FilterLeaf(c, t)
    ensures Compilable(c) <==> !(|c| == 3 && c[1] == Str("contains") && c[2] == Undef)
  {
    if |c| == 2 {
      assert ShapeOf(c) == UnaryShape;
    } else if |c| == 3 && c[0].Str? && IsOp(c[1], FilterOperators(t)) && (t == ArrayType || OfType(c[2], t)) {
      assert ShapeOf(c) == TripleShape;
      assert c[2] == Undef ==> t == ArrayType && c[1] == Str("contains");
    } else if Between(c, t) {
      assert ShapeOf(c) == QuintupleShape;
    } else {
      assert InList(c, t) && ShapeOf(c) == InShape;
    }
  }
}
