/** The operator table and the default composite-key separator. */
module Constants {
  import opened Wrappers

  /**
   * `OPTIMUS_OPERATORS[key]`: the expression operator for one of the
   * library's operator words, or `undefined` for any other key that is not
   * inherited from `Object.prototype`.
   */
  function OptimusOperator(key: string): Option<string> {
    if key == "=" then Some("=")
    else if key == "<" then Some("<")
    else if key == ">" then Some(">")
    else if key == "<=" then Some("<=")
    else if key == ">=" then Some(">=")
    else if key == "<>" then Some("<>")
    else if key == "!=" then Some("<>")
    else if key == "begins with" then Some("begins_with")
    else if key == "between" then Some("BETWEEN")
    else if key == "and" then Some("AND")
    else if key == "or" then Some("OR")
    else if key == "contains" then Some("contains")
    else if key == "in" then Some("IN")
    else None
  }

  /** The keys of the operator table. */
  const OperatorKeys: set<string> :=
    {"=", "<", ">", "<=", ">=", "<>", "!=", "begins with", "between", "and", "or", "contains", "in"}

  const DefaultRelationshipCompositeKeySeparator: string := "."

  /** The table is defined exactly on its thirteen keys. */
  lemma OperatorTableDomain(key: string)
    ensures OptimusOperator(key).Some? <==> key in OperatorKeys
  {
  }

  /** The comparison operators map to themselves. */
  lemma ComparisonsMapToThemselves(key: string)
    requires key in {"=", "<", ">", "<=", ">="}
    ensures OptimusOperator(key) == Some(key)
  {
  }

  /** Both spellings of inequality map to `<>`. */
  lemma InequalitySpellings()
    ensures OptimusOperator("!=") == Some("<>") && OptimusOperator("<>") == Some("<>")
  {
  }

  /** The word operators map to the expression language's function names and keywords. */
  lemma WordOperators()
    ensures OptimusOperator("begins with") == Some("begins_with")
    ensures OptimusOperator("contains") == Some("contains")
    ensures OptimusOperator("between") == Some("BETWEEN")
    ensures OptimusOperator("and") == Some("AND")
    ensures OptimusOperator("or") == Some("OR")
    ensures OptimusOperator("in") == Some("IN")
  {
  }

  /** `!=` and `<>` are the only two keys that share an operator. */
  lemma OperatorTableInjectiveUpToInequality(a: string, b: string)
    requires OptimusOperator(a).Some? && OptimusOperator(a) == OptimusOperator(b)
    ensures a == b || (a in {"!=", "<>"} && b in {"!=", "<>"})
  {
  }
}
