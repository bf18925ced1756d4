/** The backend-agnostic database expression tree that SQL generation renders. */
module DbExpressions {
  import opened Wrappers
  import opened LinqExpressions

  datatype DbTable = DbTable(name: string)

  datatype DbColumn = DbColumn(name: string, columnType: ClrType)

  datatype DbExpr =
    | DbColumnAccess(table: DbTable, column: DbColumn)
    | DbParameter(value: Value, parameterType: ClrType)
    | DbEqual(left: DbExpr, right: DbExpr)
    | DbAnd(left: DbExpr, right: DbExpr)

  /**
    The accumulation `cond = cond == null ? e : DbExpression.And(cond, e)` over
    `terms` in order, starting from null.
   */
  function FoldDbAnd(terms: seq<DbExpr>): (r: Option<DbExpr>)
    ensures r.None? <==> terms == []
    decreases |terms|
  {
    if terms == [] then None
    else
      var last := terms[|terms| - 1];
      match FoldDbAnd(terms[..|terms| - 1])
      case None => Some(last)
      case Some(acc) => Some(DbAnd(acc, last))
  }

  /** The terms along the left spine of a conjunction, left to right. */
  function DbConjuncts(e: DbExpr): (r: seq<DbExpr>)
    ensures r != []
  {
    match e
    case DbAnd(l, r) => DbConjuncts(l) + [r]
    case _ => [e]
  }

  lemma {:induction false} DbConjunctsOfFoldDbAnd(terms: seq<DbExpr>)
    requires terms != []
    requires forall k :: 0 <= k < |terms| ==> !terms[k].DbAnd?
    ensures DbConjuncts(FoldDbAnd(terms).value) == terms
  {
    var n := |terms|;
    var init := terms[..n - 1];
    if init != [] {
      DbConjunctsOfFoldDbAnd(init);
      assert init + [terms[n - 1]] == terms;
    }
  }

  lemma {:induction false} FoldDbAndUnique(e: DbExpr, terms: seq<DbExpr>)
    requires forall k :: 0 <= k < |terms| ==> !terms[k].DbAnd?
    requires DbConjuncts(e) == terms
    ensures FoldDbAnd(terms) == Some(e)
  {
    match e
    case DbAnd(l, r) =>
      var init := terms[..|terms| - 1];
      assert DbConjuncts(l) == init;
      FoldDbAndUnique(l, init);
    case _ =>
  }
}
