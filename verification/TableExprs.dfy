/** FROM clauses and the tables in them (encryptor/utils.go); identifiers are canonical names. */
module TableExprs {
  import opened Outcomes

  datatype SimpleTable = TableName(name: string) | Subquery(select: SelectStatement)

  datatype TableExpr = Aliased(expr: SimpleTable, alias: string)
                     | Join(left: TableExpr, right: TableExpr)
                     | Paren(exprs: seq<TableExpr>)

  datatype SelectStatement = Select(exprs: seq<SelectExpr>, from: seq<TableExpr>)
                           | Union(first: SelectStatement, second: SelectStatement)
                           | ParenSelect(inner: SelectStatement)

  /** A result column; empty strings are absent qualifiers and aliases. */
  datatype SelectExpr = Star(table: string) | AliasedExpr(expr: Expr, alias: string)

  datatype Expr = ColName(qualifier: string, name: string) | Scalar(select: SelectStatement) | OtherExpr

  datatype ResolveError = NotFound | NotSupported | EmptyTableExprs | Ambiguous | NotMatched | Unsupported

  /** Every table named anywhere below. */
  function BaseTables(e: TableExpr): set<string> {
    match e
    case Aliased(TableName(name), _) => {name}
    case Aliased(Subquery(select), _) => BaseTablesOfSelect(select)
    case Join(left, right) => BaseTables(left) + BaseTables(right)
    case Paren(exprs) => BaseTablesOfAll(exprs)
  }

  function BaseTablesOfAll(exprs: seq<TableExpr>): set<string> {
    set i, t | 0 <= i < |exprs| && t in BaseTables(exprs[i]) :: t
  }

  function BaseTablesOfSelect(s: SelectStatement): set<string> {
    match s
    case Select(_, from) => BaseTablesOfAll(from)
    case Union(first, second) => BaseTablesOfSelect(first) + BaseTablesOfSelect(second)
    case ParenSelect(inner) => BaseTablesOfSelect(inner)
  }

  /** getNonAliasedName. */
  function NonAliasedName(e: TableExpr): Option<string> {
    if e.Aliased? && e.alias == "" && e.expr.TableName? then Some(e.expr.name) else None
  }

  /** getJoinFirstTableWithoutAlias. */
  function JoinFirstTable(e: TableExpr): (r: Option<string>)
    requires e.Join?
    ensures r.Some? ==> r.value in BaseTables(e)
  {
    match e.left
    case Aliased(_, _) => NonAliasedName(e.left)
    case Join(_, _) => JoinFirstTable(e.left)
    case Paren(_) => None
  }

  /** The leftmost table expression of a chain of joins. */
  function Leftmost(e: TableExpr): TableExpr { if e.Join? then Leftmost(e.left) else e }

  lemma {:induction false} JoinFirstExact(e: TableExpr)
    requires e.Join?
    ensures match Leftmost(e)
            case Aliased(TableName(name), alias) => JoinFirstTable(e) == if alias == "" then Some(name) else None
            case _ => JoinFirstTable(e) == None
    decreases e
  {
    assert Leftmost(e) == Leftmost(e.left);
    if e.left.Join? { JoinFirstExact(e.left); }
  }

  /** The one table without an alias, if there is exactly one. */
  function OnlyPlainTable(exprs: seq<TableExpr>): (r: Result<Option<string>, ResolveError>)
    ensures r.Ok? && r.value.Some? ==> r.value.value in BaseTablesOfAll(exprs)
  {
    if exprs == [] then Ok(None)
    else
      var n := |exprs| - 1;
      var earlier := OnlyPlainTable(exprs[..n]);
      assert BaseTables(exprs[n]) <= BaseTablesOfAll(exprs) && BaseTablesOfAll(exprs[..n]) <= BaseTablesOfAll(exprs);
      var name := NonAliasedName(exprs[n]);
      if earlier.Err? || name.None? then earlier
      else if earlier.value.Some? then Err(Ambiguous)
      else Ok(name)
  }

  /** getFirstTableWithoutAlias. */
  method GetFirstTableWithoutAlias(from: seq<TableExpr>) returns (r: Result<string, ResolveError>)
    ensures r == FirstTableWithoutAlias(from)
  {
    if from == [] { return Err(EmptyTableExprs); }
    if from[0].Join? {
      var name := JoinFirstTable(from[0]);
      return if name.Some? then Ok(name.value) else Err(NotFound);
    }
    var name: Option<string> := None;
    for k := 0 to |from|
      invariant OnlyPlainTable(from[..k]) == Ok(name)
    {
      assert from[..k + 1][..k] == from[..k];
      var tName := NonAliasedName(from[k]);
      if tName.Some? {
        if name.Some? {
          AmbiguousStays(from, k + 1);
          return Err(Ambiguous);
        }
        name := tName;
      }
    }
    assert from[..|from|] == from;
    r := if name.Some? then Ok(name.value) else Err(NotFound);
  }

  function FirstTableWithoutAlias(from: seq<TableExpr>): (r: Result<string, ResolveError>)
    ensures r.Ok? ==> r.value in BaseTablesOfAll(from)
  {
    if from == [] then Err(EmptyTableExprs)
    else if from[0].Join? then
      assert BaseTables(from[0]) <= BaseTablesOfAll(from);
      (match JoinFirstTable(from[0]) case Some(name) => Ok(name) case None => Err(NotFound))
    else
      match OnlyPlainTable(from) case Err(e) => Err(e) case Ok(None) => Err(NotFound) case Ok(Some(name)) => Ok(name)
  }

  lemma {:induction false} AmbiguousStays(exprs: seq<TableExpr>, k: nat)
    requires k <= |exprs| && OnlyPlainTable(exprs[..k]).Err?
    ensures OnlyPlainTable(exprs) == OnlyPlainTable(exprs[..k])
    decreases |exprs|
  {
    if k == |exprs| {
      assert exprs[..k] == exprs;
    } else {
      var n := |exprs| - 1;
      assert exprs[..n][..k] == exprs[..k];
      AmbiguousStays(exprs[..n], k);
    }
  }
}
