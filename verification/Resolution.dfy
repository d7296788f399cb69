/** Finding the table that a column comes from (findTableName in encryptor/utils.go). */
module Resolution {
  import opened Outcomes
  import opened TableExprs

  /** A column of a table; the alias is filled in by the caller. */
  datatype ColumnInfo = ColumnInfo(name: string, table: string, alias: string)

  type Resolved = Result<ColumnInfo, ResolveError>

  /** findTableName on a list of tables: the first success. */
  function FindInExprs(alias: string, column: string, exprs: seq<TableExpr>): Resolved
    decreases exprs, 0
  {
    if exprs == [] then Err(NotFound)
    else
      var r := FindInExpr(alias, column, exprs[0]);
      if r.Ok? then r else FindInExprs(alias, column, exprs[1..])
  }

  /** findTableName on one table expression. */
  function FindInExpr(alias: string, column: string, e: TableExpr): Resolved
    decreases e, 0
  {
    match e
    case Aliased(expr, as_) =>
      if as_ == "" then FindInSimple(alias, column, expr)
      else if as_ != alias then Err(NotFound)
      else FindInSimple(if expr.TableName? then expr.name else "", column, expr)
    case Join(left, right) =>
      var r := FindInExpr(alias, column, left);
      if r == Err(NotFound) then FindInExpr(alias, column, right) else r
    case Paren(exprs) => FindInExprs(alias, column, exprs)
  }

  function FindInSimple(alias: string, column: string, e: SimpleTable): Resolved
    decreases e, 0
  {
    match e
    case TableName(name) => if alias == name then Ok(ColumnInfo(column, alias, "")) else Err(NotFound)
    case Subquery(select) => FindInSelect(alias, column, select)
  }

  function FindInSelect(alias: string, column: string, s: SelectStatement): Resolved
    decreases s, 0
  {
    match s
    case Select(exprs, from) => FindAmong(alias, column, exprs, from)
    case Union(_, _) => Err(NotSupported)
    case ParenSelect(inner) => FindInSelect(alias, column, inner)
  }

  /** The loop over the result columns of a subquery. */
  function FindAmong(alias: string, column: string, exprs: seq<SelectExpr>, from: seq<TableExpr>): Resolved
    decreases from, |exprs|
  {
    if exprs == [] then Err(NotFound)
    else
      var rest := FindAmong(alias, column, exprs[1..], from);
      match exprs[0]
      case AliasedExpr(ColName(qualifier, name), as_) =>
        if as_ == "" then
          if name != column then rest
          else if qualifier != "" then FindInExprs(qualifier, name, from)
          else (match FirstTableWithoutAlias(from) case Ok(t) => Ok(ColumnInfo(column, t, "")) case Err(_) => rest)
        else if as_ == alias || (alias == "" && as_ == column) then
          if qualifier != "" then FindInExprs(qualifier, name, from)
          else (match FirstTableWithoutAlias(from) case Ok(t) => FindInExprs(t, name, from) case Err(e) => Err(e))
        else rest
      case _ => rest
  }

  // ---- soundness -------------------------------------------------------------------------------------------

  lemma {:induction false} FindInExprsSound(alias: string, column: string, exprs: seq<TableExpr>)
    ensures FindInExprs(alias, column, exprs).Ok? ==>
              FindInExprs(alias, column, exprs).value.table in BaseTablesOfAll(exprs)
    decreases exprs, 0
  {
    if exprs != [] {
      FindInExprSound(alias, column, exprs[0]);
      FindInExprsSound(alias, column, exprs[1..]);
      assert BaseTables(exprs[0]) <= BaseTablesOfAll(exprs) && BaseTablesOfAll(exprs[1..]) <= BaseTablesOfAll(exprs);
    }
  }

  /**
   Every table that findTableName names occurs in the FROM tree, through any nesting of aliases, joins, parentheses and
   subqueries.
   */
  lemma {:induction false} FindInExprSound(alias: string, column: string, e: TableExpr)
    ensures FindInExpr(alias, column, e).Ok? ==> FindInExpr(alias, column, e).value.table in BaseTables(e)
    decreases e, 0
  {
    match e
    case Aliased(TableName(_), _) =>
    case Aliased(Subquery(select), as_) =>
      FindInSelectSound(alias, column, select);
      FindInSelectSound("", column, select);
    case Join(left, right) =>
      FindInExprSound(alias, column, left);
      FindInExprSound(alias, column, right);
    case Paren(exprs) => FindInExprsSound(alias, column, exprs);
  }

  lemma {:induction false} FindInSelectSound(alias: string, column: string, s: SelectStatement)
    ensures FindInSelect(alias, column, s).Ok? ==> FindInSelect(alias, column, s).value.table in BaseTablesOfSelect(s)
    decreases s, 0
  {
    match s
    case Select(exprs, from) => FindAmongSound(alias, column, exprs, from);
    case Union(_, _) =>
    case ParenSelect(inner) => FindInSelectSound(alias, column, inner);
  }

  lemma {:induction false} FindAmongSound(alias: string, column: string, exprs: seq<SelectExpr>, from: seq<TableExpr>)
    ensures FindAmong(alias, column, exprs, from).Ok? ==>
              FindAmong(alias, column, exprs, from).value.table in BaseTablesOfAll(from)
    decreases from, |exprs|
  {
    if exprs != [] {
      FindAmongSound(alias, column, exprs[1..], from);
      if exprs[0].AliasedExpr? && exprs[0].expr.ColName? {
        FindInExprsSound(exprs[0].expr.qualifier, exprs[0].expr.name, from);
        var t := FirstTableWithoutAlias(from);
        if t.Ok? { FindInExprsSound(t.value, exprs[0].expr.name, from); }
      }
    }
  }

  // ---- exactness without subqueries ------------------------------------------------------------------------

  /** A visible table name and the table behind it. */
  datatype Binding = Binding(visible: string, table: string)

  predicate NoSubqueries(e: TableExpr) {
    match e
    case Aliased(expr, _) => expr.TableName?
    case Join(left, right) => NoSubqueries(left) && NoSubqueries(right)
    case Paren(exprs) => NoSubqueriesInAll(exprs)
  }

  predicate NoSubqueriesInAll(exprs: seq<TableExpr>) {
    exprs == [] || (NoSubqueries(exprs[0]) && NoSubqueriesInAll(exprs[1..]))
  }

  /** What the names of a FROM clause stand for, from left to right. */
  function Bindings(e: TableExpr): seq<Binding>
    requires NoSubqueries(e)
  {
    match e
    case Aliased(expr, as_) => [Binding(if as_ == "" then expr.name else as_, expr.name)]
    case Join(left, right) => Bindings(left) + Bindings(right)
    case Paren(exprs) => BindingsOfAll(exprs)
  }

  function BindingsOfAll(exprs: seq<TableExpr>): seq<Binding>
    requires NoSubqueriesInAll(exprs)
  {
    if exprs == [] then [] else Bindings(exprs[0]) + BindingsOfAll(exprs[1..])
  }

  /** The first binding of a name. */
  function Lookup(bs: seq<Binding>, alias: string, column: string): Resolved {
    if bs == [] then Err(NotFound)
    else if bs[0].visible == alias then Ok(ColumnInfo(column, bs[0].table, ""))
    else Lookup(bs[1..], alias, column)
  }

  lemma {:induction false} LookupAppend(a: seq<Binding>, b: seq<Binding>, alias: string, column: string)
    ensures Lookup(a + b, alias, column)
            == if Lookup(a, alias, column).Ok? then Lookup(a, alias, column) else Lookup(b, alias, column)
    ensures Lookup(a, alias, column).Err? ==> Lookup(a, alias, column) == Err(NotFound)
    decreases |a|
  {
    if a == [] {
      assert a + b == b;
    } else {
      assert (a + b)[1..] == a[1..] + b;
      LookupAppend(a[1..], b, alias, column);
    }
  }

  /** Without subqueries, findTableName finds the first table visible under the alias, and fails when there is none. */
  lemma {:induction false} FindInExprExact(alias: string, column: string, e: TableExpr)
    requires NoSubqueries(e)
    ensures FindInExpr(alias, column, e) == Lookup(Bindings(e), alias, column)
    decreases e
  {
    match e
    case Aliased(_, _) =>
    case Join(left, right) =>
      FindInExprExact(alias, column, left);
      FindInExprExact(alias, column, right);
      LookupAppend(Bindings(left), Bindings(right), alias, column);
    case Paren(exprs) => FindInExprsExact(alias, column, exprs);
  }

  lemma {:induction false} FindInExprsExact(alias: string, column: string, exprs: seq<TableExpr>)
    requires NoSubqueriesInAll(exprs)
    ensures FindInExprs(alias, column, exprs) == Lookup(BindingsOfAll(exprs), alias, column)
    decreases exprs
  {
    if exprs != [] {
      FindInExprExact(alias, column, exprs[0]);
      FindInExprsExact(alias, column, exprs[1..]);
      LookupAppend(Bindings(exprs[0]), BindingsOfAll(exprs[1..]), alias, column);
    }
  }

  // ---- exactness through subqueries ------------------------------------------------------------------------

  /** A column of a base table. */
  datatype Source = Source(table: string, column: string)

  /** A result column of a query and where its values come from. */
  datatype Output = Output(name: string, source: Option<Source>)

  /** What a name of a FROM clause stands for: a table with all its columns, or a query with its result columns. */
  datatype Relation = Base(table: string) | Query(outputs: seq<Output>)

  datatype Entry = Entry(visible: string, relation: Relation)

  /** Which columns the base tables have. */
  type Has = (string, string) -> bool

  /** Subqueries have an alias and clear columns, at every depth, and are no unions. */
  predicate Clear(has: Has, e: TableExpr)
    decreases e, 0
  {
    match e
    case Aliased(TableName(_), _) => true
    case Aliased(Subquery(select), alias) => alias != "" && ClearSelect(has, select)
    case Join(left, right) => Clear(has, left) && Clear(has, right)
    case Paren(exprs) => AllClear(has, exprs)
  }

  predicate AllClear(has: Has, exprs: seq<TableExpr>)
    decreases exprs, 0
  {
    exprs == [] || (Clear(has, exprs[0]) && AllClear(has, exprs[1..]))
  }

  predicate ClearSelect(has: Has, s: SelectStatement)
    decreases s, 0
  {
    match s
    case Select(exprs, from) => AllClear(has, from) && AllColumnsClear(has, exprs, from)
    case Union(_, _) => false
    case ParenSelect(inner) => ClearSelect(has, inner)
  }

  /** Every result column without a qualifier belongs to the table that getFirstTableWithoutAlias picks. */
  predicate AllColumnsClear(has: Has, exprs: seq<SelectExpr>, from: seq<TableExpr>)
    requires AllClear(has, from)
    decreases from, 3
  {
    forall i :: 0 <= i < |exprs| && Unqualified(exprs[i]) ==> PickedRight(has, from, exprs[i].expr.name)
  }

  predicate Unqualified(e: SelectExpr) {
    e.AliasedExpr? && e.expr.ColName? && e.expr.qualifier == ""
  }

  predicate PickedRight(has: Has, from: seq<TableExpr>, column: string)
    requires AllClear(has, from)
    decreases from, 2
  {
    && FirstTableWithoutAlias(from).Ok?
    && var table, scope := FirstTableWithoutAlias(from).value, ScopeOfAll(has, from);
       Owner(has, scope, column) == Some(Source(table, column)) == Resolve(scope, table, column)
  }

  /** The names of a FROM clause and what they stand for, from left to right. */
  function Scope(has: Has, e: TableExpr): seq<Entry>
    requires Clear(has, e)
    decreases e, 1
  {
    match e
    case Aliased(TableName(name), alias) => [Entry(if alias == "" then name else alias, Base(name))]
    case Aliased(Subquery(select), alias) => [Entry(alias, Query(Outputs(has, select)))]
    case Join(left, right) => Scope(has, left) + Scope(has, right)
    case Paren(exprs) => ScopeOfAll(has, exprs)
  }

  function ScopeOfAll(has: Has, exprs: seq<TableExpr>): seq<Entry>
    requires AllClear(has, exprs)
    decreases exprs, 1
  {
    if exprs == [] then [] else Scope(has, exprs[0]) + ScopeOfAll(has, exprs[1..])
  }

  /** The result columns of a query that are written out; a star adds none. */
  function Outputs(has: Has, s: SelectStatement): seq<Output>
    requires ClearSelect(has, s)
    decreases s, 1
  {
    match s
    case Select(exprs, from) => OutputsOf(has, exprs, from)
    case ParenSelect(inner) => Outputs(has, inner)
  }

  function OutputsOf(has: Has, exprs: seq<SelectExpr>, from: seq<TableExpr>): seq<Output>
    requires AllClear(has, from)
    decreases from, 2, |exprs|
  {
    if exprs == [] then []
    else
      var rest, scope := OutputsOf(has, exprs[1..], from), ScopeOfAll(has, from);
      match exprs[0]
      case AliasedExpr(ColName(qualifier, name), alias) =>
        [Output(if alias == "" then name else alias,
                if qualifier == "" then Owner(has, scope, name) else Resolve(scope, qualifier, name))] + rest
      case _ => rest
  }

  /** Where alias.column comes from: the first entry under the alias that has the column. */
  function Resolve(scope: seq<Entry>, alias: string, column: string): Option<Source> {
    if scope == [] then None
    else if scope[0].visible == alias && Provides(scope[0].relation, column).Some?
      then Provides(scope[0].relation, column)
    else Resolve(scope[1..], alias, column)
  }

  /** Where an unqualified column comes from: the first entry that really has it. */
  function Owner(has: Has, scope: seq<Entry>, column: string): Option<Source> {
    if scope == [] then None
    else
      var source := Provides(scope[0].relation, column);
      if source.Some? && (scope[0].relation.Base? ==> has(scope[0].relation.table, column)) then source
      else Owner(has, scope[1..], column)
  }

  function Provides(r: Relation, column: string): Option<Source> {
    match r
    case Base(table) => Some(Source(table, column))
    case Query(outputs) => FirstNamed(outputs, column)
  }

  function FirstNamed(outputs: seq<Output>, column: string): Option<Source> {
    if outputs == [] then None else if outputs[0].name == column then outputs[0].source
      else FirstNamed(outputs[1..], column)
  }

  function AsResolved(source: Option<Source>): Resolved {
    match source case Some(Source(table, column)) => Ok(ColumnInfo(column, table, "")) case None => Err(NotFound)
  }

  lemma {:induction false} ResolveAppend(a: seq<Entry>, b: seq<Entry>, alias: string, column: string)
    ensures Resolve(a + b, alias, column)
            == if Resolve(a, alias, column).Some? then Resolve(a, alias, column) else Resolve(b, alias, column)
    decreases |a|
  {
    if a == [] {
      assert a + b == b;
    } else {
      assert (a + b)[1..] == a[1..] + b;
      ResolveAppend(a[1..], b, alias, column);
    }
  }

  /**
   Through subqueries of any depth findTableName names the real source of the column: the base table and the column of
   it that the result column stands for. It fails exactly when there is none.
   */
  lemma {:induction false} FindInExprSource(has: Has, alias: string, column: string, e: TableExpr)
    requires Clear(has, e)
    ensures FindInExpr(alias, column, e) == AsResolved(Resolve(Scope(has, e), alias, column))
    decreases e, 0
  {
    match e
    case Aliased(TableName(_), _) =>
    case Aliased(Subquery(select), as_) =>
      FindInSelectSource(has, column, select);
      assert Scope(has, e)[1..] == [];
    case Join(left, right) =>
      FindInExprSource(has, alias, column, left);
      FindInExprSource(has, alias, column, right);
      ResolveAppend(Scope(has, left), Scope(has, right), alias, column);
    case Paren(exprs) => FindInExprsSource(has, alias, column, exprs);
  }

  lemma {:induction false} FindInExprsSource(has: Has, alias: string, column: string, exprs: seq<TableExpr>)
    requires AllClear(has, exprs)
    ensures FindInExprs(alias, column, exprs) == AsResolved(Resolve(ScopeOfAll(has, exprs), alias, column))
    decreases exprs, 0
  {
    if exprs != [] {
      FindInExprSource(has, alias, column, exprs[0]);
      FindInExprsSource(has, alias, column, exprs[1..]);
      ResolveAppend(Scope(has, exprs[0]), ScopeOfAll(has, exprs[1..]), alias, column);
    }
  }

  lemma {:induction false} FindInSelectSource(has: Has, column: string, s: SelectStatement)
    requires ClearSelect(has, s)
    ensures FindInSelect("", column, s) == AsResolved(FirstNamed(Outputs(has, s), column))
    decreases s, 0
  {
    match s
    case Select(exprs, from) => FindAmongSource(has, column, exprs, from);
    case ParenSelect(inner) => FindInSelectSource(has, column, inner);
  }

  lemma {:induction false} FindAmongSource(has: Has, column: string, exprs: seq<SelectExpr>, from: seq<TableExpr>)
    requires AllClear(has, from) && AllColumnsClear(has, exprs, from)
    ensures FindAmong("", column, exprs, from) == AsResolved(FirstNamed(OutputsOf(has, exprs, from), column))
    decreases from, 1, |exprs|
  {
    hide PickedRight, FirstTableWithoutAlias, ScopeOfAll, FindInExprs, Owner, Resolve;
    if exprs != [] {
      FindAmongSource(has, column, exprs[1..], from);
      var e := exprs[0];
      if e.AliasedExpr? && e.expr.ColName? {
        if e.expr.qualifier == "" {
          PickedIsFound(has, from, e.expr.name);
        } else {
          FindInExprsSource(has, e.expr.qualifier, e.expr.name, from);
        }
        assert OutputsOf(has, exprs, from)[1..] == OutputsOf(has, exprs[1..], from);
      }
    }
  }

  lemma PickedIsFound(has: Has, from: seq<TableExpr>, column: string)
    requires AllClear(has, from) && PickedRight(has, from, column)
    ensures FirstTableWithoutAlias(from).Ok?
    ensures var source := Source(FirstTableWithoutAlias(from).value, column);
            && Owner(has, ScopeOfAll(has, from), column) == Some(source)
            && FindInExprs(source.table, column, from) == AsResolved(Some(source))
    decreases from, 1, 0
  {
    FindInExprsSource(has, FirstTableWithoutAlias(from).value, column, from);
  }

  /** Named tables are always clear. */
  lemma {:induction false} NamedIsClear(has: Has, e: TableExpr)
    requires NoSubqueries(e)
    ensures Clear(has, e)
    decreases e
  {
    match e
    case Aliased(_, _) =>
    case Join(left, right) =>
      NamedIsClear(has, left);
      NamedIsClear(has, right);
    case Paren(exprs) => NamedAreClear(has, exprs);
  }

  lemma {:induction false} NamedAreClear(has: Has, exprs: seq<TableExpr>)
    requires NoSubqueriesInAll(exprs)
    ensures AllClear(has, exprs)
    decreases exprs
  {
    if exprs != [] {
      NamedIsClear(has, exprs[0]);
      NamedAreClear(has, exprs[1..]);
    }
  }

  /** A single table without an alias is always the right pick for its own columns. */
  lemma PlainTablePicked(has: Has, from: seq<TableExpr>, column: string)
    requires |from| == 1 && NonAliasedName(from[0]).Some? && has(from[0].expr.name, column)
    ensures AllClear(has, from) && PickedRight(has, from, column)
  {
    assert from[1..] == [] && AllClear(has, from[1..]) && ScopeOfAll(has, from[1..]) == [];
    assert ScopeOfAll(has, from) == Scope(has, from[0]) + [];
    assert from[..0] == [];
    assert OnlyPlainTable(from[..0]) == Ok(None);
  }

  // ---- unqualified columns of several tables ---------------------------------------------------------------

  /**
   Named tables, in lists and joins of any shape, of which exactly the k-th has the column; `has` tells those that have
   it.
   */
  ghost predicate OwnedBy(from: seq<TableExpr>, has: string -> bool, k: nat) {
    && NoSubqueriesInAll(from) && k < |BindingsOfAll(from)|
    && forall i :: 0 <= i < |BindingsOfAll(from)| ==> (has(BindingsOfAll(from)[i].table) <==> i == k)
  }

  lemma {:induction false} LeftmostBinding(e: TableExpr)
    requires e.Join? && NoSubqueries(e) && JoinFirstTable(e).Some?
    ensures Bindings(e) != [] && Bindings(e)[0] == Binding(JoinFirstTable(e).value, JoinFirstTable(e).value)
    decreases e
  {
    if e.left.Join? { LeftmostBinding(e.left); }
  }

  lemma {:induction false} OnlyPlainTableIs(exprs: seq<TableExpr>, k: nat)
    requires k < |exprs| && NonAliasedName(exprs[k]).Some?
             && forall i :: 0 <= i < |exprs| && i != k ==> NonAliasedName(exprs[i]).None?
    ensures OnlyPlainTable(exprs) == Ok(NonAliasedName(exprs[k]))
    decreases |exprs|
  {
    var n := |exprs| - 1;
    if k < n { OnlyPlainTableIs(exprs[..n], k); } else { NoPlainTable(exprs[..n]); }
  }

  lemma {:induction false} NoPlainTable(exprs: seq<TableExpr>)
    requires forall i :: 0 <= i < |exprs| ==> NonAliasedName(exprs[i]).None?
    ensures OnlyPlainTable(exprs) == Ok(None)
    decreases |exprs|
  {
    if exprs != [] { NoPlainTable(exprs[..|exprs| - 1]); }
  }

  lemma {:induction false} PlainTableAt(exprs: seq<TableExpr>) returns (k: nat)
    requires OnlyPlainTable(exprs).Ok? && OnlyPlainTable(exprs).value.Some?
    ensures k < |exprs| && NonAliasedName(exprs[k]) == OnlyPlainTable(exprs).value
    ensures forall i :: 0 <= i < |exprs| && i != k ==> NonAliasedName(exprs[i]).None?
    decreases |exprs|
  {
    var n := |exprs| - 1;
    if NonAliasedName(exprs[n]).Some? {
      k := n;
      forall i | 0 <= i < n ensures NonAliasedName(exprs[i]).None? { PlainTableCounts(exprs[..n], i); }
    } else {
      k := PlainTableAt(exprs[..n]);
    }
  }

  lemma {:induction false} PlainTableCounts(exprs: seq<TableExpr>, i: nat)
    requires i < |exprs| && OnlyPlainTable(exprs) == Ok(None)
    ensures NonAliasedName(exprs[i]).None?
    decreases |exprs|
  {
    var n := |exprs| - 1;
    if i < n { PlainTableCounts(exprs[..n], i); }
  }

  /** The j-th expression of the list is a table without an alias, and no other one is. */
  predicate OnlyPlainAt(exprs: seq<TableExpr>, j: nat) {
    && j < |exprs| && NonAliasedName(exprs[j]).Some?
    && forall i :: 0 <= i < |exprs| && i != j ==> NonAliasedName(exprs[i]).None?
  }

  /**
   An unqualified result column of a subquery over several tables. Behind a leading join findTableName names its real
   table exactly when that is the leftmost one and has no alias; in any other list exactly when it is the only listed
   table without an alias. Otherwise another table is named, or none.
   */
  lemma UnqualifiedInSubquery(column: string, from: seq<TableExpr>, has: string -> bool, k: nat)
    requires OwnedBy(from, has, k)
    ensures from != []
    ensures var r := FindAmong("", column, [AliasedExpr(ColName("", column), "")], from);
            var owner := BindingsOfAll(from)[k].table;
            (r.Ok? && r.value.table == owner) <==>
            if from[0].Join? then k == 0 && JoinFirstTable(from[0]).Some?
            else exists j: nat :: OnlyPlainAt(from, j) && from[j].expr.name == owner
  {
    hide FindAmong, OnlyPlainTable;
    OneUnqualified(column, from);
    if from[0].Join? {
      if JoinFirstTable(from[0]).Some? {
        LeftmostBinding(from[0]);
        assert BindingsOfAll(from)[0] == Bindings(from[0])[0];
      }
    } else {
      forall j: nat | OnlyPlainAt(from, j) ensures OnlyPlainTable(from) == Ok(Some(from[j].expr.name)) {
        OnlyPlainTableIs(from, j);
      }
      if FirstTableWithoutAlias(from).Ok? {
        var j := PlainTableAt(from);
        assert OnlyPlainAt(from, j);
      }
    }
  }

  lemma OneUnqualified(column: string, from: seq<TableExpr>)
    ensures FindAmong("", column, [AliasedExpr(ColName("", column), "")], from)
            == if FirstTableWithoutAlias(from).Ok? then Ok(ColumnInfo(column, FirstTableWithoutAlias(from).value, ""))
               else Err(NotFound)
  {
    hide FirstTableWithoutAlias;
    var exprs := [AliasedExpr(ColName("", column), "")];
    assert exprs[1..] == [];
    assert FindAmong("", column, exprs[1..], from) == Err(NotFound);
  }

  /** `(select x from a, b as c) d`: d.x is said to come from a, also when only b has a column x. */
  lemma UnqualifiedSubqueryExample()
    ensures var from := [Aliased(TableName("a"), ""), Aliased(TableName("b"), "c")];
            FindInExpr("d", "x", Aliased(Subquery(Select([AliasedExpr(ColName("", "x"), "")], from)), "d"))
            == Ok(ColumnInfo("x", "a", ""))
  {
    var from := [Aliased(TableName("a"), ""), Aliased(TableName("b"), "c")];
    OnlyPlainTableIs(from, 0);
    assert FirstTableWithoutAlias(from) == Ok("a");
    var exprs := [AliasedExpr(ColName("", "x"), "")];
    assert FindAmong("", "x", exprs, from) == Ok(ColumnInfo("x", "a", ""));
  }
}
