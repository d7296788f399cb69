/** Collecting the tables of a join in order (parseJoinTablesInfo and getRightJoinTableInfo in encryptor/utils.go). */
module JoinTables {
  import opened TableExprs

  /** A named table of a join; `first` says that it begins a chain of joins. */
  datatype Leaf = Leaf(alias: string, table: string, first: bool)

  function LeafOf(e: TableExpr, first: bool): Leaf
    requires e.Aliased? && e.expr.TableName?
  {
    Leaf(if e.alias == "" then e.expr.name else e.alias, e.expr.name, first)
  }

  /** The first join among the expressions of a parenthesis; the others are ignored. */
  function FirstJoin(exprs: seq<TableExpr>): (i: nat)
    ensures i <= |exprs| && (i < |exprs| ==> exprs[i].Join?) && forall j :: 0 <= j < i ==> !exprs[j].Join?
  {
    if exprs == [] || exprs[0].Join? then 0 else 1 + FirstJoin(exprs[1..])
  }

  /** The joins that can be parsed: chains whose right-hand sides are named tables or parenthesised joins. */
  predicate Parses(e: TableExpr)
    requires e.Join?
  {
    ParsesRight(e.right) && (e.left.Aliased? || (e.left.Join? && Parses(e.left)))
  }

  predicate ParsesRight(e: TableExpr) {
    match e
    case Aliased(expr, _) => expr.TableName?
    case Join(_, _) => false
    case Paren(exprs) => FirstJoin(exprs) < |exprs| && Parses(exprs[FirstJoin(exprs)])
  }

  /** The named tables of a join that can be parsed, from left to right; a subquery at the left end has no name. */
  function Leaves(e: TableExpr): seq<Leaf>
    requires e.Join? && Parses(e)
  {
    (match e.left
     case Aliased(TableName(_), _) => [LeafOf(e.left, true)]
     case Aliased(Subquery(_), _) => []
     case Join(_, _) => Leaves(e.left)) + RightLeaves(e.right)
  }

  function RightLeaves(e: TableExpr): seq<Leaf>
    requires ParsesRight(e)
  {
    match e
    case Aliased(_, _) => [LeafOf(e, false)]
    case Paren(exprs) => Leaves(exprs[FirstJoin(exprs)])
  }

  /** Visiting the leaves from the last to the first; a right-hand table whose alias is known is passed over. */
  function Visit(ls: seq<Leaf>, tables: seq<string>, aliases: map<string, string>): (seq<string>, map<string, string>) {
    if ls == [] then (tables, aliases)
    else
      var n := |ls| - 1;
      if ls[n].first || ls[n].alias !in aliases then
        Visit(ls[..n], tables + [ls[n].table], aliases[ls[n].alias := ls[n].table])
      else
        Visit(ls[..n], tables, aliases)
  }

  lemma {:induction false} VisitAppend(a: seq<Leaf>, b: seq<Leaf>, tables: seq<string>, aliases: map<string, string>)
    ensures var (tables', aliases') := Visit(b, tables, aliases);
            Visit(a + b, tables, aliases) == Visit(a, tables', aliases')
    decreases |b|
  {
    if b == [] {
      assert a + b == a;
    } else {
      var n := |b| - 1;
      assert (a + b)[..|a + b| - 1] == a + b[..n];
      if b[n].first || b[n].alias !in aliases {
        VisitAppend(a, b[..n], tables + [b[n].table], aliases[b[n].alias := b[n].table]);
      } else {
        VisitAppend(a, b[..n], tables, aliases);
      }
    }
  }

  class JoinCollector {
    var tables: seq<string>
    var aliases: map<string, string>

    constructor ()
      ensures tables == [] && aliases == map[]
    {
      tables, aliases := [], map[];
    }

    /** parseJoinTablesInfo. */
    method ParseJoinTablesInfo(e: TableExpr) returns (ok: bool)
      requires e.Join?
      modifies this
      ensures ok <==> Parses(e)
      ensures ok ==> (tables, aliases) == Visit(Leaves(e), old(tables), old(aliases))
      decreases e, 1
    {
      ok := GetRightJoinTableInfo(e);
      if !ok { return; }
      match e.left
      case Aliased(TableName(name), alias) =>
        VisitAppend([LeafOf(e.left, true)], RightLeaves(e.right), old(tables), old(aliases));
        VisitOne(LeafOf(e.left, true), tables, aliases);
        tables := tables + [name];
        aliases := aliases[if alias == "" then name else alias := name];
      case Aliased(Subquery(_), _) =>
        assert [] + RightLeaves(e.right) == RightLeaves(e.right);
      case Join(_, _) =>
        ok := ParseJoinTablesInfo(e.left);
        if ok { VisitAppend(Leaves(e.left), RightLeaves(e.right), old(tables), old(aliases)); }
      case Paren(_) => ok := false;
    }

    /** getRightJoinTableInfo. */
    method GetRightJoinTableInfo(e: TableExpr) returns (ok: bool)
      requires e.Join?
      modifies this
      ensures ok <==> ParsesRight(e.right)
      ensures ok ==> (tables, aliases) == Visit(RightLeaves(e.right), old(tables), old(aliases))
      decreases e, 0
    {
      match e.right
      case Paren(exprs) =>
        for i := 0 to |exprs|
          invariant tables == old(tables) && aliases == old(aliases)
          invariant forall j :: 0 <= j < i ==> !exprs[j].Join?
        {
          if exprs[i].Join? {
            ok := ParseJoinTablesInfo(exprs[i]);
            return;
          }
        }
        ok := false;
      case Aliased(TableName(name), alias) =>
        VisitOne(LeafOf(e.right, false), tables, aliases);
        var key := if alias == "" then name else alias;
        if key !in aliases {
          tables := tables + [name];
          aliases := aliases[key := name];
        }
        ok := true;
      case Aliased(Subquery(_), _) => ok := false;
      case Join(_, _) => ok := false;
    }
  }

  lemma VisitOne(l: Leaf, tables: seq<string>, aliases: map<string, string>)
    ensures Visit([l], tables, aliases)
            == if l.first || l.alias !in aliases then (tables + [l.table], aliases[l.alias := l.table])
               else (tables, aliases)
  {
    assert [l][..0] == [];
  }

  // ---- the order -------------------------------------------------------------------------------------------

  function Tables(ls: seq<Leaf>): (r: seq<string>)
    ensures |r| == |ls|
  {
    seq(|ls|, i requires 0 <= i < |ls| => ls[i].table)
  }

  function Reversed(s: seq<string>): (r: seq<string>)
    ensures |r| == |s|
  {
    seq(|s|, i requires 0 <= i < |s| => s[|s| - 1 - i])
  }

  /** No right-hand table repeats the alias of a table further to the right. */
  predicate AliasesFresh(ls: seq<Leaf>) {
    forall i, j :: 0 <= i < j < |ls| && !ls[i].first ==> ls[i].alias != ls[j].alias
  }

  /**
   Reversing the collected list gives the tables from left to right exactly when no right-hand table repeats an alias.
   */
  lemma CollectedOrder(e: TableExpr)
    requires e.Join? && Parses(e)
    ensures Reversed(Visit(Leaves(e), [], map[]).0) == Tables(Leaves(e)) <==> AliasesFresh(Leaves(e))
  {
    VisitOrder(Leaves(e), [], map[]);
  }

  /** What Visit adds: never more than all tables, and all of them in reverse order when every alias is fresh. */
  lemma {:induction false} VisitOrder(ls: seq<Leaf>, tables: seq<string>, aliases: map<string, string>)
    ensures var r := Visit(ls, tables, aliases).0;
            if AliasesFresh(ls) && (forall i :: 0 <= i < |ls| && !ls[i].first ==> ls[i].alias !in aliases)
            then r == tables + Reversed(Tables(ls)) else |r| < |tables| + |ls|
    decreases |ls|
  {
    if ls != [] {
      var n := |ls| - 1;
      var front, last := ls[..n], ls[n];
      if last.first || last.alias !in aliases {
        VisitOrder(front, tables + [last.table], aliases[last.alias := last.table]);
        assert Reversed(Tables(ls)) == [last.table] + Reversed(Tables(front));
      } else {
        VisitOrder(front, tables, aliases);
      }
    }
  }

  /** The tables of a FROM expression as they are written. */
  function TableOrder(e: TableExpr): seq<string> {
    match e
    case Aliased(TableName(name), _) => [name]
    case Aliased(Subquery(_), _) => []
    case Join(left, right) => TableOrder(left) + TableOrder(right)
    case Paren(exprs) => TableOrderOfAll(exprs)
  }

  function TableOrderOfAll(exprs: seq<TableExpr>): seq<string> {
    if exprs == [] then [] else TableOrder(exprs[0]) + TableOrderOfAll(exprs[1..])
  }

  /** Left-deep joins of named tables, with parenthesised joins allowed on the right. */
  predicate PlainJoin(e: TableExpr) {
    && e.Join?
    && ((e.left.Aliased? && e.left.expr.TableName?) || PlainJoin(e.left))
    && ((e.right.Aliased? && e.right.expr.TableName?)
        || (e.right.Paren? && |e.right.exprs| == 1 && PlainJoin(e.right.exprs[0])))
  }

  lemma {:induction false} PlainJoinLeaves(e: TableExpr)
    requires PlainJoin(e)
    ensures Parses(e) && Tables(Leaves(e)) == TableOrder(e) && Leaves(e) != []
    decreases e
  {
    if e.left.Join? { PlainJoinLeaves(e.left); }
    if e.right.Paren? { PlainJoinLeaves(e.right.exprs[0]); }
    PlainRightLeaves(e.right);
    var left := if e.left.Join? then Leaves(e.left) else [LeafOf(e.left, true)];
    assert Leaves(e) == left + RightLeaves(e.right);
    TablesAppend(left, RightLeaves(e.right));
    assert e.left.Aliased? ==> Tables(left) == TableOrder(e.left);
  }

  lemma TablesAppend(a: seq<Leaf>, b: seq<Leaf>)
    ensures Tables(a + b) == Tables(a) + Tables(b)
  {
  }

  lemma PlainRightLeaves(e: TableExpr)
    requires (e.Aliased? && e.expr.TableName?) || (e.Paren? && |e.exprs| == 1 && e.exprs[0].Join? && Parses(e.exprs[0]))
    requires e.Paren? ==> Tables(Leaves(e.exprs[0])) == TableOrder(e.exprs[0])
    ensures ParsesRight(e) && Tables(RightLeaves(e)) == TableOrder(e)
  {
    hide Leaves, Parses;
    if e.Paren? {
      assert e.exprs[1..] == [];
      assert TableOrderOfAll(e.exprs) == TableOrder(e.exprs[0]) + [];
    }
  }

  /**
   For plain joins with distinct aliases the collected list, reversed, is the order in which the tables are written.
   */
  lemma PlainJoinOrder(e: TableExpr)
    requires PlainJoin(e) && Parses(e) && AliasesFresh(Leaves(e))
    ensures Reversed(Visit(Leaves(e), [], map[]).0) == TableOrder(e)
  {
    PlainJoinLeaves(e);
    CollectedOrder(e);
  }

  predicate AliasesDistinct(ls: seq<Leaf>) {
    forall i, j :: 0 <= i < j < |ls| ==> ls[i].alias != ls[j].alias
  }

  predicate Named(ls: seq<Leaf>, alias: string) { exists i :: 0 <= i < |ls| && ls[i].alias == alias }

  /** With distinct aliases the collected map binds each alias to its table, and nothing else. */
  lemma {:induction false} VisitAliases(ls: seq<Leaf>, tables: seq<string>, aliases: map<string, string>)
    requires AliasesDistinct(ls) && forall i :: 0 <= i < |ls| ==> ls[i].alias !in aliases
    ensures var m := Visit(ls, tables, aliases).1;
            && (forall a :: a in m <==> a in aliases || Named(ls, a))
            && (forall a :: a in aliases ==> m[a] == aliases[a])
            && (forall i :: 0 <= i < |ls| ==> m[ls[i].alias] == ls[i].table)
    decreases |ls|
  {
    if ls != [] {
      var n := |ls| - 1;
      var front, last := ls[..n], ls[n];
      var aliases' := aliases[last.alias := last.table];
      VisitAliases(front, tables + [last.table], aliases');
      var m := Visit(ls, tables, aliases).1;
      forall a ensures a in m <==> a in aliases || Named(ls, a) {
        NamedSnoc(ls, a);
      }
      forall i | 0 <= i < |ls| ensures m[ls[i].alias] == ls[i].table {
        if i < n { assert front[i] == ls[i]; }
      }
    }
  }

  lemma NamedSnoc(ls: seq<Leaf>, alias: string)
    requires ls != []
    ensures Named(ls, alias) <==> Named(ls[..|ls| - 1], alias) || ls[|ls| - 1].alias == alias
  {
    var front := ls[..|ls| - 1];
    if Named(ls, alias) && ls[|ls| - 1].alias != alias {
      var i :| 0 <= i < |ls| && ls[i].alias == alias;
      assert front[i].alias == alias;
    }
    if Named(front, alias) {
      var i :| 0 <= i < |front| && front[i].alias == alias;
      assert ls[i].alias == alias;
    }
  }

  /** A right-hand table whose alias stands further right is passed over. */
  lemma SecondUseSkipped(a: Leaf, b: Leaf, c: Leaf)
    requires a.first && !b.first && !c.first && b.alias == c.alias
    ensures Visit([a, b, c], [], map[]).0 == [c.table, a.table]
  {
    assert [a, b, c] == [a] + [b] + [c];
    VisitAppend([a] + [b], [c], [], map[]);
    VisitOne(c, [], map[]);
    var m := map[][c.alias := c.table];
    assert [] + [c.table] == [c.table];
    VisitAppend([a], [b], [c.table], m);
    VisitOne(b, [c.table], m);
    VisitOne(a, [c.table], m);
  }

  /** `a join b as x join c as x`: b is passed over. */
  lemma RepeatedAliasExample()
    ensures var e := Join(Join(Aliased(TableName("a"), ""), Aliased(TableName("b"), "x")),
                          Aliased(TableName("c"), "x"));
            && Parses(e) && !AliasesFresh(Leaves(e)) && Tables(Leaves(e)) == ["a", "b", "c"]
            && Reversed(Visit(Leaves(e), [], map[]).0) == ["a", "c"]
  {
    hide Visit;
    var e := Join(Join(Aliased(TableName("a"), ""), Aliased(TableName("b"), "x")), Aliased(TableName("c"), "x"));
    var a, b, c := Leaf("a", "a", true), Leaf("x", "b", false), Leaf("x", "c", false);
    assert Leaves(e.left) == [a, b];
    assert Leaves(e) == [a, b, c];
    SecondUseSkipped(a, b, c);
    assert Leaves(e)[1] == b && Leaves(e)[2] == c;
    assert Reversed(["c", "a"]) == ["a", "c"];
  }
}
