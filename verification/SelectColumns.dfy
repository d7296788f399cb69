/**
 Settings for the result columns of a SELECT (mapColumnsToAliases in encryptor/utils.go, onSelect in
 encryptor/queryDataEncryptor.go).
 */
module SelectColumns {
  import opened Outcomes
  import opened TableExprs
  import opened JoinTables
  import opened Resolution

  datatype ColumnSetting = ColumnSetting(id: nat)

  /** The configured columns of a table, in order, and the settings of those that are protected. */
  datatype TableSchema = TableSchema(columns: seq<string>, settings: map<string, ColumnSetting>)

  type SchemaStore = map<string, TableSchema>

  const ALL_COLUMNS := "*"

  // ---- unqualified columns ---------------------------------------------------------------------------------

  function Visible(e: TableExpr): string
    requires e.Aliased? && e.expr.TableName?
  {
    if e.alias == "" then e.expr.name else e.alias
  }

  predicate Holds(store: SchemaStore, e: TableExpr, column: string) {
    e.Aliased? && e.expr.TableName? && e.expr.name in store && column in store[e.expr.name].columns
  }

  /** The loop of getMatchedTable. */
  function MatchAmong(store: SchemaStore, exprs: seq<TableExpr>, column: string, found: Option<string>)
    : Result<string, ResolveError>
  {
    if exprs == [] then (match found case Some(name) => Ok(name) case None => Err(NotMatched))
    else if exprs[0].Aliased? && exprs[0].expr.Subquery? then Err(Unsupported)
    else if !Holds(store, exprs[0], column) then MatchAmong(store, exprs[1..], column, found)
    else if found.Some? then Err(Ambiguous)
    else MatchAmong(store, exprs[1..], column, Some(Visible(exprs[0])))
  }

  /** getMatchedTable. */
  function MatchedTable(store: SchemaStore, from: seq<TableExpr>, column: string): Result<string, ResolveError> {
    if from == [] then Err(EmptyTableExprs)
    else if from[0].Join? then (match JoinFirstTable(from[0]) case Some(name) => Ok(name) case None => Err(NotFound))
    else MatchAmong(store, from, column, None)
  }

  method GetMatchedTable(store: SchemaStore, from: seq<TableExpr>, column: string)
      returns (r: Result<string, ResolveError>)
    ensures r == MatchedTable(store, from, column)
  {
    if from == [] { return Err(EmptyTableExprs); }
    if from[0].Join? {
      var name := JoinFirstTable(from[0]);
      return if name.Some? then Ok(name.value) else Err(NotFound);
    }
    var aliasedName: Option<string> := None;
    for k := 0 to |from|
      invariant MatchAmong(store, from, column, None) == MatchAmong(store, from[k..], column, aliasedName)
    {
      assert from[k..][1..] == from[k + 1..];
      if from[k].Aliased? && from[k].expr.Subquery? { return Err(Unsupported); }
      if Holds(store, from[k], column) {
        if aliasedName.Some? { return Err(Ambiguous); }
        aliasedName := Some(Visible(from[k]));
      }
    }
    assert from[|from|..] == [];
    r := match aliasedName case Some(name) => Ok(name) case None => Err(NotMatched);
  }

  /** Which columns the tables of the schema have. */
  function HasColumn(store: SchemaStore): Has {
    (table, column) => table in store && column in store[table].columns
  }

  /** The visible names of the tables that have the column. */
  function Candidates(store: SchemaStore, exprs: seq<TableExpr>, column: string): seq<string> {
    if exprs == [] then []
    else
      var rest := Candidates(store, exprs[1..], column);
      match exprs[0]
      case Aliased(TableName(name), alias) =>
        if HasColumn(store)(name, column) then [if alias == "" then name else alias] + rest else rest
      case _ => rest
  }

  /** The first subquery among the listed tables. */
  function FirstSubquery(exprs: seq<TableExpr>): (k: nat)
    ensures k <= |exprs| && forall i :: 0 <= i < k ==> !(exprs[i].Aliased? && exprs[i].expr.Subquery?)
    ensures k < |exprs| ==> exprs[k].Aliased? && exprs[k].expr.Subquery?
  {
    if exprs == [] || (exprs[0].Aliased? && exprs[0].expr.Subquery?) then 0 else 1 + FirstSubquery(exprs[1..])
  }

  lemma {:induction false} MatchAmongExact(store: SchemaStore, exprs: seq<TableExpr>, column: string,
                                           found: Option<string>)
    ensures var k := FirstSubquery(exprs);
            var all := (if found.Some? then [found.value] else []) + Candidates(store, exprs[..k], column);
            MatchAmong(store, exprs, column, found)
            == if |all| >= 2 then Err(Ambiguous) else if k < |exprs| then Err(Unsupported)
               else if |all| == 1 then Ok(all[0]) else Err(NotMatched)
    decreases |exprs|
  {
    if exprs != [] && FirstSubquery(exprs) > 0 {
      var k := FirstSubquery(exprs);
      assert exprs[..k][1..] == exprs[1..][..k - 1] && exprs[..k][0] == exprs[0];
      if !(Holds(store, exprs[0], column) && found.Some?) {
        MatchAmongExact(store, exprs[1..], column,
                        if Holds(store, exprs[0], column) then Some(Visible(exprs[0])) else found);
      }
    }
  }

  /**
   An unqualified column: behind a leading join the leftmost table if it has no alias, whatever its columns; in a list
   of tables the only one that has the column. Two tables with the column are ambiguous if both stand before the first
   subquery, and any subquery before that is an error.
   */
  lemma MatchedTableExact(store: SchemaStore, from: seq<TableExpr>, column: string)
    ensures from == [] ==> MatchedTable(store, from, column) == Err(EmptyTableExprs)
    ensures from != [] && from[0].Join? ==>
              MatchedTable(store, from, column)
              == if JoinFirstTable(from[0]).Some? then Ok(JoinFirstTable(from[0]).value) else Err(NotFound)
    ensures from != [] && !from[0].Join? ==>
              var k := FirstSubquery(from);
              var all := Candidates(store, from[..k], column);
              MatchedTable(store, from, column)
              == if |all| >= 2 then Err(Ambiguous) else if k < |from| then Err(Unsupported)
                 else if |all| == 1 then Ok(all[0]) else Err(NotMatched)
  {
    MatchAmongExact(store, from, column, None);
    var all := Candidates(store, from[..FirstSubquery(from)], column);
    assert [] + all == all;
  }

  /** findColumnInfo. */
  function FindColumnInfo(store: SchemaStore, from: seq<TableExpr>, qualifier: string, name: string): (r: Resolved)
    ensures r.Ok? ==> r.value.table in BaseTablesOfAll(from)
  {
    var alias := if qualifier == "" then MatchedTable(store, from, name) else Ok(qualifier);
    match alias
    case Err(e) => Err(e)
    case Ok(a) =>
      FindInExprsSound(a, name, from);
      match FindInExprs(a, name, from) case Err(e) => Err(e) case Ok(info) => Ok(info.(alias := a))
  }

  // ---- one entry list per result expression ----------------------------------------------------------------

  type Entries = Result<seq<Option<ColumnInfo>>, ResolveError>

  /** Every SELECT has a FROM, also in scalar subqueries. */
  predicate HasFrom(s: SelectStatement) {
    s.Select? ==> s.from != [] && forall i :: 0 <= i < |s.exprs| ==> ExprHasFrom(s.exprs[i])
  }

  predicate ExprHasFrom(e: SelectExpr) {
    e.AliasedExpr? && e.expr.Scalar? ==> HasFrom(e.expr.select)
  }

  function AllOf(table: string): Option<ColumnInfo> { Some(ColumnInfo(ALL_COLUMNS, table, ALL_COLUMNS)) }

  /** What parseJoinTablesInfo has collected for a FROM clause; nothing unless it begins with a join. */
  function JoinInfo(from: seq<TableExpr>): Option<(seq<string>, map<string, string>)>
    requires from != []
  {
    if !from[0].Join? then Some(([], map[]))
    else if Parses(from[0]) then Some(Visit(Leaves(from[0]), [], map[]))
    else None
  }

  function AllOfEach(tables: seq<string>): (r: seq<Option<ColumnInfo>>)
    ensures |r| == |tables|
  {
    seq(|tables|, i requires 0 <= i < |tables| => AllOf(tables[i]))
  }

  /** The entries of `*` and of `table.*`. */
  function StarEntries(table: string, from: seq<TableExpr>, tables: seq<string>,
                       aliases: map<string, string>): Entries {
    if tables != [] then
      if table == "" then Ok(AllOfEach(Reversed(tables)))
      else if table in aliases then Ok([AllOf(aliases[table])])
      else Err(Unsupported)
    else match FirstTableWithoutAlias(from)
      case Ok(name) => Ok([AllOf(name)])
      case Err(_) =>
        if |from| == 1 then
          if from[0].Aliased? && from[0].expr.TableName? then Ok([AllOf(from[0].expr.name)]) else Err(NotFound)
        else (match FindInExprs(table, table, from) case Ok(info) => Ok([AllOf(info.table)]) case Err(e) => Err(e))
  }

  function ExprEntries(store: SchemaStore, e: SelectExpr, from: seq<TableExpr>, tables: seq<string>,
                       aliases: map<string, string>): Entries
    requires ExprHasFrom(e)
    decreases e, 1
  {
    match e
    case Star(table) => StarEntries(table, from, tables, aliases)
    case AliasedExpr(Scalar(Select(exprs, from')), _) =>
      if |exprs| != 1 || exprs[0].Star? then Err(Unsupported) else Mapped(store, Select(exprs, from'))
    case AliasedExpr(ColName(qualifier, name), _) =>
      var info := FindColumnInfo(store, from, qualifier, name);
      Ok([if info.Ok? then Some(info.value) else None])
    case AliasedExpr(_, _) => Ok([None])
  }

  /** The entries of the first k expressions. */
  function MappedUpTo(store: SchemaStore, s: SelectStatement, k: nat, tables: seq<string>,
                      aliases: map<string, string>): Entries
    requires s.Select? && HasFrom(s) && k <= |s.exprs|
    decreases s, 0, k
  {
    if k == 0 then Ok([])
    else match MappedUpTo(store, s, k - 1, tables, aliases)
      case Err(e) => Err(e)
      case Ok(out) =>
        match ExprEntries(store, s.exprs[k - 1], s.from, tables, aliases)
        case Err(e) => Err(e)
        case Ok(more) => Ok(out + more)
  }

  /** mapColumnsToAliases. */
  function Mapped(store: SchemaStore, s: SelectStatement): Entries
    requires s.Select? && HasFrom(s)
    decreases s, 1
  {
    match JoinInfo(s.from)
    case None => Err(Unsupported)
    case Some((tables, aliases)) => MappedUpTo(store, s, |s.exprs|, tables, aliases)
  }

  method MapColumnsToAliases(store: SchemaStore, s: SelectStatement) returns (r: Entries)
    requires s.Select? && HasFrom(s)
    ensures r == Mapped(store, s)
    decreases s
  {
    hide Leaves, Visit, FindColumnInfo;
    var collector := new JoinCollector();
    if s.from[0].Join? {
      var ok := collector.ParseJoinTablesInfo(s.from[0]);
      if !ok { return Err(Unsupported); }
    }
    var tables, aliases := collector.tables, collector.aliases;
    var out := [];
    for k := 0 to |s.exprs|
      invariant MappedUpTo(store, s, k, tables, aliases) == Ok(out)
    {
      var more: Entries;
      match s.exprs[k] {
        case AliasedExpr(Scalar(Select(exprs, from)), _) =>
          if |exprs| != 1 || exprs[0].Star? {
            more := Err(Unsupported);
          } else {
            more := MapColumnsToAliases(store, s.exprs[k].expr.select);
          }
        case _ => more := ExprEntries(store, s.exprs[k], s.from, tables, aliases);
      }
      if more.Err? {
        FailureStays(store, s, k + 1, tables, aliases);
        return Err(more.error);
      }
      out := out + more.value;
    }
    r := Ok(out);
  }

  lemma {:induction false} FailureStays(store: SchemaStore, s: SelectStatement, k: nat, tables: seq<string>,
                                        aliases: map<string, string>)
    requires s.Select? && HasFrom(s) && k <= |s.exprs| && MappedUpTo(store, s, k, tables, aliases).Err?
    ensures MappedUpTo(store, s, |s.exprs|, tables, aliases) == MappedUpTo(store, s, k, tables, aliases)
    decreases |s.exprs| - k
  {
    if k < |s.exprs| { FailureStays(store, s, k + 1, tables, aliases); }
  }

  // ---- settings --------------------------------------------------------------------------------------------

  datatype QueryDataItem = QueryDataItem(setting: ColumnSetting, tableName: string, columnName: string,
                                         columnAlias: string)

  type Settings = seq<Option<QueryDataItem>>

  function SettingOf(schema: TableSchema, table: string, column: string, alias: string): Option<QueryDataItem> {
    if column in schema.settings then Some(QueryDataItem(schema.settings[column], table, column, alias)) else None
  }

  /** One setting per column of the table, in the order of its schema. */
  function TableSettings(schema: TableSchema, table: string): (r: Settings)
    ensures |r| == |schema.columns|
  {
    seq(|schema.columns|, i requires 0 <= i < |schema.columns| => SettingOf(schema, table, schema.columns[i], ""))
  }

  function EntrySettings(store: SchemaStore, entry: Option<ColumnInfo>): Settings {
    if entry.None? || entry.value.table !in store then [None]
    else
      var info, schema := entry.value, store[entry.value.table];
      if info.name == ALL_COLUMNS then TableSettings(schema, info.table)
      else [SettingOf(schema, info.table, info.name, info.alias)]
  }

  function AllSettings(store: SchemaStore, entries: seq<Option<ColumnInfo>>): Settings {
    if entries == [] then []
    else AllSettings(store, entries[..|entries| - 1]) + EntrySettings(store, entries[|entries| - 1])
  }

  class QueryDataEncryptor {
    const schemaStore: SchemaStore
    var querySelectSettings: Settings

    constructor (schemaStore: SchemaStore)
      ensures this.schemaStore == schemaStore && querySelectSettings == []
    {
      this.schemaStore, querySelectSettings := schemaStore, [];
    }

    /** onSelect: settings change only when every column could be mapped. */
    method OnSelect(s: SelectStatement) returns (error: Option<ResolveError>)
      requires s.Select? && HasFrom(s)
      modifies this
      ensures match Mapped(schemaStore, s)
              case Ok(entries) => error.None? && querySelectSettings == AllSettings(schemaStore, entries)
              case Err(e) => error == Some(e) && querySelectSettings == old(querySelectSettings)
    {
      hide Mapped;
      var columns := MapColumnsToAliases(schemaStore, s);
      if columns.Err? { return Some(columns.error); }
      var settings: Settings := [];
      for k := 0 to |columns.value|
        invariant settings == AllSettings(schemaStore, columns.value[..k])
        invariant querySelectSettings == old(querySelectSettings)
      {
        var data := columns.value[k];
        assert columns.value[..k + 1][..k] == columns.value[..k];
        if data.Some? && data.value.table in schemaStore {
          var schema := schemaStore[data.value.table];
          if data.value.name == ALL_COLUMNS {
            ghost var before := settings;
            for i := 0 to |schema.columns|
              invariant settings == before + TableSettings(schema, data.value.table)[..i]
              invariant querySelectSettings == old(querySelectSettings)
            {
              settings := settings + [SettingOf(schema, data.value.table, schema.columns[i], "")];
            }
          } else {
            settings := settings + [SettingOf(schema, data.value.table, data.value.name, data.value.alias)];
          }
        } else {
          settings := settings + [None];
        }
      }
      assert columns.value[..|columns.value|] == columns.value;
      querySelectSettings := settings;
      error := None;
    }
  }

  // ---- alignment -------------------------------------------------------------------------------------------

  /** A FROM clause of one named table, or of one plain join with distinct aliases. */
  predicate Ordered(from: seq<TableExpr>) {
    && |from| == 1
    && ((from[0].Aliased? && from[0].expr.TableName?)
        || (PlainJoin(from[0]) && Parses(from[0]) && AliasesDistinct(Leaves(from[0]))))
  }

  /** The settings of all columns of the tables, table after table. */
  function SettingsOfTables(store: SchemaStore, tables: seq<string>): Settings
    requires forall t :: t in tables ==> t in store
  {
    if tables == [] then []
    else
      var n := |tables| - 1;
      SettingsOfTables(store, tables[..n]) + TableSettings(store[tables[n]], tables[n])
  }

  /**
   The setting that the schema gives a column of a table, with the names under which it is known; none if it has none.
   */
  predicate Describes(store: SchemaStore, table: string, column: string, alias: string, x: Option<QueryDataItem>)
    requires table in store
  {
    && (x.Some? <==> column in store[table].settings)
    && (x.Some? ==>
          && x.value.setting == store[table].settings[column]
          && x.value.tableName == table && x.value.columnName == column && x.value.columnAlias == alias)
  }

  /** The number of columns of all the tables. */
  function Width(store: SchemaStore, tables: seq<string>): nat
    requires forall t :: t in tables ==> t in store
  {
    if tables == [] then 0 else Width(store, tables[..|tables| - 1]) + |store[tables[|tables| - 1]].columns|
  }

  /** Column i of table k has its own setting, at its own place. */
  lemma {:induction false} SettingsByPosition(store: SchemaStore, tables: seq<string>, k: nat, i: nat)
    requires (forall t :: t in tables ==> t in store) && k < |tables| && i < |store[tables[k]].columns|
    ensures |SettingsOfTables(store, tables)| == Width(store, tables)
    ensures Width(store, tables[..k]) + i < Width(store, tables)
    ensures Describes(store, tables[k], store[tables[k]].columns[i], "",
                      SettingsOfTables(store, tables)[Width(store, tables[..k]) + i])
    decreases |tables|
  {
    var n := |tables| - 1;
    SettingsWide(store, tables[..n]);
    if k < n {
      SettingsByPosition(store, tables[..n], k, i);
      assert tables[..n][..k] == tables[..k];
    }
  }

  lemma {:induction false} SettingsWide(store: SchemaStore, tables: seq<string>)
    requires forall t :: t in tables ==> t in store
    ensures |SettingsOfTables(store, tables)| == Width(store, tables)
    decreases |tables|
  {
    if tables != [] { SettingsWide(store, tables[..|tables| - 1]); }
  }

  lemma {:induction false} AllOfEachSettings(store: SchemaStore, tables: seq<string>)
    requires forall t :: t in tables ==> t in store
    ensures AllSettings(store, AllOfEach(tables)) == SettingsOfTables(store, tables)
    decreases |tables|
  {
    if tables != [] {
      var n := |tables| - 1;
      AllOfEachSettings(store, tables[..n]);
      assert AllOfEach(tables)[..n] == AllOfEach(tables[..n]);
    }
  }

  lemma StarEntriesOrdered(from: seq<TableExpr>)
    requires Ordered(from)
    ensures JoinInfo(from).Some?
    ensures StarEntries("", from, JoinInfo(from).value.0, JoinInfo(from).value.1) == Ok(AllOfEach(TableOrder(from[0])))
  {
    if from[0].Join? {
      PlainJoinOrder(from[0]);
      PlainJoinLeaves(from[0]);
    } else {
      SingleTable(from);
      assert AllOfEach([from[0].expr.name]) == [AllOf(from[0].expr.name)];
    }
  }

  lemma SingleTable(from: seq<TableExpr>)
    requires |from| == 1 && from[0].Aliased? && from[0].expr.TableName?
    ensures FirstTableWithoutAlias(from) == if from[0].alias == "" then Ok(from[0].expr.name) else Err(NotFound)
    ensures TableOrder(from[0]) == [from[0].expr.name]
  {
    assert from[..0] == [];
    assert OnlyPlainTable(from[..0]) == Ok(None);
  }

  lemma AllSettingsSnoc(store: SchemaStore, a: seq<Option<ColumnInfo>>, entry: Option<ColumnInfo>)
    ensures AllSettings(store, a + [entry]) == AllSettings(store, a) + EntrySettings(store, entry)
  {
    assert (a + [entry])[..|a|] == a;
  }

  lemma {:induction false} AllSettingsAppend(store: SchemaStore, a: seq<Option<ColumnInfo>>, b: seq<Option<ColumnInfo>>)
    ensures AllSettings(store, a + b) == AllSettings(store, a) + AllSettings(store, b)
    decreases |b|
  {
    hide AllSettings, EntrySettings;
    if b == [] {
      NoEntries(store);
      assert a + b == a;
    } else {
      var n := |b| - 1;
      var front, last := b[..n], b[n];
      assert b == front + [last] && a + b == a + front + [last];
      AllSettingsAppend(store, a, front);
      AllSettingsSnoc(store, front, last);
      AllSettingsSnoc(store, a + front, last);
    }
  }

  lemma NoEntries(store: SchemaStore)
    ensures AllSettings(store, []) == []
  {
  }

  lemma OneEntry(store: SchemaStore, entry: Option<ColumnInfo>)
    ensures AllSettings(store, [entry]) == EntrySettings(store, entry)
  {
    assert [entry][..0] == [];
    assert AllSettings(store, []) == [];
  }

  /** Result expressions other than stars: columns with a proper name, and scalar subqueries over named tables. */
  predicate Single(e: SelectExpr) {
    && e.AliasedExpr?
    && (e.expr.ColName? ==> e.expr.name != ALL_COLUMNS)
    && (e.expr.Scalar? && e.expr.select.Select? ==>
          && NoSubqueriesInAll(e.expr.select.from)
          && forall i :: 0 <= i < |e.expr.select.exprs| ==> Single(e.expr.select.exprs[i]))
  }

  /** A column found among named tables keeps its name. */
  lemma FoundName(alias: string, column: string, exprs: seq<TableExpr>)
    requires NoSubqueriesInAll(exprs)
    ensures FindInExprs(alias, column, exprs).Ok? ==> FindInExprs(alias, column, exprs).value.name == column
  {
    FindInExprsExact(alias, column, exprs);
    BoundName(BindingsOfAll(exprs), alias, column);
  }

  lemma {:induction false} BoundName(bs: seq<Binding>, alias: string, column: string)
    ensures Lookup(bs, alias, column).Ok? ==> Lookup(bs, alias, column).value.name == column
    decreases |bs|
  {
    if bs != [] { BoundName(bs[1..], alias, column); }
  }

  /** Every result expression other than a star has exactly one entry, for exactly one setting. */
  lemma {:induction false} SingleEntry(store: SchemaStore, e: SelectExpr, from: seq<TableExpr>, tables: seq<string>,
                                       aliases: map<string, string>)
    requires ExprHasFrom(e) && Single(e) && NoSubqueriesInAll(from) && ExprEntries(store, e, from, tables, aliases).Ok?
    ensures var entries := ExprEntries(store, e, from, tables, aliases).value;
            |entries| == 1 && (entries[0].Some? ==> entries[0].value.name != ALL_COLUMNS)
    decreases e
  {
    match e.expr
    case ColName(qualifier, name) =>
      var alias := if qualifier == "" then MatchedTable(store, from, name) else Ok(qualifier);
      if alias.Ok? { FoundName(alias.value, name, from); }
    case Scalar(Select(exprs, from')) =>
      var (tables', aliases') := JoinInfo(from').value;
      MappedOne(store, Select(exprs, from'), tables', aliases');
      SingleEntry(store, exprs[0], from', tables', aliases');
    case _ =>
  }

  lemma MappedOne(store: SchemaStore, s: SelectStatement, tables: seq<string>, aliases: map<string, string>)
    requires s.Select? && HasFrom(s) && |s.exprs| == 1 && JoinInfo(s.from) == Some((tables, aliases))
    ensures Mapped(store, s) == ExprEntries(store, s.exprs[0], s.from, tables, aliases)
  {
    hide ExprEntries, JoinInfo;
    var more := ExprEntries(store, s.exprs[0], s.from, tables, aliases);
    assert MappedUpTo(store, s, 0, tables, aliases) == Ok([]);
    assert MappedUpTo(store, s, 1, tables, aliases) == more by {
      if more.Ok? { assert [] + more.value == more.value; }
    }
  }

  // ---- qualified stars -------------------------------------------------------------------------------------

  function AsBindings(ls: seq<Leaf>): (bs: seq<Binding>)
    ensures |bs| == |ls| && forall i :: 0 <= i < |ls| ==> bs[i] == Binding(ls[i].alias, ls[i].table)
  {
    seq(|ls|, i requires 0 <= i < |ls| => Binding(ls[i].alias, ls[i].table))
  }

  /** The names a plain join makes visible are the aliases of its leaves. */
  lemma {:induction false} PlainBindings(e: TableExpr)
    requires PlainJoin(e) && Parses(e) && NoSubqueries(e)
    ensures Bindings(e) == AsBindings(Leaves(e))
    decreases e, 1
  {
    hide AsBindings, RightLeaves, NoSubqueries, PlainJoin, Parses, ParsesRight;
    PlainParts(e);
    var left := if e.left.Join? then Leaves(e.left) else [LeafOf(e.left, true)];
    if e.left.Join? { PlainBindings(e.left); } else { OneLeaf(e.left, true); }
    RightBindings(e.right);
    AsBindingsAppend(left, RightLeaves(e.right));
  }

  lemma PlainParts(e: TableExpr)
    requires PlainJoin(e) && Parses(e) && NoSubqueries(e)
    ensures e.Join? && NoSubqueries(e.left) && NoSubqueries(e.right) && ParsesRight(e.right) && PlainRight(e.right)
    ensures e.left.Join? ==> PlainJoin(e.left) && Parses(e.left)
    ensures !e.left.Join? ==> e.left.Aliased? && e.left.expr.TableName?
  {
  }

  predicate PlainRight(e: TableExpr) {
    (e.Aliased? && e.expr.TableName?) || (e.Paren? && |e.exprs| == 1 && PlainJoin(e.exprs[0]))
  }

  lemma OneLeaf(e: TableExpr, first: bool)
    requires e.Aliased? && e.expr.TableName?
    ensures NoSubqueries(e) && Bindings(e) == AsBindings([LeafOf(e, first)])
  {
  }

  lemma AsBindingsAppend(a: seq<Leaf>, b: seq<Leaf>)
    ensures AsBindings(a + b) == AsBindings(a) + AsBindings(b)
  {
  }

  lemma {:induction false} RightBindings(e: TableExpr)
    requires PlainRight(e) && ParsesRight(e) && NoSubqueries(e)
    ensures Bindings(e) == AsBindings(RightLeaves(e))
    decreases e, 0
  {
    if e.Paren? {
      assert NoSubqueriesInAll(e.exprs);
      PlainBindings(e.exprs[0]);
      OneTableBindings(e.exprs[0]);
      assert e.exprs == [e.exprs[0]];
    }
  }

  lemma {:induction false} LookupSome(bs: seq<Binding>, alias: string, column: string) returns (i: nat)
    requires Lookup(bs, alias, column).Ok?
    ensures i < |bs| && bs[i].visible == alias && Lookup(bs, alias, column).value.table == bs[i].table
    decreases |bs|
  {
    if bs[0].visible == alias {
      i := 0;
    } else {
      i := LookupSome(bs[1..], alias, column);
      i := i + 1;
    }
  }

  /** The table a qualified star stands for. */
  function StarTable(from: seq<TableExpr>, table: string): Resolved
    requires |from| == 1 && NoSubqueries(from[0])
  {
    Lookup(Bindings(from[0]), table, ALL_COLUMNS)
  }

  lemma QualifiedStar(from: seq<TableExpr>, table: string)
    requires Ordered(from) && NoSubqueries(from[0]) && table != "" && StarTable(from, table).Ok?
    ensures JoinInfo(from).Some? && StarTable(from, table).value.table in TableOrder(from[0])
    ensures StarEntries(table, from, JoinInfo(from).value.0, JoinInfo(from).value.1)
            == Ok([AllOf(StarTable(from, table).value.table)])
  {
    if from[0].Join? {
      var e := from[0];
      PlainJoinLeaves(e);
      PlainJoinOrder(e);
      PlainBindings(e);
      var i := LookupSome(Bindings(e), table, ALL_COLUMNS);
      VisitAliases(Leaves(e), [], map[]);
      assert Leaves(e)[i].alias == table;
      assert Tables(Leaves(e))[i] == Leaves(e)[i].table;
    } else {
      SingleTable(from);
      var i := LookupSome(Bindings(from[0]), table, ALL_COLUMNS);
      assert StarTable(from, table).value.table == TableOrder(from[0])[0];
    }
  }

  /**
   A star over a list of several tables stands for the only one without an alias, whatever the star is qualified with;
   if there is no such table, for the base table behind its qualifier.
   */
  lemma StarInList(has: Has, from: seq<TableExpr>, table: string)
    requires |from| > 1 && !from[0].Join? && AllClear(has, from)
    ensures var r := StarEntries(table, from, [], map[]);
            && (forall j: nat :: OnlyPlainAt(from, j) ==> r == Ok([AllOf(from[j].expr.name)]))
            && ((forall j: nat :: !OnlyPlainAt(from, j)) ==>
                  r == match Resolve(ScopeOfAll(has, from), table, table)
                       case Some(source) => Ok([AllOf(source.table)])
                       case None => Err(NotFound))
  {
    hide OnlyPlainTable, ScopeOfAll, FindInExprs;
    forall j: nat | OnlyPlainAt(from, j) ensures OnlyPlainTable(from) == Ok(Some(from[j].expr.name)) {
      OnlyPlainTableIs(from, j);
    }
    if FirstTableWithoutAlias(from).Ok? {
      var j := PlainTableAt(from);
      assert OnlyPlainAt(from, j);
    }
    FindInExprsSource(has, table, table, from);
  }

  // ---- plain columns ---------------------------------------------------------------------------------------

  /** The name under which an unqualified column is looked up. */
  function LookupName(store: SchemaStore, from: seq<TableExpr>, column: string): Option<string> {
    if from == [] then None
    else if from[0].Join? then JoinFirstTable(from[0])
    else
      var all := Candidates(store, from, column);
      if FirstSubquery(from) == |from| && |all| == 1 then Some(all[0]) else None
  }

  /**
   The base table and column behind a column of a query, and the name it is visible under, read off the FROM clause.
   */
  function ColumnSource(store: SchemaStore, from: seq<TableExpr>, qualifier: string, name: string): Option<ColumnInfo>
    requires AllClear(HasColumn(store), from)
  {
    match if qualifier != "" then Some(qualifier) else LookupName(store, from, name)
    case None => None
    case Some(alias) =>
      match Resolve(ScopeOfAll(HasColumn(store), from), alias, name)
      case None => None
      case Some(Source(table, column)) => Some(ColumnInfo(column, table, alias))
  }

  /** findColumnInfo finds exactly that, for FROM lists of tables, joins and subqueries. */
  lemma ColumnSourceExact(store: SchemaStore, from: seq<TableExpr>, qualifier: string, name: string)
    requires AllClear(HasColumn(store), from)
    ensures match ColumnSource(store, from, qualifier, name)
            case Some(info) => FindColumnInfo(store, from, qualifier, name) == Ok(info)
            case None => FindColumnInfo(store, from, qualifier, name).Err?
  {
    hide FindInExprs, MatchedTable, AllClear, ScopeOfAll, Resolve;
    MatchedTableExact(store, from, name);
    assert from[..|from|] == from;
    var alias := if qualifier != "" then Some(qualifier) else LookupName(store, from, name);
    if alias.Some? { FindInExprsSource(HasColumn(store), alias.value, name, from); }
  }

  /** The setting of a result column that is a plain column. */
  function PlainColumnSetting(store: SchemaStore, from: seq<TableExpr>, qualifier: string,
                              name: string): Option<QueryDataItem>
    requires NoSubqueriesInAll(from)
  {
    NamedAreClear(HasColumn(store), from);
    match ColumnSource(store, from, qualifier, name)
    case Some(ColumnInfo(column, table, alias)) =>
      if table in store then SettingOf(store[table], table, column, alias) else None
    case None => None
  }

  /** It is the setting of the base table and column that the FROM clause gives. */
  lemma ColumnItem(store: SchemaStore, from: seq<TableExpr>, qualifier: string, name: string)
    requires NoSubqueriesInAll(from)
    ensures AllClear(HasColumn(store), from)
    ensures match ColumnSource(store, from, qualifier, name)
            case Some(info) =>
              if info.table in store
              then Describes(store, info.table, info.name, info.alias, PlainColumnSetting(store, from, qualifier, name))
              else PlainColumnSetting(store, from, qualifier, name).None?
            case None => PlainColumnSetting(store, from, qualifier, name).None?
  {
    NamedAreClear(HasColumn(store), from);
  }

  /** Exactly one leaf of a join has the column. */
  ghost predicate Owns(store: SchemaStore, ls: seq<Leaf>, column: string, k: nat) {
    && k < |ls| && (forall l :: l in ls ==> l.table in store) && column in store[ls[k].table].columns
    && forall i :: 0 <= i < |ls| && i != k ==> column !in store[ls[i].table].columns
  }

  lemma OneTableBindings(e: TableExpr)
    requires NoSubqueries(e)
    ensures NoSubqueriesInAll([e]) && BindingsOfAll([e]) == Bindings(e)
  {
    assert [e][1..] == [];
    assert NoSubqueriesInAll([e][1..]) && BindingsOfAll([e][1..]) == [];
  }

  /**
   An unqualified column of a join is looked up in the leftmost table: that is its real table exactly when the leftmost
   table owns the column and has no alias. Without an alias a column of another table is looked up in the wrong one.
   */
  lemma UnqualifiedInJoin(store: SchemaStore, e: TableExpr, name: string, k: nat)
    requires PlainJoin(e) && Parses(e) && AliasesDistinct(Leaves(e)) && NoSubqueries(e)
             && Owns(store, Leaves(e), name, k)
    ensures var r := FindColumnInfo(store, [e], "", name);
            && ((r.Ok? && r.value.table == Leaves(e)[k].table) <==> (k == 0 && JoinFirstTable(e).Some?))
            && (k != 0 && JoinFirstTable(e).Some? ==>
                  r.Ok? && r.value.table == Leaves(e)[0].table != Leaves(e)[k].table)
  {
    hide Leaves, Parses, FindInExprs;
    OneTableBindings(e);
    PlainBindings(e);
    if JoinFirstTable(e).Some? {
      LeftmostBinding(e);
      FindInExprsExact(JoinFirstTable(e).value, name, [e]);
    }
  }

  /** In `a join b` an unqualified column that only b has is looked up in a. */
  lemma UnqualifiedExample(store: SchemaStore)
    requires "a" in store && "b" in store && "x" !in store["a"].columns && "x" in store["b"].columns
    ensures var e := Join(Aliased(TableName("a"), ""), Aliased(TableName("b"), ""));
            FindColumnInfo(store, [e], "", "x") == Ok(ColumnInfo("x", "a", "a"))
  {
    var e := Join(Aliased(TableName("a"), ""), Aliased(TableName("b"), ""));
    OneTableBindings(e);
    FindInExprsExact("a", "x", [e]);
  }

  // ---- whole select lists ----------------------------------------------------------------------------------

  predicate Schemas(store: SchemaStore, from: seq<TableExpr>) {
    |from| == 1 && forall t :: t in TableOrder(from[0]) ==> t in store
  }

  /** A result expression of a valid query: a star, a star on a visible table, or a single column. */
  predicate Proper(from: seq<TableExpr>, e: SelectExpr)
    requires |from| == 1 && NoSubqueries(from[0])
  {
    if e.Star? then e.table == "" || StarTable(from, e.table).Ok? else Single(e)
  }

  /** A query over tables that all have a schema, with proper result expressions. */
  predicate ProperSelect(store: SchemaStore, s: SelectStatement) {
    && s.Select? && HasFrom(s) && Ordered(s.from) && Schemas(store, s.from)
    && NoSubqueries(s.from[0]) && NoSubqueriesInAll(s.from)
    && forall i :: 0 <= i < |s.exprs| ==> Proper(s.from, s.exprs[i])
  }

  /**
   The settings that the database's result columns ask for: all columns of all tables for a star, all columns of its
   table for a qualified star, one for anything else.
   */
  ghost predicate Aligned(store: SchemaStore, s: SelectStatement, k: nat, settings: Settings)
    requires ProperSelect(store, s) && k <= |s.exprs|
    decreases k
  {
    if k == 0 then settings == []
    else
      var j := k - 1;
      exists earlier :: Aligned(store, s, j, earlier) && Continues(store, s, j, earlier, settings)
  }

  ghost predicate Continues(store: SchemaStore, s: SelectStatement, k: nat, earlier: Settings, settings: Settings)
    requires ProperSelect(store, s) && k < |s.exprs|
  {
    assert Proper(s.from, s.exprs[k]);
    match s.exprs[k]
    case Star(table) =>
      if table == "" then settings == earlier + SettingsOfTables(store, TableOrder(s.from[0]))
      else
        && StarTable(s.from, table).Ok? && StarTable(s.from, table).value.table in store
        && var t := StarTable(s.from, table).value.table; settings == earlier + TableSettings(store[t], t)
    case AliasedExpr(_, _) => settings == earlier + [SingleSetting(store, s.from, s.exprs[k])]
  }

  /**
   The one setting of any other result expression; that of a scalar subquery is the one of its own result expression.
   */
  function SingleSetting(store: SchemaStore, from: seq<TableExpr>, e: SelectExpr): Option<QueryDataItem>
    requires NoSubqueriesInAll(from) && Single(e)
    decreases e
  {
    match e.expr
    case ColName(qualifier, name) => PlainColumnSetting(store, from, qualifier, name)
    case Scalar(Select(exprs, from')) => if |exprs| == 1 then SingleSetting(store, from', exprs[0]) else None
    case _ => None
  }

  lemma {:induction false} SelectAlignedUpTo(store: SchemaStore, s: SelectStatement, k: nat, tables: seq<string>,
                                             aliases: map<string, string>)
    requires ProperSelect(store, s) && k <= |s.exprs| && JoinInfo(s.from) == Some((tables, aliases))
    requires MappedUpTo(store, s, k, tables, aliases).Ok?
    ensures Aligned(store, s, k, AllSettings(store, MappedUpTo(store, s, k, tables, aliases).value))
    decreases k
  {
    hide AllSettings, EntrySettings, StarEntries, TableOrder, Continues;
    NoEntries(store);
    if k > 0 {
      SelectAlignedUpTo(store, s, k - 1, tables, aliases);
      var e := s.exprs[k - 1];
      var earlier := MappedUpTo(store, s, k - 1, tables, aliases).value;
      var more := ExprEntries(store, e, s.from, tables, aliases).value;
      AllSettingsAppend(store, earlier, more);
      OneMore(store, s, k - 1, tables, aliases, AllSettings(store, earlier));
    }
  }

  lemma OneMore(store: SchemaStore, s: SelectStatement, k: nat, tables: seq<string>, aliases: map<string, string>,
                earlier: Settings)
    requires ProperSelect(store, s) && k < |s.exprs| && JoinInfo(s.from) == Some((tables, aliases))
    requires ExprEntries(store, s.exprs[k], s.from, tables, aliases).Ok?
    ensures var more := ExprEntries(store, s.exprs[k], s.from, tables, aliases).value;
            Continues(store, s, k, earlier, earlier + AllSettings(store, more))
  {
    hide AllSettings, StarEntries, TableOrder, StarTable, SettingsOfTables;
    var e := s.exprs[k];
    var more := ExprEntries(store, e, s.from, tables, aliases).value;
    if e.Star? && e.table == "" {
      StarEntriesOrdered(s.from);
      AllOfEachSettings(store, TableOrder(s.from[0]));
    } else if e.Star? {
      QualifiedStar(s.from, e.table);
      OneEntry(store, more[0]);
    } else {
      OrderedNames(s.from);
      SingleSettingExact(store, s.from, e, tables, aliases);
    }
  }

  lemma {:induction false} SingleSettingExact(store: SchemaStore, from: seq<TableExpr>, e: SelectExpr,
                                              tables: seq<string>, aliases: map<string, string>)
    requires NoSubqueriesInAll(from) && Single(e) && ExprHasFrom(e) && ExprEntries(store, e, from, tables, aliases).Ok?
    ensures AllSettings(store, ExprEntries(store, e, from, tables, aliases).value) == [SingleSetting(store, from, e)]
    decreases e
  {
    hide AllSettings, ColumnSource, FindColumnInfo, MappedUpTo;
    var entries := ExprEntries(store, e, from, tables, aliases).value;
    SingleEntry(store, e, from, tables, aliases);
    assert entries == [entries[0]];
    OneEntry(store, entries[0]);
    match e.expr
    case ColName(qualifier, name) =>
      NamedAreClear(HasColumn(store), from);
      ColumnSourceExact(store, from, qualifier, name);
    case Scalar(Select(exprs, from')) =>
      var (tables', aliases') := JoinInfo(from').value;
      MappedOne(store, Select(exprs, from'), tables', aliases');
      SingleSettingExact(store, from', exprs[0], tables', aliases');
    case _ =>
  }

  lemma OrderedNames(from: seq<TableExpr>)
    requires Ordered(from)
    ensures NoSubqueriesInAll(from)
  {
    if from[0].Join? { PlainJoinNames(from[0]); }
    assert NoSubqueries(from[0]) && from[1..] == [];
    assert NoSubqueriesInAll(from[1..]);
  }

  lemma {:induction false} PlainJoinNames(e: TableExpr)
    requires PlainJoin(e)
    ensures NoSubqueries(e)
    decreases e
  {
    if e.left.Join? { PlainJoinNames(e.left); }
    if e.right.Paren? {
      PlainJoinNames(e.right.exprs[0]);
      assert e.right.exprs[1..] == [];
      assert NoSubqueriesInAll(e.right.exprs);
    }
  }

  /**
   Any select list of stars, qualified stars, columns and scalar subqueries over tables that all have a schema: the
   settings line up with the result columns, star columns table by table as written and column by column as configured.
   */
  lemma SelectAligned(store: SchemaStore, s: SelectStatement)
    requires ProperSelect(store, s) && Mapped(store, s).Ok?
    ensures Aligned(store, s, |s.exprs|, AllSettings(store, Mapped(store, s).value))
  {
    var (tables, aliases) := JoinInfo(s.from).value;
    SelectAlignedUpTo(store, s, |s.exprs|, tables, aliases);
  }

  /** SELECT * alone always succeeds on such a FROM clause. */
  lemma StarAligned(store: SchemaStore, from: seq<TableExpr>)
    requires Ordered(from) && Schemas(store, from)
    ensures var s := Select([Star("")], from);
            && HasFrom(s) && Mapped(store, s).Ok?
            && AllSettings(store, Mapped(store, s).value) == SettingsOfTables(store, TableOrder(from[0]))
  {
    hide StarEntries, TableOrder, AllSettings, SettingsOfTables, JoinInfo;
    StarEntriesOrdered(from);
    AllOfEachSettings(store, TableOrder(from[0]));
    StarMapped(store, from, AllOfEach(TableOrder(from[0])));
  }

  /** Column i of the k-th table of SELECT * gets its own setting, at the place that it has in the result. */
  lemma StarByPosition(store: SchemaStore, from: seq<TableExpr>, k: nat, i: nat)
    requires Ordered(from) && Schemas(store, from) && k < |TableOrder(from[0])|
    requires i < |store[TableOrder(from[0])[k]].columns|
    ensures var s, tables := Select([Star("")], from), TableOrder(from[0]);
            && HasFrom(s) && Mapped(store, s).Ok?
            && var settings, at := AllSettings(store, Mapped(store, s).value), Width(store, tables[..k]) + i;
               at < |settings| == Width(store, tables)
               && Describes(store, tables[k], store[tables[k]].columns[i], "", settings[at])
  {
    hide Mapped, AllSettings, TableOrder, Describes, SettingsOfTables;
    StarAligned(store, from);
    SettingsByPosition(store, TableOrder(from[0]), k, i);
  }

  lemma StarMapped(store: SchemaStore, from: seq<TableExpr>, entries: seq<Option<ColumnInfo>>)
    requires from != [] && JoinInfo(from).Some?
    requires StarEntries("", from, JoinInfo(from).value.0, JoinInfo(from).value.1) == Ok(entries)
    ensures HasFrom(Select([Star("")], from)) && Mapped(store, Select([Star("")], from)) == Ok(entries)
  {
    hide StarEntries, JoinInfo;
    var (tables, aliases) := JoinInfo(from).value;
    MappedOne(store, Select([Star("")], from), tables, aliases);
  }
}
