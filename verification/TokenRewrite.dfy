/**
 The rewrite of WHERE clauses on consistently tokenized columns (pseudonymization/tokenizeQuery.go,
 encryptor/searchable_query_filter.go): `column = v` becomes `column = token(v)`, and the rewritten clause must select
 among the stored tokens the rows that the original selects among the plaintexts.
 */
module TokenRewrite {
  import opened Outcomes
  import opened ByteStrings
  import opened TokenValues
  import opened TokenProtocol
  import opened Pseudonymizer
  import Decimal
  import L = LiteralCodec

  datatype Operator = Equal | NotEqual | NullSafeEqual | Like | NotLike | ILike | NotILike | Less | Greater
                    | OtherOperator

  datatype Operand<T> = Column(name: string) | Literal(lit: T) | OtherOperand

  /** A WHERE clause over comparisons of some form. */
  datatype Cond<T> = And(left: Cond<T>, right: Cond<T>) | Or(left: Cond<T>, right: Cond<T>) | Not(inner: Cond<T>)
                   | Paren(inner: Cond<T>) | IsNull(column: string) | Comparison(leaf: T)

  /** A comparison of the parse tree; the rewrite changes its operator and its literal in place. */
  class ComparisonExpr {
    var Operator: Operator
    const Left: Operand<L.SQLVal>
    const Right: Operand<L.SQLVal>

    constructor (op: Operator, left: Operand<L.SQLVal>, right: Operand<L.SQLVal>)
      ensures Operator == op && Left == left && Right == right
    {
      Operator, Left, Right := op, left, right;
    }

    ghost function Objects(): set<object> { {this} + LiteralOf(Left) + LiteralOf(Right) }

    function Value(): Compare
      reads Objects()
    {
      Compare(Operator, OperandValue(Left), OperandValue(Right))
    }
  }

  ghost function LiteralOf(o: Operand<L.SQLVal>): set<object> { if o.Literal? then {o.lit} else {} }

  /** A literal and a comparison as values. */
  datatype Lit = Lit(ty: L.ValType, val: bytes)
  datatype Compare = Compare(op: Operator, left: Operand<Lit>, right: Operand<Lit>)

  function OperandValue(o: Operand<L.SQLVal>): Operand<Lit>
    reads LiteralOf(o)
  {
    match o
    case Column(name) => Column(name)
    case Literal(v) => Literal(Lit(v.Type, v.Val))
    case OtherOperand => OtherOperand
  }

  /** The comparisons in the order of the tree walk. */
  function Leaves<T>(t: Cond<T>): seq<T> {
    match t
    case And(l, r) => Leaves(l) + Leaves(r)
    case Or(l, r) => Leaves(l) + Leaves(r)
    case Not(inner) => Leaves(inner)
    case Paren(inner) => Leaves(inner)
    case IsNull(_) => []
    case Comparison(leaf) => [leaf]
  }

  ghost function Objects(leaves: seq<ComparisonExpr>): set<object> {
    set c, o | c in leaves && o in c.Objects() :: o
  }

  /** What the comparisons say at this moment. */
  ghost function Values(leaves: seq<ComparisonExpr>): map<ComparisonExpr, Compare>
    reads Objects(leaves)
  {
    map c | c in leaves :: c.Value()
  }

  /** The clause as a value. */
  ghost function Fill(t: Cond<ComparisonExpr>, values: map<ComparisonExpr, Compare>): Cond<Compare>
    requires forall c :: c in Leaves(t) ==> c in values
  {
    match t
    case And(l, r) => And(Fill(l, values), Fill(r, values))
    case Or(l, r) => Or(Fill(l, values), Fill(r, values))
    case Not(inner) => Not(Fill(inner, values))
    case Paren(inner) => Paren(Fill(inner, values))
    case IsNull(c) => IsNull(c)
    case Comparison(leaf) => Comparison(values[leaf])
  }

  /** What the parse tree says at this moment. */
  ghost function Snapshot(t: Cond<ComparisonExpr>): Cond<Compare>
    reads Objects(Leaves(t))
  {
    Fill(t, Values(Leaves(t)))
  }

  // ---- finding the comparisons -----------------------------------------------------------------------------

  /** A column's settings; an empty client id means that of the connection. */
  datatype Setting = Setting(searchable: bool, consistent: bool, tokenType: Option<TokenType>, clientID: bytes)

  type Schema = map<string, Setting>

  datatype Item = Item(expr: ComparisonExpr, setting: Setting)

  predicate Supported(ty: L.ValType) {
    ty in {L.PgEscapeString, L.HexVal, L.StrVal, L.PgPlaceholder, L.ValArg, L.IntVal}
  }

  /** The settings under which a comparison is picked up. */
  function Picked(schema: Schema, x: Compare): Option<Setting> {
    if !x.left.Column? || x.left.name !in schema then None
    else
      var setting := schema[x.left.name];
      if !setting.searchable && !setting.consistent then None
      else match x.right
        case Column(name) => if name in schema && schema[name].searchable then Some(schema[name]) else None
        case Literal(lit) =>
          if Supported(lit.ty) && x.op in {Equal, NotEqual, NullSafeEqual} then Some(setting) else None
        case OtherOperand => None
  }

  /**
   What is picked up: a column that is searchable or consistently tokenized, compared by =, != or <=> with a placeholder
   or a literal whose contents some database can read, other than a hex number, under the column's settings; and its
   comparison with a searchable column, under that column's settings.
   */
  lemma PickedExact(schema: Schema, x: Compare, setting: Setting)
    ensures Picked(schema, x) == Some(setting) <==>
            && x.left.Column? && x.left.name in schema
            && (schema[x.left.name].searchable || schema[x.left.name].consistent)
            && ((x.right.Column? && x.right.name in schema && schema[x.right.name] == setting && setting.searchable)
                || (x.right.Literal? && schema[x.left.name] == setting && x.op in {Equal, NotEqual, NullSafeEqual}
                    && (x.right.lit.ty.ValArg? || x.right.lit.ty.PgPlaceholder? || Readable(x.right.lit.ty))))
  {
    if x.right.Literal? { SupportedExact(x.right.lit.ty); }
  }

  predicate Readable(ty: L.ValType) {
    !ty.HexNum? && (L.Encryptable(L.MySQL, ty) || L.Encryptable(L.PostgreSQL, ty))
  }

  lemma SupportedExact(ty: L.ValType)
    ensures Supported(ty) <==> ty.ValArg? || ty.PgPlaceholder? || Readable(ty)
  {
    match ty
    case StrVal => case IntVal => case FloatVal => case HexNum => case HexVal =>
    case ValArg => case BitVal => case PgEscapeString => case PgPlaceholder => case UnknownVal =>
  }

  ghost function Items(schema: Schema, leaves: seq<ComparisonExpr>): seq<Item>
    reads Objects(leaves)
  {
    if leaves == [] then []
    else
      var c := leaves[0];
      assert forall d :: d in leaves[1..] ==> d in leaves;
      (if Picked(schema, c.Value()).Some? then [Item(c, Picked(schema, c.Value()).value)] else [])
        + Items(schema, leaves[1..])
  }

  lemma {:induction false} ItemsAppend(schema: Schema, a: seq<ComparisonExpr>, b: seq<ComparisonExpr>)
    ensures Items(schema, a + b) == Items(schema, a) + Items(schema, b)
    decreases |a|
  {
    if a == [] {
      assert a + b == b;
    } else {
      assert (a + b)[1..] == a[1..] + b;
      ItemsAppend(schema, a[1..], b);
    }
  }

  /** Exactly the comparisons that are picked up appear, each under its own settings. */
  lemma {:induction false} ItemsExact(schema: Schema, leaves: seq<ComparisonExpr>, item: Item)
    ensures item in Items(schema, leaves) <==>
              item.expr in leaves && Picked(schema, item.expr.Value()) == Some(item.setting)
    decreases |leaves|
  {
    if leaves != [] {
      ItemsExact(schema, leaves[1..], item);
      assert leaves == [leaves[0]] + leaves[1..];
    }
  }

  /** FilterSearchableComparisons: the visitor of the walk appends to the list. */
  method FilterSearchableComparisons(schema: Schema, t: Cond<ComparisonExpr>) returns (items: seq<Item>)
    ensures items == old(Items(schema, Leaves(t))) == Items(schema, Leaves(t))
    ensures Values(Leaves(t)) == old(Values(Leaves(t)))
  {
    hide Picked;
    items := [];
    var nodes := Leaves(t);
    for k := 0 to |nodes|
      invariant Values(nodes) == old(Values(nodes)) && Items(schema, nodes) == old(Items(schema, nodes))
      invariant items == Items(schema, nodes[..k])
    {
      var setting := Picked(schema, nodes[k].Value());
      ItemsAppend(schema, nodes[..k], [nodes[k]]);
      ItemsOne(schema, nodes[k]);
      assert nodes[..k + 1] == nodes[..k] + [nodes[k]];
      if setting.Some? { items := items + [Item(nodes[k], setting.value)]; }
    }
    assert nodes[..|nodes|] == nodes;
  }

  lemma ItemsOne(schema: Schema, c: ComparisonExpr)
    ensures Items(schema, [c]) ==
            if Picked(schema, c.Value()).Some? then [Item(c, Picked(schema, c.Value()).value)] else []
  {
    assert [c][1..] == [];
  }

  // ---- the rewrite -----------------------------------------------------------------------------------------

  /** ChangeSearchableOperator. */
  function Changed(op: Operator): Operator {
    match op
    case Equal => Equal case NullSafeEqual => Equal case Like => Equal case ILike => Equal
    case NotEqual => NotEqual case NotLike => NotEqual case NotILike => NotEqual
    case _ => op
  }

  /** The client whose tokens a column uses. */
  function Context(setting: Setting, client: bytes): TokenContext {
    TokenContext(if setting.clientID != [] then setting.clientID else client, [])
  }

  /** The rewrite touches the comparison. */
  predicate Touched(schema: Schema, x: Compare) {
    Picked(schema, x).Some? && Picked(schema, x).value.tokenType.Some? && x.right.Literal?
  }

  /** The literal's contents have been replaced by a token that a recorded call returned for them. */
  ghost predicate Tokenized(c: L.Coder, s: System, setting: Setting, client: bytes, x: Lit, y: Lit, tokenized: bytes)
    requires setting.tokenType.Some?
  {
    && L.Decode(c, x.ty, x.val).Ok? && L.Encode(c, x.ty, tokenized) == Ok((y.ty, y.val))
    && TokenizedTo(s, L.Decode(c, x.ty, x.val).value, ContextKey(Context(setting, client)), setting.tokenType.value,
                   setting.consistent, tokenized)
    && tokenized != L.Decode(c, x.ty, x.val).value
  }

  /** What the rewrite makes of a comparison; placeholders keep their text. */
  ghost predicate RewritesLeaf(schema: Schema, c: L.Coder, client: bytes, s: System, x: Compare, y: Compare) {
    if !Touched(schema, x) then y == x
    else
      && y.left == x.left && y.op == Changed(x.op) && y.right.Literal?
      && if !L.Updatable(x.right.lit.ty) then y.right == x.right
         else exists tokenized :: Tokenized(c, s, Picked(schema, x).value, client, x.right.lit, y.right.lit, tokenized)
  }

  ghost predicate Rewrites(schema: Schema, c: L.Coder, client: bytes, s: System, p: Cond<Compare>, q: Cond<Compare>) {
    match p
    case And(l, r) => q.And? && Rewrites(schema, c, client, s, l, q.left) && Rewrites(schema, c, client, s, r, q.right)
    case Or(l, r) => q.Or? && Rewrites(schema, c, client, s, l, q.left) && Rewrites(schema, c, client, s, r, q.right)
    case Not(inner) => q.Not? && Rewrites(schema, c, client, s, inner, q.inner)
    case Paren(inner) => q.Paren? && Rewrites(schema, c, client, s, inner, q.inner)
    case IsNull(_) => q == p
    case Comparison(x) => q.Comparison? && RewritesLeaf(schema, c, client, s, x, q.leaf)
  }

  /** Later steps of the run do not undo a rewrite. */
  lemma RewritesLater(schema: Schema, c: L.Coder, client: bytes, s: System, s': System, x: Compare, y: Compare)
    requires s.history <= s'.history && RewritesLeaf(schema, c, client, s, x, y)
    ensures RewritesLeaf(schema, c, client, s', x, y)
  {
    if Touched(schema, x) && L.Updatable(x.right.lit.ty) {
      var setting := Picked(schema, x).value;
      var tokenized :| Tokenized(c, s, setting, client, x.right.lit, y.right.lit, tokenized);
      assert Tokenized(c, s', setting, client, x.right.lit, y.right.lit, tokenized);
    }
  }

  datatype QueryError = Updating(update: L.UpdateError) | Tokenizing(token: TokenError) | BadPlaceholder

  // ---- placeholders ----------------------------------------------------------------------------------------

  /**
   What ParsePlaceholderIndex makes of a literal: no placeholder at all, one without a number, or a zero-based position.
   */
  datatype Placeholder = NoPlaceholder | Malformed | Index(index: int)

  /** "$" and ":v" */
  const PG_PREFIX: bytes := [36]
  const MYSQL_PREFIX: bytes := [58, 118]

  function ParsePlaceholderIndex(x: Lit): Placeholder {
    match x.ty
    case PgPlaceholder => NumberAfter(x.val, PG_PREFIX)
    case ValArg => NumberAfter(x.val, MYSQL_PREFIX)
    case _ => NoPlaceholder
  }

  function NumberAfter(text: bytes, prefix: bytes): Placeholder {
    match Decimal.ParseInt(if HasPrefix(text, prefix) then text[|prefix|..] else text)
    case Some(i) => Index(i - 1)
    case None => Malformed
  }

  /** The placeholder of the n-th value, counted from one, stands for position n - 1. */
  lemma PlaceholderOfValue(n: nat)
    requires n < TWO_63
    ensures ParsePlaceholderIndex(Lit(L.PgPlaceholder, PG_PREFIX + Decimal.FormatInt(n))) == Index(n - 1)
    ensures ParsePlaceholderIndex(Lit(L.ValArg, MYSQL_PREFIX + Decimal.FormatInt(n))) == Index(n - 1)
    ensures ParsePlaceholderIndex(Lit(L.ValArg, Decimal.FormatInt(n))) == Index(n - 1)
  {
    hide Decimal.ParseInt;
    var t := Decimal.FormatInt(n);
    Decimal.ParseFormat(n);
    assert t != [] && t[0] != MYSQL_PREFIX[0];
    assert (PG_PREFIX + t)[..1] == PG_PREFIX && (PG_PREFIX + t)[1..] == t;
    assert (MYSQL_PREFIX + t)[..2] == MYSQL_PREFIX && (MYSQL_PREFIX + t)[2..] == t;
  }

  /** The settings of the values that will be bound, by position. */
  type BindSettings = map<int, Setting>

  function Bound(settings: BindSettings, setting: Setting, x: Compare): BindSettings {
    if setting.tokenType.Some? && x.right.Literal? && ParsePlaceholderIndex(x.right.lit).Index?
    then settings[ParsePlaceholderIndex(x.right.lit).index := setting] else settings
  }

  ghost function AllBound(settings: BindSettings, items: seq<Item>, before: map<ComparisonExpr, Compare>): BindSettings
    requires forall j :: 0 <= j < |items| ==> items[j].expr in before
  {
    if items == [] then settings
    else var n := |items| - 1; Bound(AllBound(settings, items[..n], before), items[n].setting, before[items[n].expr])
  }

  /**
   Why an item fails: it is a placeholder without a number, its literal cannot be decoded, its contents cannot be
   tokenized, or they are equal to their token.
   */
  ghost predicate Fails(c: L.Coder, s: System, setting: Setting, client: bytes, x: Lit, error: QueryError) {
    if error.BadPlaceholder? then ParsePlaceholderIndex(x).Malformed?
    else
      && L.Updatable(x.ty) && setting.tokenType.Some?
      && var raw, ctx, ty := L.Decode(c, x.ty, x.val), ContextKey(Context(setting, client)), setting.tokenType.value;
         match error
         case Tokenizing(e) => raw.Ok? && TokenizingFails(s, raw.value, ctx, ty, setting.consistent, e)
         case Updating(Unchanged) =>
           raw == Err(L.Unsupported) || (raw.Ok? && TokenizedTo(s, raw.value, ctx, ty, setting.consistent, raw.value))
         case Updating(Coding(e)) => raw == Err(e)
         case Updating(UpdateFailed(_)) => false
         case BadPlaceholder => false
  }

  /** Updates leave placeholders alone and make none. */
  lemma StillThePlaceholder(c: L.Coder, x: Lit, y: Lit, update: L.Updater)
    requires L.Updated(c, update, x.ty, x.val, y.ty, y.val, None)
    ensures ParsePlaceholderIndex(y) == ParsePlaceholderIndex(x)
  {
    hide L.Decode, L.Legible, NumberAfter;
  }

  /** A comparison whose operator is already changed and whose literal is not. */
  function Begun(x: Compare): Compare { x.(op := Changed(x.op)) }

  /** One item of OnQuery. */
  method RewriteItem(ghost schema: Schema, item: Item, c: L.Coder, tokenizer: DataTokenizer, client: bytes,
                     settings: BindSettings)
    returns (error: Option<QueryError>, settings': BindSettings)
    requires tokenizer.tokenizer.Ready() && Picked(schema, item.expr.Value()) == Some(item.setting)
    modifies item.expr, LiteralOf(item.expr.Right), tokenizer.tokenizer.storage
    ensures tokenizer.tokenizer.Ready()
    ensures old(tokenizer.tokenizer.storage.sys).history <= tokenizer.tokenizer.storage.sys.history
    ensures error.None? ==> RewritesLeaf(schema, c, client, tokenizer.tokenizer.storage.sys,
                                         old(item.expr.Value()), item.expr.Value())
    ensures error.Some? ==> item.expr.Right.Literal?
    ensures error.Some? ==> Fails(c, tokenizer.tokenizer.storage.sys, item.setting, client,
                                  old(item.expr.Value().right.lit), error.value)
    ensures error.Some? ==> item.expr.Value() == Begun(old(item.expr.Value())) && settings' == settings
    ensures error.None? ==> settings' == Bound(settings, item.setting, old(item.expr.Value()))
    ensures error.None? && Touched(schema, old(item.expr.Value()))
            ==> !ParsePlaceholderIndex(old(item.expr.Value()).right.lit).Malformed?
  {
    hide Traced, L.Decode, L.Encode, L.Legible, TokenizedTo, TokenizingFails, NumberAfter;
    settings' := settings;
    if item.setting.tokenType.None? || !item.expr.Right.Literal? { return None, settings; }
    ghost var lit := Lit(item.expr.Right.lit.Type, item.expr.Right.lit.Val);
    var val := item.expr.Right.lit;
    item.expr.Operator := Changed(item.expr.Operator);
    var raw := L.Decode(c, val.Type, val.Val);
    var newData := [];
    if L.Updatable(val.Type) && raw.Ok? {
      var r := tokenizer.Tokenize(raw.value, Context(item.setting, client), item.setting.tokenType.value,
                                  item.setting.consistent);
      if r.Err? { return Some(Tokenizing(r.error)), settings; }
      newData := r.value;
    }
    var e := L.UpdateExpressionValue(c, L.Literal(val), _ => Ok(newData));
    if e.Some? { return Some(Updating(e.value)), settings; }
    StillThePlaceholder(c, lit, Lit(val.Type, val.Val), _ => Ok(newData));
    match ParsePlaceholderIndex(Lit(val.Type, val.Val)) {
      case NoPlaceholder =>
      case Malformed => return Some(BadPlaceholder), settings;
      case Index(i) => settings' := settings[i := item.setting];
    }
    error := None;
    if L.Updatable(old(val.Type)) {
      assert Tokenized(c, tokenizer.tokenizer.storage.sys, item.setting, client, old(Lit(val.Type, val.Val)),
                       Lit(val.Type, val.Val), newData);
    }
  }

  /** The parser shares no nodes. */
  ghost predicate Separate(leaves: seq<ComparisonExpr>) {
    && (forall i, j :: 0 <= i < j < |leaves| ==> leaves[i] != leaves[j])
    && (forall x, y :: x in leaves && y in leaves && x != y ==> x.Objects() !! y.Objects())
  }

  lemma {:induction false} ItemsDistinct(schema: Schema, leaves: seq<ComparisonExpr>, i: nat, j: nat)
    requires forall i, j :: 0 <= i < j < |leaves| ==> leaves[i] != leaves[j]
    requires i < j < |Items(schema, leaves)|
    ensures Items(schema, leaves)[i].expr != Items(schema, leaves)[j].expr
    decreases |leaves|
  {
    hide Picked;
    var rest := Items(schema, leaves[1..]);
    if Picked(schema, leaves[0].Value()).Some? {
      assert Items(schema, leaves)[j] == rest[j - 1];
      if i > 0 {
        ItemsDistinct(schema, leaves[1..], i - 1, j - 1);
      } else {
        ItemsExact(schema, leaves[1..], rest[j - 1]);
      }
    } else {
      ItemsDistinct(schema, leaves[1..], i, j);
    }
  }

  ghost predicate AllRewritten(schema: Schema, c: L.Coder, client: bytes, s: System, leaves: seq<ComparisonExpr>,
                               before: map<ComparisonExpr, Compare>, after: map<ComparisonExpr, Compare>)
  {
    forall x :: x in leaves ==> x in before && x in after && RewritesLeaf(schema, c, client, s, before[x], after[x])
  }

  /** The leaf relation lifts to the tree. */
  lemma {:induction false} TreeRewritten(schema: Schema, c: L.Coder, client: bytes, s: System, t: Cond<ComparisonExpr>,
                                         before: map<ComparisonExpr, Compare>, after: map<ComparisonExpr, Compare>)
    requires AllRewritten(schema, c, client, s, Leaves(t), before, after)
    ensures Rewrites(schema, c, client, s, Fill(t, before), Fill(t, after))
    decreases t
  {
    hide RewritesLeaf;
    match t
    case And(l, r) =>
      TreeRewritten(schema, c, client, s, l, before, after);
      TreeRewritten(schema, c, client, s, r, before, after);
    case Or(l, r) =>
      TreeRewritten(schema, c, client, s, l, before, after);
      TreeRewritten(schema, c, client, s, r, before, after);
    case Not(inner) => TreeRewritten(schema, c, client, s, inner, before, after);
    case Paren(inner) => TreeRewritten(schema, c, client, s, inner, before, after);
    case IsNull(_) =>
    case Comparison(x) => assert x in Leaves(t);
  }

  /** The items are the comparisons that are picked up, each once. */
  ghost predicate Filters(schema: Schema, nodes: seq<ComparisonExpr>, items: seq<Item>,
                          before: map<ComparisonExpr, Compare>) {
    && (forall i, j :: 0 <= i < j < |items| ==> items[i].expr != items[j].expr)
    && (forall j :: 0 <= j < |items| ==> items[j].expr in nodes && items[j].expr in before
                                         && Picked(schema, before[items[j].expr]) == Some(items[j].setting))
    && (forall x :: x in nodes && x in before && Picked(schema, before[x]).Some? ==> ItemFor(items, x))
  }

  ghost predicate ItemFor(items: seq<Item>, x: ComparisonExpr) { exists j :: 0 <= j < |items| && items[j].expr == x }

  lemma ItemsFilter(schema: Schema, nodes: seq<ComparisonExpr>)
    requires Separate(nodes)
    ensures Filters(schema, nodes, Items(schema, nodes), Values(nodes))
  {
    hide Picked, Items;
    var items := Items(schema, nodes);
    forall i, j | 0 <= i < j < |items| ensures items[i].expr != items[j].expr { ItemsDistinct(schema, nodes, i, j); }
    forall j | 0 <= j < |items|
      ensures items[j].expr in nodes && Picked(schema, items[j].expr.Value()) == Some(items[j].setting)
    {
      ItemsExact(schema, nodes, items[j]);
    }
    forall x | x in nodes && Picked(schema, x.Value()).Some? ensures ItemFor(items, x) {
      ItemsExact(schema, nodes, Item(x, Picked(schema, x.Value()).value));
    }
  }

  /** The first k items are done and nothing else has changed. */
  ghost predicate Progress(schema: Schema, c: L.Coder, client: bytes, s: System, nodes: seq<ComparisonExpr>,
                           items: seq<Item>,
                           k: nat, before: map<ComparisonExpr, Compare>, now: map<ComparisonExpr, Compare>)
  {
    && k <= |items| && (forall x :: x in nodes ==> x in before && x in now)
    && (forall x :: x in nodes && !ItemFor(items[..k], x) ==> now[x] == before[x])
    && (forall j :: 0 <= j < k ==> items[j].expr in nodes)
    && (forall j :: 0 <= j < k ==> RewritesLeaf(schema, c, client, s, before[items[j].expr], now[items[j].expr]))
  }

  lemma ProgressStep(schema: Schema, c: L.Coder, client: bytes, s: System, s': System, nodes: seq<ComparisonExpr>,
                     items: seq<Item>,
                     k: nat, before: map<ComparisonExpr, Compare>, now: map<ComparisonExpr, Compare>, y: Compare)
    requires k < |items| && Filters(schema, nodes, items, before) && s.history <= s'.history
    requires Progress(schema, c, client, s, nodes, items, k, before, now)
    requires RewritesLeaf(schema, c, client, s', before[items[k].expr], y)
    ensures Progress(schema, c, client, s', nodes, items, k + 1, before, now[items[k].expr := y])
  {
    hide RewritesLeaf, Picked;
    var next := now[items[k].expr := y];
    forall x | x in nodes && !ItemFor(items[..k + 1], x) ensures next[x] == before[x] {
      assert items[..k + 1][k].expr != x;
      assert forall j :: 0 <= j < k ==> items[..k + 1][j].expr != x && items[..k][j] == items[..k + 1][j];
    }
    forall j | 0 <= j < k + 1 ensures RewritesLeaf(schema, c, client, s', before[items[j].expr], next[items[j].expr]) {
      if j < k { RewritesLater(schema, c, client, s, s', before[items[j].expr], now[items[j].expr]); }
    }
  }

  lemma ProgressEnd(schema: Schema, c: L.Coder, client: bytes, s: System, nodes: seq<ComparisonExpr>, items: seq<Item>,
                    before: map<ComparisonExpr, Compare>, now: map<ComparisonExpr, Compare>)
    requires Filters(schema, nodes, items, before) && Progress(schema, c, client, s, nodes, items, |items|, before, now)
    ensures AllRewritten(schema, c, client, s, nodes, before, now)
  {
    hide RewritesLeaf, Picked;
    assert items[..|items|] == items;
    forall x | x in nodes ensures RewritesLeaf(schema, c, client, s, before[x], now[x]) {
      if ItemFor(items, x) {
        var j :| 0 <= j < |items| && items[j].expr == x;
      } else {
        Untouched(schema, c, client, s, before[x]);
      }
    }
  }

  lemma Untouched(schema: Schema, c: L.Coder, client: bytes, s: System, x: Compare)
    requires Picked(schema, x).None?
    ensures RewritesLeaf(schema, c, client, s, x, x)
  {
  }

  /** RewriteItem inside a tree: the other comparisons keep their values. */
  method RewriteNode(ghost schema: Schema, ghost nodes: seq<ComparisonExpr>, item: Item, c: L.Coder,
                     tokenizer: DataTokenizer, client: bytes, settings: BindSettings)
    returns (error: Option<QueryError>, settings': BindSettings)
    requires tokenizer.tokenizer.Ready() && Separate(nodes) && tokenizer.tokenizer.storage !in Objects(nodes)
    requires item.expr in nodes && Picked(schema, item.expr.Value()) == Some(item.setting)
    modifies Objects(nodes), tokenizer.tokenizer.storage
    ensures tokenizer.tokenizer.Ready()
    ensures old(tokenizer.tokenizer.storage.sys).history <= tokenizer.tokenizer.storage.sys.history
    ensures error.None? ==> RewritesLeaf(schema, c, client, tokenizer.tokenizer.storage.sys,
                                         old(item.expr.Value()), item.expr.Value())
    ensures error.Some? ==> item.expr.Right.Literal?
    ensures error.Some? ==> Fails(c, tokenizer.tokenizer.storage.sys, item.setting, client,
                                  old(item.expr.Value().right.lit), error.value)
    ensures error.Some? ==> item.expr.Value() == Begun(old(item.expr.Value())) && settings' == settings
    ensures error.None? ==> settings' == Bound(settings, item.setting, old(item.expr.Value()))
    ensures Values(nodes) == old(Values(nodes))[item.expr := item.expr.Value()]
  {
    hide RewritesLeaf, Picked, Traced, Fails, Bound;
    assert item.expr.Objects() <= Objects(nodes);
    assert tokenizer.tokenizer.storage !in item.expr.Objects();
    error, settings' := RewriteItem(schema, item, c, tokenizer, client, settings);
    forall x | x in nodes && x != item.expr ensures x.Value() == old(x.Value()) {
      assert x.Objects() <= Objects(nodes);
      assert x.Objects() !! item.expr.Objects();
    }
  }

  /**
   The k-th picked comparison fails, as it stood in the query. The ones before it are rewritten, its own operator is
   changed, and nothing else is.
   */
  ghost predicate StopsAt(schema: Schema, c: L.Coder, client: bytes, s: System, nodes: seq<ComparisonExpr>,
                          items: seq<Item>, k: nat, before: map<ComparisonExpr, Compare>,
                          after: map<ComparisonExpr, Compare>, error: QueryError)
  {
    && k < |items| && items[k].expr in before && before[items[k].expr].right.Literal?
    && Fails(c, s, items[k].setting, client, before[items[k].expr].right.lit, error)
    && items[k].expr in after && after[items[k].expr] == Begun(before[items[k].expr])
    && Progress(schema, c, client, s, nodes, items, k, before, after[items[k].expr := before[items[k].expr]])
  }

  lemma ProgressLater(schema: Schema, c: L.Coder, client: bytes, s: System, s': System, nodes: seq<ComparisonExpr>,
                      items: seq<Item>, k: nat, before: map<ComparisonExpr, Compare>, now: map<ComparisonExpr, Compare>)
    requires s.history <= s'.history && Progress(schema, c, client, s, nodes, items, k, before, now)
    ensures Progress(schema, c, client, s', nodes, items, k, before, now)
  {
    hide RewritesLeaf;
    forall j | 0 <= j < k ensures RewritesLeaf(schema, c, client, s', before[items[j].expr], now[items[j].expr]) {
      RewritesLater(schema, c, client, s, s', before[items[j].expr], now[items[j].expr]);
    }
  }

  lemma Stopped(schema: Schema, c: L.Coder, client: bytes, s: System, s': System, nodes: seq<ComparisonExpr>,
                items: seq<Item>, k: nat, before: map<ComparisonExpr, Compare>, now: map<ComparisonExpr, Compare>,
                after: map<ComparisonExpr, Compare>, error: QueryError)
    requires s.history <= s'.history && Progress(schema, c, client, s, nodes, items, k, before, now)
    requires k < |items| && Filters(schema, nodes, items, before) && before[items[k].expr].right.Literal?
    requires Fails(c, s', items[k].setting, client, before[items[k].expr].right.lit, error)
    requires after == now[items[k].expr := Begun(before[items[k].expr])]
    ensures StopsAt(schema, c, client, s', nodes, items, k, before, after, error)
  {
    hide Progress, Fails, Picked;
    NextUnchanged(schema, c, client, s, nodes, items, k, before, now);
    ProgressLater(schema, c, client, s, s', nodes, items, k, before, now);
    CoversNodes(schema, c, client, s, nodes, items, k, before, now);
    assert after[items[k].expr := before[items[k].expr]] == now;
  }

  lemma CoversNodes(schema: Schema, c: L.Coder, client: bytes, s: System, nodes: seq<ComparisonExpr>,
                    items: seq<Item>, k: nat, before: map<ComparisonExpr, Compare>, now: map<ComparisonExpr, Compare>)
    requires Progress(schema, c, client, s, nodes, items, k, before, now)
    ensures forall x :: x in nodes ==> x in now
  {
  }

  /**
   OnQuery. The query counts as changed when some comparison was picked up and none failed; `done` counts the picked
   comparisons that were handled without an error.
   */
  method OnQuery(schema: Schema, t: Cond<ComparisonExpr>, c: L.Coder, tokenizer: DataTokenizer, client: bytes,
                 bindSettings: BindSettings)
    returns (changed: bool, error: Option<QueryError>, settings: BindSettings, ghost done: nat)
    requires tokenizer.tokenizer.Ready() && Separate(Leaves(t)) && tokenizer.tokenizer.storage !in Objects(Leaves(t))
    modifies Objects(Leaves(t)), tokenizer.tokenizer.storage
    ensures tokenizer.tokenizer.Ready()
    ensures old(tokenizer.tokenizer.storage.sys).history <= tokenizer.tokenizer.storage.sys.history
    ensures error.None? ==> Rewrites(schema, c, client, tokenizer.tokenizer.storage.sys, old(Snapshot(t)), Snapshot(t))
    ensures changed <==> error.None? && old(Items(schema, Leaves(t))) != []
    ensures error.Some? ==> StopsAt(schema, c, client, tokenizer.tokenizer.storage.sys, Leaves(t),
                                    old(Items(schema, Leaves(t))), done, old(Values(Leaves(t))), Values(Leaves(t)),
                                    error.value)
    ensures Filters(schema, Leaves(t), old(Items(schema, Leaves(t))), old(Values(Leaves(t))))
    ensures done <= |old(Items(schema, Leaves(t)))| && (error.None? ==> done == |old(Items(schema, Leaves(t)))|)
    ensures settings == AllBound(bindSettings, old(Items(schema, Leaves(t)))[..done], old(Values(Leaves(t))))
  {
    hide RewritesLeaf, Picked, Traced, Items, Progress, Objects, Fails, Bound, StopsAt;
    var items := FilterSearchableComparisons(schema, t);
    ghost var nodes := Leaves(t);
    ghost var before := Values(nodes);
    ItemsFilter(schema, nodes);
    changed, error, settings, done := false, None, bindSettings, 0;
    assert Progress(schema, c, client, tokenizer.tokenizer.storage.sys, nodes, items, 0, before, before) by {
      ProgressStart(schema, c, client, tokenizer.tokenizer.storage.sys, nodes, items, before);
    }
    for k := 0 to |items|
      invariant tokenizer.tokenizer.Ready()
      invariant old(tokenizer.tokenizer.storage.sys).history <= tokenizer.tokenizer.storage.sys.history
      invariant Progress(schema, c, client, tokenizer.tokenizer.storage.sys, nodes, items, k, before, Values(nodes))
      invariant settings == AllBound(bindSettings, items[..k], before)
    {
      ghost var sys := tokenizer.tokenizer.storage.sys;
      ghost var now := Values(nodes);
      NextUnchanged(schema, c, client, sys, nodes, items, k, before, now);
      var e, settings' := RewriteNode(schema, nodes, items[k], c, tokenizer, client, settings);
      if e.Some? {
        Stopped(schema, c, client, sys, tokenizer.tokenizer.storage.sys, nodes, items, k, before, now, Values(nodes),
                e.value);
        return false, e, settings, k;
      }
      assert items[..k + 1][..k] == items[..k];
      settings := settings';
      ProgressStep(schema, c, client, sys, tokenizer.tokenizer.storage.sys, nodes, items, k, before, now,
                   items[k].expr.Value());
    }
    changed, done := items != [], |items|;
    assert items[..|items|] == items;
    ProgressEnd(schema, c, client, tokenizer.tokenizer.storage.sys, nodes, items, before, Values(nodes));
    TreeRewritten(schema, c, client, tokenizer.tokenizer.storage.sys, t, before, Values(nodes));
  }

  lemma ProgressStart(schema: Schema, c: L.Coder, client: bytes, s: System, nodes: seq<ComparisonExpr>,
                      items: seq<Item>, before: map<ComparisonExpr, Compare>)
    requires forall x :: x in nodes ==> x in before
    ensures Progress(schema, c, client, s, nodes, items, 0, before, before)
  {
  }

  lemma NextUnchanged(schema: Schema, c: L.Coder, client: bytes, s: System, nodes: seq<ComparisonExpr>,
                      items: seq<Item>, k: nat, before: map<ComparisonExpr, Compare>, now: map<ComparisonExpr, Compare>)
    requires k < |items| && Filters(schema, nodes, items, before)
    requires Progress(schema, c, client, s, nodes, items, k, before, now)
    ensures now[items[k].expr] == before[items[k].expr]
  {
    hide RewritesLeaf, Picked;
    assert forall j :: 0 <= j < k ==> items[..k][j].expr != items[k].expr;
  }
}
