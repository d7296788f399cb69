/** What WHERE clauses mean, and that the tokenization rewrite keeps it. */
module TokenMeaning {
  import opened Outcomes
  import opened ByteStrings
  import opened TokenValues
  import opened TokenProtocol
  import opened Pseudonymizer
  import opened TokenRewrite
  import Decimal
  import L = LiteralCodec

  /** SQL's three truth values; Maybe is UNKNOWN. */
  datatype Truth = True | False | Maybe

  function Negation(a: Truth): Truth { match a case True => False case False => True case Maybe => Maybe }

  function Conjunction(a: Truth, b: Truth): Truth {
    if a == False || b == False then False else if a == True && b == True then True else Maybe
  }

  function Disjunction(a: Truth, b: Truth): Truth {
    if a == True || b == True then True else if a == False && b == False then False else Maybe
  }

  function Truly(b: bool): Truth { if b then True else False }

  /** What the database compares: numbers as numbers, everything else byte by byte. */
  datatype Scalar = Number(i: int) | Text(b: bytes)

  function ScalarOf(v: Value): Scalar {
    match v
    case Int32Value(i) => Number(i)
    case Int64Value(i) => Number(i)
    case StringValue(s) => Text(s)
    case BytesValue(b) => Text(b)
    case EmailValue(e) => Text(e)
  }

  /** The scalar that the contents of a literal denote against a column of a token type. */
  function Denotes(ty: TokenType, raw: bytes): Option<Scalar> {
    match ty
    case Int32 => (match Decimal.ParseInt(raw) case Some(i) => Some(Number(i)) case None => None)
    case Int64 => (match Decimal.ParseInt(raw) case Some(i) => Some(Number(i)) case None => None)
    case String => Some(Text(raw))
    case Bytes => Some(Text(raw))
    case Email => Some(Text(raw))
    case _ => None
  }

  /** A row: the value of every column, or NULL. */
  type Row = string -> Option<Value>

  /** The database's reading of comparisons that involve no token column. */
  type OtherComparisons = (Compare, Option<Value>, Option<Value>) -> Truth

  predicate TokenColumn(schema: Schema, name: string) { name in schema && schema[name].tokenType.Some? }

  function Cell(o: Operand<Lit>, row: Row): Option<Value> { if o.Column? then row(o.name) else None }

  function Equality(op: Operator, cell: Option<Value>, lit: Option<Scalar>): Truth {
    if lit.None? then Maybe
    else match cell
      case None => if op == NullSafeEqual then False else Maybe
      case Some(v) => Truly((ScalarOf(v) == lit.value) == (op != NotEqual))
  }

  /** A column of token type against a literal, under one of the three operators. */
  predicate AgainstLiteral(schema: Schema, x: Compare) {
    && x.left.Column? && TokenColumn(schema, x.left.name) && x.right.Literal? && L.Updatable(x.right.lit.ty)
    && x.op in {Equal, NotEqual, NullSafeEqual}
  }

  function Test(schema: Schema, c: L.Coder, other: OtherComparisons, x: Compare, row: Row): Truth {
    if AgainstLiteral(schema, x) then
      match L.Decode(c, x.right.lit.ty, x.right.lit.val)
      case Err(_) => Maybe
      case Ok(raw) => Equality(x.op, row(x.left.name), Denotes(schema[x.left.name].tokenType.value, raw))
    else
      other(x, Cell(x.left, row), Cell(x.right, row))
  }

  function Eval(schema: Schema, c: L.Coder, other: OtherComparisons, p: Cond<Compare>, row: Row): Truth {
    match p
    case And(l, r) => Conjunction(Eval(schema, c, other, l, row), Eval(schema, c, other, r, row))
    case Or(l, r) => Disjunction(Eval(schema, c, other, l, row), Eval(schema, c, other, r, row))
    case Not(inner) => Negation(Eval(schema, c, other, inner, row))
    case Paren(inner) => Eval(schema, c, other, inner, row)
    case IsNull(column) => Truly(row(column).None?)
    case Comparison(x) => Test(schema, c, other, x, row)
  }

  /** WHERE keeps the rows on which the clause is true. */
  predicate Selects(schema: Schema, c: L.Coder, other: OtherComparisons, p: Cond<Compare>, row: Row) {
    Eval(schema, c, other, p, row) == True
  }

  // ---- when the rewrite is exact ---------------------------------------------------------------------------

  function Ctx(schema: Schema, client: bytes, name: string): bytes
    requires name in schema
  {
    ContextKey(Context(schema[name], client))
  }

  /** A column with a client id of its own is shared by all clients, any other only if writer and reader are one. */
  predicate SharesTokens(schema: Schema, writer: bytes, client: bytes, name: string)
    requires name in schema
  {
    schema[name].clientID != [] || writer == client
  }

  lemma ColumnContexts(schema: Schema, writer: bytes, client: bytes, name: string)
    requires name in schema
    ensures Ctx(schema, writer, name) == Ctx(schema, client, name) <==> SharesTokens(schema, writer, client, name)
  {
    ContextsApart(Context(schema[name], writer), Context(schema[name], client));
  }

  /**
   The stored row holds, in place of each value of a token column, a token that a call of the writing client returned
   for it.
   */
  ghost predicate StoredAs(schema: Schema, writer: bytes, s: System, row: Row, row': Row) {
    forall name: string {:trigger row(name)} {:trigger row'(name)} ::
      if TokenColumn(schema, name) then
        && (row(name).None? <==> row'(name).None?)
        && (row(name).Some? ==>
              && row'(name).Some?
              && Returned(Call(row(name).value, Ctx(schema, writer, name), schema[name].tokenType.value,
                               schema[name].consistent), row'(name).value) in s.history)
      else row'(name) == row(name)
  }

  /** Some recorded call met a collision of the digest function. */
  ghost predicate SomeCollision(hash: Hash, s: System) {
    exists call, token :: Returned(call, token) in s.history && CollisionMet(hash, s, call)
  }

  predicate Mentions(schema: Schema, o: Operand<Lit>) { o.Column? && TokenColumn(schema, o.name) }

  /** Token columns occur on the left of =, !=, <=> with a supported literal on the right, and nowhere else. */
  predicate Eligible(schema: Schema, x: Compare) {
    AgainstLiteral(schema, x) && Supported(x.right.lit.ty) && schema[x.left.name].consistent
  }

  predicate Covered(schema: Schema, x: Compare) {
    Eligible(schema, x) || (!Mentions(schema, x.left) && !Mentions(schema, x.right))
  }

  /** The literal is in the range of the column's type. */
  predicate Fits(ty: TokenType, raw: bytes) {
    ty.Int32? && Decimal.ParseInt(raw).Some? ==> -TWO_31 <= Decimal.ParseInt(raw).value < TWO_31
  }

  /** The comparison has the same truth value on the row and on its stored form, after the rewrite. */
  predicate Safe(schema: Schema, c: L.Coder, x: Compare, row: Row)
    requires Eligible(schema, x)
  {
    var ty, raw := schema[x.left.name].tokenType.value, L.Decode(c, x.right.lit.ty, x.right.lit.val);
    match row(x.left.name)
    case None => x.op != NullSafeEqual
    case Some(v) => raw.Ok? ==> Fits(ty, raw.value) || ParseData(raw.value, ty) != Ok(v)
  }

  /** The literal can carry its token; see LiteralCodec.Legible. */
  ghost predicate TokenLegible(schema: Schema, c: L.Coder, client: bytes, s: System, x: Compare)
    requires Eligible(schema, x)
  {
    forall raw, tokenized :: L.Decode(c, x.right.lit.ty, x.right.lit.val) == Ok(raw) &&
      TokenizedTo(s, raw, Ctx(schema, client, x.left.name), schema[x.left.name].tokenType.value, true, tokenized)
      ==> L.Legible(c, x.right.lit.ty, tokenized)
  }

  lemma RenderDenotes(v: Value)
    ensures Denotes(TypeOf(v), Render(v)) == Some(ScalarOf(v))
  {
    hide Decimal.FormatInt, Decimal.ParseInt;
    match v
    case Int32Value(i) => Decimal.ParseFormat(i);
    case Int64Value(i) => Decimal.ParseFormat(i);
    case _ =>
  }

  lemma ScalarInjective(v: Value, w: Value)
    requires TypeOf(v) == TypeOf(w)
    ensures ScalarOf(v) == ScalarOf(w) <==> v == w
  {
  }

  /** Tokens of one column agree exactly when their plaintexts do. */
  lemma TokensFaithful(hash: Hash, s: System, ctx: bytes, ty: TokenType, v: Value, t: Value, w: Value, u: Value)
    requires Reachable(hash, s)
    requires Returned(Call(v, ctx, ty, true), t) in s.history && Returned(Call(w, ctx, ty, true), u) in s.history
    ensures SomeCollision(hash, s) || (ScalarOf(t) == ScalarOf(u) <==> v == w)
  {
    hide CollisionMet;
    ReturnedTyped(hash, s, Call(v, ctx, ty, true), t);
    ReturnedTyped(hash, s, Call(w, ctx, ty, true), u);
    ScalarInjective(t, u);
    if v == w {
      Agreement(hash, s, Call(v, ctx, ty, true), t, Call(w, ctx, ty, true), u);
    } else if t == u {
      TokensSeparate(hash, s, Call(v, ctx, ty, true), Call(w, ctx, ty, true), t);
    }
  }

  /** A literal denotes a value of the column exactly when it parses to it, provided it fits. */
  lemma DenotesValue(ty: TokenType, raw: bytes, v: Value)
    requires ParseData(raw, ty).Ok? && TypeOf(v) == ty
    ensures Denotes(ty, raw).Some?
    ensures Denotes(ty, raw) == Some(ScalarOf(v)) ==> Fits(ty, raw) && ParseData(raw, ty) == Ok(v)
    ensures Fits(ty, raw) && ParseData(raw, ty) == Ok(v) ==> Denotes(ty, raw) == Some(ScalarOf(v))
  {
  }

  /** The rewritten literal denotes the token. */
  lemma RewrittenLiteral(hash: Hash, s: System, schema: Schema, c: L.Coder, client: bytes, x: Compare, y: Compare)
      returns (p: Value, u: Value)
    requires Reachable(hash, s) && Eligible(schema, x) && RewritesLeaf(schema, c, client, s, x, y)
    requires TokenLegible(schema, c, client, s, x)
    ensures y.op == Changed(x.op) && y.left == x.left && AgainstLiteral(schema, y)
    ensures var raw, ty := L.Decode(c, x.right.lit.ty, x.right.lit.val), schema[x.left.name].tokenType.value;
            && raw.Ok? && ParseData(raw.value, ty) == Ok(p)
            && Returned(Call(p, Ctx(schema, client, x.left.name), ty, true), u) in s.history
            && L.Decode(c, y.right.lit.ty, y.right.lit.val).Ok?
            && Denotes(ty, L.Decode(c, y.right.lit.ty, y.right.lit.val).value) == Some(ScalarOf(u))
  {
    hide L.Decode, L.Legible, Reachable, ParseData, Render, Denotes;
    var setting := schema[x.left.name];
    assert Picked(schema, x) == Some(setting);
    var tokenized :| Tokenized(c, s, setting, client, x.right.lit, y.right.lit, tokenized);
    var raw := L.Decode(c, x.right.lit.ty, x.right.lit.val).value;
    var ty := setting.tokenType.value;
    p := ParseData(raw, ty).value;
    u :| Returned(Call(p, Ctx(schema, client, x.left.name), ty, true), u) in s.history && tokenized == Render(u);
    ReturnedTyped(hash, s, Call(p, Ctx(schema, client, x.left.name), ty, true), u);
    RenderDenotes(u);
    assert c.Supports(x.right.lit.ty);
    L.EncodeThenDecode(c, x.right.lit.ty, tokenized);
  }

  /** A rewritten comparison keeps its truth value exactly when it is safe. */
  lemma LeafExact(hash: Hash, s: System, schema: Schema, c: L.Coder, writer: bytes, client: bytes,
                  other: OtherComparisons, x: Compare, y: Compare, row: Row, row': Row)
    requires Reachable(hash, s) && Eligible(schema, x) && RewritesLeaf(schema, c, client, s, x, y)
    requires StoredAs(schema, writer, s, row, row') && TokenLegible(schema, c, client, s, x)
    ensures SharesTokens(schema, writer, client, x.left.name) ==>
              SomeCollision(hash, s) ||
              (Test(schema, c, other, y, row') == Test(schema, c, other, x, row) <==> Safe(schema, c, x, row))
    ensures row(x.left.name).None? ==>
              Test(schema, c, other, x, row) == if x.op == NullSafeEqual then False else Maybe
    ensures row(x.left.name).None? ==> Test(schema, c, other, y, row') == Maybe
  {
    hide L.Decode, L.Legible, Reachable, ParseData, Render, Denotes, Fits, RewritesLeaf, TokenLegible, SomeCollision;
    var p, u := RewrittenLiteral(hash, s, schema, c, client, x, y);
    var name := x.left.name;
    var ty := schema[name].tokenType.value;
    var raw := L.Decode(c, x.right.lit.ty, x.right.lit.val).value;
    DenotesValue(ty, raw, p);
    if row(name).Some? && SharesTokens(schema, writer, client, name) {
      ColumnContexts(schema, writer, client, name);
      var v, t := row(name).value, row'(name).value;
      TokensFaithful(hash, s, Ctx(schema, client, name), ty, v, t, p, u);
      ReturnedDataTyped(hash, s, Call(v, Ctx(schema, client, name), ty, true), t);
      DenotesValue(ty, raw, v);
    }
  }

  lemma ReturnedDataTyped(hash: Hash, s: System, call: Call, token: Value)
    requires Reachable(hash, s) && Returned(call, token) in s.history
    ensures TypeOf(call.data) == call.ty
  {
    ReachableInvariant(hash, s);
    assert OutcomeHolds(hash, s.store, Returned(call, token));
  }

  // ---- whole clauses ---------------------------------------------------------------------------------------

  /**
   What is asked of a clause on a row: every comparison is covered, its column shares its tokens with the writer, its
   literal can carry a token, and it is safe; a null-safe comparison with a NULL cell may also stand under an even
   number of negations.
   */
  ghost predicate Admits(schema: Schema, c: L.Coder, writer: bytes, client: bytes, s: System, p: Cond<Compare>,
                         row: Row, positive: bool) {
    match p
    case And(l, r) =>
      && Admits(schema, c, writer, client, s, l, row, positive)
      && Admits(schema, c, writer, client, s, r, row, positive)
    case Or(l, r) =>
      && Admits(schema, c, writer, client, s, l, row, positive)
      && Admits(schema, c, writer, client, s, r, row, positive)
    case Not(inner) => Admits(schema, c, writer, client, s, inner, row, !positive)
    case Paren(inner) => Admits(schema, c, writer, client, s, inner, row, positive)
    case IsNull(_) => true
    case Comparison(x) => AdmitsLeaf(schema, c, writer, client, s, x, row, positive)
  }

  ghost predicate AdmitsLeaf(schema: Schema, c: L.Coder, writer: bytes, client: bytes, s: System, x: Compare, row: Row,
                             positive: bool) {
    && Covered(schema, x)
    && (Eligible(schema, x) ==>
          && SharesTokens(schema, writer, client, x.left.name) && TokenLegible(schema, c, client, s, x)
          && (Safe(schema, c, x, row) || (positive && row(x.left.name).None?)))
  }

  /**
   Under an even number of negations the clause is true on the same rows, under an odd number it is false on the same
   rows.
   */
  predicate SameVerdict(a: Truth, b: Truth, positive: bool) {
    if positive then a == True <==> b == True else a == False <==> b == False
  }

  lemma LeafVerdict(hash: Hash, s: System, schema: Schema, c: L.Coder, writer: bytes, client: bytes,
                    other: OtherComparisons, x: Compare, y: Compare, row: Row, row': Row, positive: bool)
    requires Reachable(hash, s) && RewritesLeaf(schema, c, client, s, x, y) && StoredAs(schema, writer, s, row, row')
    requires AdmitsLeaf(schema, c, writer, client, s, x, row, positive)
    ensures SomeCollision(hash, s) ||
            SameVerdict(Test(schema, c, other, x, row), Test(schema, c, other, y, row'), positive)
  {
    hide L.Decode, Reachable, Test, Safe, SomeCollision, TokenLegible;
    if Eligible(schema, x) {
      hide RewritesLeaf;
      LeafExact(hash, s, schema, c, writer, client, other, x, y, row, row');
    } else {
      LeafUntouched(schema, c, writer, client, s, other, x, y, row, row');
    }
  }

  lemma LeafUntouched(schema: Schema, c: L.Coder, writer: bytes, client: bytes, s: System, other: OtherComparisons,
                      x: Compare, y: Compare, row: Row, row': Row)
    requires RewritesLeaf(schema, c, client, s, x, y) && StoredAs(schema, writer, s, row, row')
    requires !Mentions(schema, x.left) && !Mentions(schema, x.right)
    ensures Test(schema, c, other, x, row) == Test(schema, c, other, y, row')
  {
    assert y == x;
    assert Cell(x.left, row) == Cell(x.left, row') && Cell(x.right, row) == Cell(x.right, row');
  }

  lemma {:induction false} SameVerdicts(hash: Hash, s: System, schema: Schema, c: L.Coder, writer: bytes, client: bytes,
                                        other: OtherComparisons,
                                        p: Cond<Compare>, q: Cond<Compare>, row: Row, row': Row, positive: bool)
    requires Reachable(hash, s) && Rewrites(schema, c, client, s, p, q) && StoredAs(schema, writer, s, row, row')
    requires Admits(schema, c, writer, client, s, p, row, positive)
    ensures SomeCollision(hash, s) ||
            SameVerdict(Eval(schema, c, other, p, row), Eval(schema, c, other, q, row'), positive)
    decreases p
  {
    hide Reachable, RewritesLeaf, AdmitsLeaf, Test, SomeCollision;
    match p
    case And(l, r) =>
      SameVerdicts(hash, s, schema, c, writer, client, other, l, q.left, row, row', positive);
      SameVerdicts(hash, s, schema, c, writer, client, other, r, q.right, row, row', positive);
    case Or(l, r) =>
      SameVerdicts(hash, s, schema, c, writer, client, other, l, q.left, row, row', positive);
      SameVerdicts(hash, s, schema, c, writer, client, other, r, q.right, row, row', positive);
    case Not(inner) => SameVerdicts(hash, s, schema, c, writer, client, other, inner, q.inner, row, row', !positive);
    case Paren(inner) => SameVerdicts(hash, s, schema, c, writer, client, other, inner, q.inner, row, row', positive);
    case IsNull(column) => assert row(column).None? <==> row'(column).None?;
    case Comparison(x) => LeafVerdict(hash, s, schema, c, writer, client, other, x, q.leaf, row, row', positive);
  }

  /**
   The rewrite keeps the meaning of the WHERE clause: in every reachable state, on every row and the form in which any
   client stored it, the rewritten clause selects the stored row exactly when the original selects the row, or two
   recorded calls collide.
   Literals that were never tokenized before are covered, since the rewrite itself tokenizes them.
   */
  lemma RewriteKeepsMeaning(hash: Hash, s: System, schema: Schema, c: L.Coder, writer: bytes, client: bytes,
                            other: OtherComparisons, p: Cond<Compare>, q: Cond<Compare>, row: Row, row': Row)
    requires Reachable(hash, s) && Rewrites(schema, c, client, s, p, q) && StoredAs(schema, writer, s, row, row')
    requires Admits(schema, c, writer, client, s, p, row, true)
    ensures SomeCollision(hash, s) || (Selects(schema, c, other, q, row') <==> Selects(schema, c, other, p, row))
  {
    SameVerdicts(hash, s, schema, c, writer, client, other, p, q, row, row', true);
  }

  /**
   A column that does not share its tokens: `column = v` selects the row that another client stored, and after the
   rewrite it does so only if the tokens of the two clients happen to be equal.
   */
  lemma ForeignRow(hash: Hash, s: System, schema: Schema, c: L.Coder, writer: bytes, client: bytes,
                   other: OtherComparisons, x: Compare, y: Compare, row: Row, row': Row) returns (mine: Value)
    requires Reachable(hash, s) && Eligible(schema, x) && RewritesLeaf(schema, c, client, s, x, y)
    requires StoredAs(schema, writer, s, row, row') && TokenLegible(schema, c, client, s, x) && x.op == Equal
    requires var raw, ty := L.Decode(c, x.right.lit.ty, x.right.lit.val), schema[x.left.name].tokenType.value;
             && raw.Ok? && Fits(ty, raw.value) && row(x.left.name).Some?
             && ParseData(raw.value, ty) == Ok(row(x.left.name).value)
    requires !SharesTokens(schema, writer, client, x.left.name)
    ensures Selects(schema, c, other, Comparison(x), row)
    ensures Selects(schema, c, other, Comparison(y), row') <==> row'(x.left.name) == Some(mine)
    ensures var ty, v := schema[x.left.name].tokenType.value, row(x.left.name).value;
            && Ctx(schema, writer, x.left.name) != Ctx(schema, client, x.left.name)
            && Returned(Call(v, Ctx(schema, writer, x.left.name), ty, true), row'(x.left.name).value) in s.history
            && Returned(Call(v, Ctx(schema, client, x.left.name), ty, true), mine) in s.history
  {
    hide L.Decode, L.Legible, Reachable, ParseData, Render, Denotes, Fits, RewritesLeaf, TokenLegible;
    var p, u := RewrittenLiteral(hash, s, schema, c, client, x, y);
    mine := u;
    var name := x.left.name;
    var ty, t := schema[name].tokenType.value, row'(name).value;
    ColumnContexts(schema, writer, client, name);
    ReturnedTyped(hash, s, Call(p, Ctx(schema, client, name), ty, true), u);
    ReturnedTyped(hash, s, Call(p, Ctx(schema, writer, name), ty, true), t);
    ReturnedDataTyped(hash, s, Call(p, Ctx(schema, client, name), ty, true), u);
    ScalarInjective(t, u);
    DenotesValue(ty, L.Decode(c, x.right.lit.ty, x.right.lit.val).value, p);
  }

  /** NOT (column <=> v) selects the rows whose column is NULL; after the rewrite it does not. */
  lemma NegatedNullSafeLosesRows(hash: Hash, s: System, schema: Schema, c: L.Coder, writer: bytes, client: bytes,
                                 other: OtherComparisons, x: Compare, y: Compare, row: Row, row': Row)
    requires Reachable(hash, s) && Eligible(schema, x) && RewritesLeaf(schema, c, client, s, x, y)
    requires StoredAs(schema, writer, s, row, row') && TokenLegible(schema, c, client, s, x)
    requires x.op == NullSafeEqual && row(x.left.name).None?
    ensures Selects(schema, c, other, Not(Comparison(x)), row) && !Selects(schema, c, other, Not(Comparison(y)), row')
  {
    hide Test, RewritesLeaf, StoredAs, TokenLegible, Reachable, SomeCollision, Safe;
    LeafExact(hash, s, schema, c, writer, client, other, x, y, row, row');
    assert Eval(schema, c, other, Comparison(x), row) == False && Eval(schema, c, other, Comparison(y), row') == Maybe;
  }

  /** A literal beyond the range of its column selects, after the rewrite, the rows that hold its truncation. */
  lemma WideLiteralSelects(hash: Hash, s: System, schema: Schema, c: L.Coder, writer: bytes, client: bytes,
                           other: OtherComparisons, x: Compare, y: Compare, row: Row, row': Row)
    requires Reachable(hash, s) && Eligible(schema, x) && RewritesLeaf(schema, c, client, s, x, y)
    requires StoredAs(schema, writer, s, row, row') && TokenLegible(schema, c, client, s, x) && x.op == Equal
    requires var raw, ty := L.Decode(c, x.right.lit.ty, x.right.lit.val), schema[x.left.name].tokenType.value;
             raw.Ok? && ParseData(raw.value, ty).Ok? && !Fits(ty, raw.value)
               && row(x.left.name) == Some(ParseData(raw.value, ty).value)
    requires SharesTokens(schema, writer, client, x.left.name)
    ensures !Selects(schema, c, other, Comparison(x), row) && Selects(schema, c, other, Comparison(y), row')
  {
    hide L.Decode, L.Legible, Reachable, ParseData, Render, Denotes, Fits, RewritesLeaf, TokenLegible;
    var p, u := RewrittenLiteral(hash, s, schema, c, client, x, y);
    var name := x.left.name;
    var ty := schema[name].tokenType.value;
    var raw := L.Decode(c, x.right.lit.ty, x.right.lit.val).value;
    DenotesValue(ty, raw, p);
    ColumnContexts(schema, writer, client, name);
    Agreement(hash, s, Call(p, Ctx(schema, client, name), ty, true), u, Call(p, Ctx(schema, client, name), ty, true),
              row'(name).value);
  }

  /** For a 32-bit column, `column = 4294967297` selects no row before the rewrite and the rows that hold 1 after it. */
  lemma WideLiteralWraps(hash: Hash, s: System, schema: Schema, c: L.Coder, writer: bytes, client: bytes,
                         other: OtherComparisons, name: string, y: Compare, row: Row, row': Row)
    requires name in schema && schema[name].consistent && schema[name].tokenType == Some(Int32)
    requires var x := Compare(Equal, Column(name), Literal(Lit(L.IntVal, Decimal.FormatInt(4294967297))));
             Eligible(schema, x) && RewritesLeaf(schema, c, client, s, x, y) && TokenLegible(schema, c, client, s, x)
    requires Reachable(hash, s) && StoredAs(schema, writer, s, row, row') && row(name) == Some(Int32Value(1))
    requires SharesTokens(schema, writer, client, name)
    ensures var x := Compare(Equal, Column(name), Literal(Lit(L.IntVal, Decimal.FormatInt(4294967297))));
            !Selects(schema, c, other, Comparison(x), row) && Selects(schema, c, other, Comparison(y), row')
  {
    hide Selects, RewritesLeaf, TokenLegible, StoredAs, Reachable, Decimal.FormatInt, Decimal.ParseInt;
    var x := Compare(Equal, Column(name), Literal(Lit(L.IntVal, Decimal.FormatInt(4294967297))));
    Decimal.ParseFormat(4294967297);
    WideLiteralSelects(hash, s, schema, c, writer, client, other, x, y, row, row');
  }

  /** Tokens of numeric columns can be carried by every kind of literal. */
  lemma NumericTokensLegible(c: L.Coder, ty: L.ValType, token: Value)
    requires token.Int32Value? || token.Int64Value?
    ensures L.Legible(c, ty, Render(token))
  {
    var t := Render(token);
    assert L.BACKSLASH !in t;
    if |t| >= 2 { assert t[..2][0] == t[0] != L.HEX_PREFIX[0]; }
  }
}
