/**
 Printing statements with tracked bind variables (sqlparser/tracked_buffer.go, the Format methods of
 sqlparser/ast_methods.go), over a reduced syntax tree.
 */
module QueryText {
  datatype ValType = StrVal | IntVal | FloatVal | HexNum | HexVal | BitVal | ValArg | PgEscapeString | PgPlaceholder

  /** Node types with a fixed number of children; Absent is a nil child. */
  datatype Kind = Absent | Name(text: string) | And | Or | Not | Paren | Comparison(operator: string) | Tuple
                | Func(name: string, distinct: bool) | Subquery | Where(clause: string) | Aliased(alias: string)
                | Order(direction: string) | LimitOnly | LimitOffset | Assign
                | Select(cache: string, distinctness: string, hints: string, lock: string) | Update

  /**
   A syntax tree; List is an Exprs, SelectExprs, TableExprs, GroupBy or OrderBy with what it prints before the first
   element.
   */
  datatype Node = Val(ty: ValType, val: string, castType: string)
                | ListArg(arg: string)
                | Op(kind: Kind, nodes: seq<Node>)
                | List(lead: string, nodes: seq<Node>)

  /** The encoders of package sqltypes and the number parsers behind sqltypes.NewValue. */
  datatype Env = Env(quote: string -> string, escape: string -> string, isInt: string -> bool, isFloat: string -> bool)

  const VALUE_MASK := "replaced"

  predicate StartsWith(s: string, prefix: string) { |prefix| <= |s| && s[..|prefix|] == prefix }

  // ---- pieces of a printed query ---------------------------------------------------------------------------

  /** A character, or a bind variable with its colons. */
  datatype Piece = Chr(c: char) | Arg(arg: string)

  function Chars(s: string): (r: seq<Piece>)
    ensures |r| == |s|
  {
    seq(|s|, i requires 0 <= i < |s| => Chr(s[i]))
  }

  lemma CharsAppend(a: string, b: string)
    ensures Chars(a + b) == Chars(a) + Chars(b)
  {
  }

  function PieceText(p: Piece): string { match p case Chr(c) => [c] case Arg(a) => a }

  function Text(ps: seq<Piece>): string {
    if ps == [] then "" else Text(ps[..|ps| - 1]) + PieceText(ps[|ps| - 1])
  }

  datatype BindLocation = BindLocation(offset: nat, length: nat)

  function Locations(ps: seq<Piece>): seq<BindLocation> {
    if ps == [] then []
    else
      var n := |ps| - 1;
      Locations(ps[..n]) + if ps[n].Arg? then [BindLocation(|Text(ps[..n])|, |ps[n].arg|)] else []
  }

  lemma {:induction false} TextAppend(a: seq<Piece>, b: seq<Piece>)
    ensures Text(a + b) == Text(a) + Text(b)
    decreases |b|
  {
    hide Text;
    if b == [] {
      TextNil();
      assert a + b == a;
    } else {
      var n := |b| - 1;
      var front, last := b[..n], b[n];
      assert b == front + [last];
      TextAppend(a, front);
      TextSnoc(front, last);
      TextSnoc(a + front, last);
      assert a + b == a + front + [last];
      Concat(Text(a), Text(front), PieceText(last));
    }
  }

  lemma TextNil()
    ensures Text([]) == ""
  {
  }

  lemma TextSnoc(ps: seq<Piece>, p: Piece)
    ensures Text(ps + [p]) == Text(ps) + PieceText(p)
  {
    assert (ps + [p])[..|ps|] == ps;
  }

  lemma Concat(a: string, b: string, c: string)
    ensures (a + b) + c == a + (b + c)
  {
  }

  lemma {:induction false} TextOfChars(s: string)
    ensures Text(Chars(s)) == s && Locations(Chars(s)) == []
    decreases |s|
  {
    if s != "" {
      var n := |s| - 1;
      TextOfChars(s[..n]);
      assert Chars(s)[..n] == Chars(s[..n]);
    }
  }

  lemma {:induction false} CharsKeepLocations(ps: seq<Piece>, s: string)
    ensures Locations(ps + Chars(s)) == Locations(ps)
    decreases |s|
  {
    if s == "" {
      assert ps + Chars(s) == ps;
    } else {
      var n := |s| - 1;
      CharsKeepLocations(ps, s[..n]);
      assert (ps + Chars(s))[..|ps + Chars(s)| - 1] == ps + Chars(s[..n]);
    }
  }

  lemma ArgAppends(ps: seq<Piece>, arg: string)
    ensures Text(ps + [Arg(arg)]) == Text(ps) + arg
    ensures Locations(ps + [Arg(arg)]) == Locations(ps) + [BindLocation(|Text(ps)|, |arg|)]
  {
    assert (ps + [Arg(arg)])[..|ps|] == ps;
  }

  // ---- format strings --------------------------------------------------------------------------------------

  /** A part of a format string: text, a string put in by %s, or a child put in by %v. */
  datatype Verb = T(text: string) | V(child: nat)

  /** The format string of a node type, split at its verbs. */
  function Layout(kind: Kind): (vs: seq<Verb>)
    ensures forall i :: 0 <= i < |vs| && vs[i].V? ==> vs[i].child < Arity(kind)
  {
    match kind
    case Absent => []
    case Name(text) => [T(text)]
    case And => [V(0), T(" and "), V(1)]
    case Or => [V(0), T(" or "), V(1)]
    case Not => [T("not "), V(0)]
    case Paren => [T("("), V(0), T(")")]
    case Comparison(operator) => [V(0), T(" "), T(operator), T(" "), V(1)]
    case Tuple => [T("("), V(0), T(")")]
    case Func(name, distinct) => [T(name), T("("), T(if distinct then "distinct " else ""), V(0), T(")")]
    case Subquery => [T("("), V(0), T(")")]
    case Where(clause) => [T(" "), T(clause), T(" "), V(0)]
    case Aliased(alias) => if alias == "" then [V(0)] else [V(0), T(" as "), T(alias)]
    case Order(direction) => [V(0), T(" "), T(direction)]
    case LimitOnly => [T(" limit "), V(0)]
    case LimitOffset => [T(" limit "), V(1), T(" offset "), V(0)]
    case Assign => [V(0), T(" = "), V(1)]
    case Select(cache, distinctness, hints, lock) =>
      [T("select "), V(0), T(cache), T(distinctness), T(hints), V(1), T(" from "), V(2), V(3), V(4), V(5), V(6), V(7),
       T(lock)]
    case Update => [T("update "), V(0), V(1), T(" set "), V(2), V(3), V(4), V(5)]
  }

  function Arity(kind: Kind): nat {
    match kind
    case Absent => 0 case Name(_) => 0
    case And => 2 case Or => 2 case Comparison(_) => 2 case Assign => 2 case LimitOffset => 2
    case Select(_, _, _, _) => 8 case Update => 6
    case _ => 1
  }

  /** The format with each %v replaced by what the child prints. */
  function Expand(vs: seq<Verb>, parts: seq<seq<Piece>>): seq<Piece>
    requires forall i :: 0 <= i < |vs| && vs[i].V? ==> vs[i].child < |parts|
  {
    if vs == [] then []
    else
      var n := |vs| - 1;
      Expand(vs[..n], parts) + match vs[n] case T(text) => Chars(text) case V(i) => parts[i]
  }

  /** Every node has as many children as its type asks for. */
  predicate WellFormed(n: Node) {
    match n
    case Val(_, _, _) => true
    case ListArg(_) => true
    case Op(kind, nodes) => |nodes| == Arity(kind) && forall i :: 0 <= i < |nodes| ==> WellFormed(nodes[i])
    case List(_, nodes) => forall i :: 0 <= i < |nodes| ==> WellFormed(nodes[i])
  }

  /** How a bind variable is printed: only masked names keep theirs. */
  function PrintedArg(val: string): string {
    if !(|val| >= 2 && StartsWith(val[1..], VALUE_MASK)) && StartsWith(val, ":") then "?" else val
  }

  function LiteralPieces(env: Env, ty: ValType, val: string): seq<Piece> {
    match ty
    case StrVal => Chars(env.quote(val))
    case HexVal => Chars("X'" + val + "'")
    case BitVal => Chars("B'" + val + "'")
    case ValArg => [Arg(PrintedArg(val))]
    case PgEscapeString => Chars("E'" + env.escape(val) + "'")
    case _ => Chars(val)
  }

  /** What a node prints. */
  function Pieces(env: Env, n: Node): seq<Piece>
    requires WellFormed(n)
    decreases n, 0
  {
    match n
    case Val(ty, val, castType) => LiteralPieces(env, ty, val) + Chars(castType)
    case ListArg(arg) => [Arg(arg)]
    case Op(kind, nodes) => Expand(Layout(kind), PiecesOfAll(env, nodes))
    case List(lead, nodes) => Joined(lead, PiecesOfAll(env, nodes))
  }

  function PiecesOfAll(env: Env, nodes: seq<Node>): (r: seq<seq<Piece>>)
    requires forall i :: 0 <= i < |nodes| ==> WellFormed(nodes[i])
    ensures |r| == |nodes| && forall i :: 0 <= i < |nodes| ==> r[i] == Pieces(env, nodes[i])
    decreases nodes, 1
  {
    seq(|nodes|, i requires 0 <= i < |nodes| => Pieces(env, nodes[i]))
  }

  /** The lead, then the parts separated by commas; nothing for no parts. */
  function Joined(lead: string, parts: seq<seq<Piece>>): seq<Piece>
    decreases |parts|
  {
    if parts == [] then [] else Chars(lead) + parts[0] + Joined(", ", parts[1..])
  }

  // ---- the printed text, node type by node type ------------------------------------------------------------

  function LiteralText(env: Env, ty: ValType, val: string): string {
    match ty
    case StrVal => env.quote(val)
    case IntVal => val
    case FloatVal => val
    case HexNum => val
    case HexVal => "X'" + val + "'"
    case BitVal => "B'" + val + "'"
    case ValArg => if StartsWith(val, ":") && !StartsWith(val, ":" + VALUE_MASK) then "?" else val
    case PgEscapeString => "E'" + env.escape(val) + "'"
    case PgPlaceholder => val
  }

  /** What SQL text each node stands for. */
  function Printed(env: Env, n: Node): string
    requires WellFormed(n)
    decreases n, 0
  {
    match n
    case Val(ty, val, castType) => LiteralText(env, ty, val) + castType
    case ListArg(arg) => arg
    case List(lead, nodes) => PrintedList(env, lead, nodes)
    case Op(kind, nodes) =>
      match kind
      case Absent => ""
      case Name(text) => text
      case And => Printed(env, nodes[0]) + " and " + Printed(env, nodes[1])
      case Or => Printed(env, nodes[0]) + " or " + Printed(env, nodes[1])
      case Not => "not " + Printed(env, nodes[0])
      case Paren => "(" + Printed(env, nodes[0]) + ")"
      case Comparison(operator) => Printed(env, nodes[0]) + " " + operator + " " + Printed(env, nodes[1])
      case Tuple => "(" + Printed(env, nodes[0]) + ")"
      case Func(name, distinct) => name + "(" + (if distinct then "distinct " else "") + Printed(env, nodes[0]) + ")"
      case Subquery => "(" + Printed(env, nodes[0]) + ")"
      case Where(clause) => " " + clause + " " + Printed(env, nodes[0])
      case Aliased(alias) => Printed(env, nodes[0]) + (if alias == "" then "" else " as " + alias)
      case Order(direction) => Printed(env, nodes[0]) + " " + direction
      case LimitOnly => " limit " + Printed(env, nodes[0])
      case LimitOffset => " limit " + Printed(env, nodes[1]) + " offset " + Printed(env, nodes[0])
      case Assign => Printed(env, nodes[0]) + " = " + Printed(env, nodes[1])
      case Select(cache, distinctness, hints, lock) =>
        "select " + Printed(env, nodes[0]) + cache + distinctness + hints
        + (Printed(env, nodes[1]) + " from " + Printed(env, nodes[2]))
        + (Printed(env, nodes[3]) + Printed(env, nodes[4]) + Printed(env, nodes[5]) + Printed(env, nodes[6])
           + Printed(env, nodes[7]))
        + lock
      case Update =>
        "update " + Printed(env, nodes[0]) + Printed(env, nodes[1])
        + (" set " + Printed(env, nodes[2]))
        + (Printed(env, nodes[3]) + Printed(env, nodes[4]) + Printed(env, nodes[5]))
  }

  /** Nothing for no elements; else the lead, and the elements separated by commas. */
  function PrintedList(env: Env, lead: string, nodes: seq<Node>): string
    requires forall i :: 0 <= i < |nodes| ==> WellFormed(nodes[i])
    decreases nodes, 1, |nodes|
  {
    if nodes == [] then "" else lead + Printed(env, nodes[0]) + PrintedList(env, ", ", nodes[1..])
  }

  function VerbText(v: Verb, parts: seq<seq<Piece>>): string
    requires v.V? ==> v.child < |parts|
  {
    match v case T(text) => text case V(i) => Text(parts[i])
  }

  predicate Childed(vs: seq<Verb>, parts: seq<seq<Piece>>) {
    forall i :: 0 <= i < |vs| && vs[i].V? ==> vs[i].child < |parts|
  }

  lemma ExpandSnoc(vs: seq<Verb>, v: Verb, parts: seq<seq<Piece>>)
    requires Childed(vs, parts) && Childed([v], parts)
    ensures v.V? ==> v.child < |parts|
    ensures Childed(vs + [v], parts) && Text(Expand(vs + [v], parts)) == Text(Expand(vs, parts)) + VerbText(v, parts)
  {
    hide Text;
    assert [v][0] == v;
    assert (vs + [v])[..|vs|] == vs;
    TextAppend(Expand(vs, parts), match v case T(text) => Chars(text) case V(i) => parts[i]);
    if v.T? { TextOfChars(v.text); }
  }

  lemma {:induction false} ExpandAppend(vs: seq<Verb>, ws: seq<Verb>, parts: seq<seq<Piece>>)
    requires Childed(vs, parts) && Childed(ws, parts)
    ensures Childed(vs + ws, parts)
    ensures Text(Expand(vs + ws, parts)) == Text(Expand(vs, parts)) + Text(Expand(ws, parts))
    decreases |ws|
  {
    hide Text, Expand;
    if ws == [] {
      assert vs + ws == vs;
      ExpandNothing(parts);
    } else {
      var n := |ws| - 1;
      var front, last := ws[..n], ws[n];
      assert ws == front + [last] && vs + ws == vs + front + [last];
      assert Childed([last], parts) by { assert ws[n] == last; }
      ExpandAppend(vs, front, parts);
      ExpandSnoc(front, last, parts);
      ExpandSnoc(vs + front, last, parts);
    }
  }

  lemma ExpandNothing(parts: seq<seq<Piece>>)
    ensures Text(Expand([], parts)) == ""
  {
  }

  lemma ExpandOne(a: Verb, parts: seq<seq<Piece>>)
    requires a.V? ==> a.child < |parts|
    ensures Childed([a], parts) && Text(Expand([a], parts)) == VerbText(a, parts)
  {
    hide Text, Expand;
    ExpandNothing(parts);
    ExpandSnoc([], a, parts);
    assert [] + [a] == [a];
  }

  lemma ExpandTwo(a: Verb, b: Verb, parts: seq<seq<Piece>>)
    requires (a.V? ==> a.child < |parts|) && (b.V? ==> b.child < |parts|)
    ensures Childed([a, b], parts) && Text(Expand([a, b], parts)) == VerbText(a, parts) + VerbText(b, parts)
  {
    hide Text, Expand;
    ExpandOne(a, parts);
    ExpandSnoc([a], b, parts);
    assert [a] + [b] == [a, b];
  }

  lemma ExpandThree(a: Verb, b: Verb, c: Verb, parts: seq<seq<Piece>>)
    requires (a.V? ==> a.child < |parts|) && (b.V? ==> b.child < |parts|) && (c.V? ==> c.child < |parts|)
    ensures Childed([a, b, c], parts)
    ensures Text(Expand([a, b, c], parts)) == VerbText(a, parts) + VerbText(b, parts) + VerbText(c, parts)
  {
    hide Text, Expand;
    ExpandTwo(a, b, parts);
    ExpandSnoc([a, b], c, parts);
    assert [a, b] + [c] == [a, b, c];
  }

  lemma ExpandFive(a: Verb, b: Verb, c: Verb, d: Verb, e: Verb, parts: seq<seq<Piece>>)
    requires (a.V? ==> a.child < |parts|) && (b.V? ==> b.child < |parts|) && (c.V? ==> c.child < |parts|)
    requires (d.V? ==> d.child < |parts|) && (e.V? ==> e.child < |parts|)
    ensures Childed([a, b, c, d, e], parts)
    ensures Text(Expand([a, b, c, d, e], parts))
            == VerbText(a, parts) + VerbText(b, parts) + VerbText(c, parts) + VerbText(d, parts) + VerbText(e, parts)
  {
    hide Text, Expand;
    hide VerbText, Childed;
    ExpandThree(a, b, c, parts);
    ExpandTwo(d, e, parts);
    ExpandAppend([a, b, c], [d, e], parts);
    assert [a, b, c] + [d, e] == [a, b, c, d, e];
    Concat(VerbText(a, parts) + VerbText(b, parts) + VerbText(c, parts), VerbText(d, parts), VerbText(e, parts));
  }

  /** The format of a node type, with any children, gives the text of that node type. */
  lemma ShortFormat(env: Env, n: Node, parts: seq<seq<Piece>>)
    requires n.Op? && WellFormed(n) && |parts| == |n.nodes| && !n.kind.Select? && !n.kind.Update?
    requires forall i :: 0 <= i < |parts| ==> Text(parts[i]) == Printed(env, n.nodes[i])
    ensures Text(Expand(Layout(n.kind), parts)) == Printed(env, n)
  {
    hide Text, Expand;
    match n.kind
    case Absent => ExpandNothing(parts);
    case Name(text) => ExpandOne(T(text), parts);
    case And => ExpandThree(V(0), T(" and "), V(1), parts);
    case Or => ExpandThree(V(0), T(" or "), V(1), parts);
    case Not => ExpandTwo(T("not "), V(0), parts);
    case Paren => ExpandThree(T("("), V(0), T(")"), parts);
    case Comparison(operator) => ExpandFive(V(0), T(" "), T(operator), T(" "), V(1), parts);
    case Tuple => ExpandThree(T("("), V(0), T(")"), parts);
    case Func(name, distinct) =>
      ExpandFive(T(name), T("("), T(if distinct then "distinct " else ""), V(0), T(")"), parts);
    case Subquery => ExpandThree(T("("), V(0), T(")"), parts);
    case Where(clause) =>
      ExpandThree(T(" "), T(clause), T(" "), parts);
      ExpandOne(V(0), parts);
      ExpandAppend([T(" "), T(clause), T(" ")], [V(0)], parts);
      assert [T(" "), T(clause), T(" ")] + [V(0)] == [T(" "), T(clause), T(" "), V(0)];
    case Aliased(alias) =>
      if alias == "" {
        ExpandOne(V(0), parts);
        assert Printed(env, n) == Printed(env, n.nodes[0]);
      } else {
        ExpandThree(V(0), T(" as "), T(alias), parts);
      }
    case Order(direction) => ExpandThree(V(0), T(" "), T(direction), parts);
    case LimitOnly => ExpandTwo(T(" limit "), V(0), parts);
    case LimitOffset =>
      ExpandTwo(T(" limit "), V(1), parts);
      ExpandTwo(T(" offset "), V(0), parts);
      ExpandAppend([T(" limit "), V(1)], [T(" offset "), V(0)], parts);
      assert [T(" limit "), V(1)] + [T(" offset "), V(0)] == [T(" limit "), V(1), T(" offset "), V(0)];
    case Assign => ExpandThree(V(0), T(" = "), V(1), parts);
  }

  lemma SelectFormat(env: Env, n: Node, parts: seq<seq<Piece>>)
    requires n.Op? && n.kind.Select? && WellFormed(n) && |parts| == |n.nodes|
    requires forall i :: 0 <= i < |parts| ==> Text(parts[i]) == Printed(env, n.nodes[i])
    ensures Text(Expand(Layout(n.kind), parts)) == Printed(env, n)
  {
    hide Text, Expand, Layout, Printed;
    var Select(cache, distinctness, hints, lock) := n.kind;
    var head := [T("select "), V(0), T(cache), T(distinctness), T(hints)];
    var from, clauses := [V(1), T(" from "), V(2)], [V(3), V(4), V(5), V(6), V(7)];
    ExpandFive(T("select "), V(0), T(cache), T(distinctness), T(hints), parts);
    ExpandThree(V(1), T(" from "), V(2), parts);
    ExpandFive(V(3), V(4), V(5), V(6), V(7), parts);
    ExpandOne(T(lock), parts);
    ExpandAppend(head, from, parts);
    ExpandAppend(head + from, clauses, parts);
    ExpandAppend(head + from + clauses, [T(lock)], parts);
    SelectLayout(n.kind);
    SelectPrinted(env, n);
  }

  lemma SelectLayout(kind: Kind)
    requires kind.Select?
    ensures Layout(kind) == [T("select "), V(0), T(kind.cache), T(kind.distinctness), T(kind.hints)]
                            + [V(1), T(" from "), V(2)] + [V(3), V(4), V(5), V(6), V(7)] + [T(kind.lock)]
  {
  }

  lemma SelectPrinted(env: Env, n: Node)
    requires n.Op? && n.kind.Select? && WellFormed(n)
    ensures Printed(env, n)
            == "select " + Printed(env, n.nodes[0]) + n.kind.cache + n.kind.distinctness + n.kind.hints
               + (Printed(env, n.nodes[1]) + " from " + Printed(env, n.nodes[2]))
               + (Printed(env, n.nodes[3]) + Printed(env, n.nodes[4]) + Printed(env, n.nodes[5])
                  + Printed(env, n.nodes[6]) + Printed(env, n.nodes[7]))
               + n.kind.lock
  {
  }

  lemma UpdateFormat(env: Env, n: Node, parts: seq<seq<Piece>>)
    requires n.Op? && n.kind.Update? && WellFormed(n) && |parts| == |n.nodes|
    requires forall i :: 0 <= i < |parts| ==> Text(parts[i]) == Printed(env, n.nodes[i])
    ensures Text(Expand(Layout(n.kind), parts)) == Printed(env, n)
  {
    hide Text, Expand, Layout, Printed;
    ExpandThree(T("update "), V(0), V(1), parts);
    ExpandTwo(T(" set "), V(2), parts);
    ExpandThree(V(3), V(4), V(5), parts);
    ExpandAppend([T("update "), V(0), V(1)], [T(" set "), V(2)], parts);
    ExpandAppend([T("update "), V(0), V(1)] + [T(" set "), V(2)], [V(3), V(4), V(5)], parts);
    UpdateLayout();
    UpdatePrinted(env, n);
  }

  lemma UpdateLayout()
    ensures Layout(Update) == [T("update "), V(0), V(1)] + [T(" set "), V(2)] + [V(3), V(4), V(5)]
  {
  }

  lemma UpdatePrinted(env: Env, n: Node)
    requires n.Op? && n.kind.Update? && WellFormed(n)
    ensures Printed(env, n)
            == "update " + Printed(env, n.nodes[0]) + Printed(env, n.nodes[1])
               + (" set " + Printed(env, n.nodes[2]))
               + (Printed(env, n.nodes[3]) + Printed(env, n.nodes[4]) + Printed(env, n.nodes[5]))
  {
  }

  lemma LiteralPrinted(env: Env, ty: ValType, val: string)
    ensures Text(LiteralPieces(env, ty, val)) == LiteralText(env, ty, val)
  {
    hide Text, Chars;
    TextOfChars(LiteralText(env, ty, val));
    if ty == ValArg {
      TextNil();
      TextSnoc([], Arg(PrintedArg(val)));
      assert [] + [Arg(PrintedArg(val))] == [Arg(PrintedArg(val))];
      if |val| >= 1 && val[0] == ':' {
        assert StartsWith(val, ":");
        StartsBehind(val, VALUE_MASK);
      }
    }
  }

  lemma StartsBehind(val: string, mask: string)
    requires |val| >= 1 && val[0] == ':'
    ensures StartsWith(val[1..], mask) <==> StartsWith(val, ":" + mask)
  {
    if |val| > |mask| {
      assert val[..1 + |mask|] == [val[0]] + val[1..][..|mask|];
      assert (":" + mask)[1..] == mask && ([val[0]] + val[1..][..|mask|])[1..] == val[1..][..|mask|];
    }
  }

  /** The pieces of a node read as its text. */
  lemma {:induction false} PiecesPrinted(env: Env, n: Node)
    requires WellFormed(n)
    ensures Text(Pieces(env, n)) == Printed(env, n)
    decreases n, 0
  {
    hide Text, LiteralPieces, LiteralText, Expand, Layout, Joined, Printed;
    match n
    case Val(ty, val, castType) =>
      LiteralPrinted(env, ty, val);
      TextAppend(LiteralPieces(env, ty, val), Chars(castType));
      TextOfChars(castType);
      ValuePrinted(env, n);
    case ListArg(arg) => ArgPrinted(env, n);
    case List(lead, nodes) =>
      ListPrinted(env, lead, nodes);
      ListIsPrinted(env, n);
    case Op(kind, nodes) =>
      var parts := PiecesOfAll(env, nodes);
      forall i | 0 <= i < |nodes| ensures Text(parts[i]) == Printed(env, nodes[i]) { PiecesPrinted(env, nodes[i]); }
      match kind {
        case Select(_, _, _, _) => SelectFormat(env, n, parts);
        case Update => UpdateFormat(env, n, parts);
        case _ => ShortFormat(env, n, parts);
      }
  }

  lemma ValuePrinted(env: Env, n: Node)
    requires n.Val?
    ensures Printed(env, n) == LiteralText(env, n.ty, n.val) + n.castType
  {
  }

  lemma ArgPrinted(env: Env, n: Node)
    requires n.ListArg?
    ensures Text(Pieces(env, n)) == Printed(env, n) == n.arg
  {
    TextNil();
    TextSnoc([], Arg(n.arg));
    assert [] + [Arg(n.arg)] == [Arg(n.arg)];
  }

  lemma ListIsPrinted(env: Env, n: Node)
    requires n.List? && WellFormed(n)
    ensures Printed(env, n) == PrintedList(env, n.lead, n.nodes)
  {
  }

  lemma {:induction false} ListPrinted(env: Env, lead: string, nodes: seq<Node>)
    requires forall i :: 0 <= i < |nodes| ==> WellFormed(nodes[i])
    ensures Text(Joined(lead, PiecesOfAll(env, nodes))) == PrintedList(env, lead, nodes)
    decreases nodes, 1, |nodes|
  {
    hide Text, Pieces, Printed, Chars;
    var parts := PiecesOfAll(env, nodes);
    if nodes == [] {
      TextNil();
    } else {
      PiecesPrinted(env, nodes[0]);
      ListPrinted(env, ", ", nodes[1..]);
      assert parts[1..] == PiecesOfAll(env, nodes[1..]);
      TextOfChars(lead);
      TextAppend(Chars(lead), parts[0]);
      TextAppend(Chars(lead) + parts[0], Joined(", ", parts[1..]));
    }
  }

  // ---- the buffer ------------------------------------------------------------------------------------------

  class TrackedBuffer {
    var text: string
    var bindLocations: seq<BindLocation>
    ghost var pieces: seq<Piece>

    ghost predicate Valid()
      reads this
    {
      text == Text(pieces) && bindLocations == Locations(pieces)
    }

    constructor ()
      ensures Valid() && pieces == [] && text == ""
    {
      text, bindLocations, pieces := "", [], [];
    }

    method WriteString(s: string)
      requires Valid()
      modifies this
      ensures Valid() && pieces == old(pieces) + Chars(s)
    {
      TextAppend(pieces, Chars(s));
      TextOfChars(s);
      CharsKeepLocations(pieces, s);
      text := text + s;
      pieces := pieces + Chars(s);
    }

    method WriteArg(arg: string)
      requires Valid()
      modifies this
      ensures Valid() && pieces == old(pieces) + [Arg(arg)]
    {
      ArgAppends(pieces, arg);
      bindLocations := bindLocations + [BindLocation(|text|, |arg|)];
      text := text + arg;
      pieces := pieces + [Arg(arg)];
    }

    /** Myprintf with the format of a node: text is copied, children are formatted in turn. */
    method Myprintf(env: Env, n: Node)
      requires Valid() && n.Op? && WellFormed(n)
      modifies this
      ensures Valid() && pieces == old(pieces) + Pieces(env, n)
      decreases n, 0
    {
      hide Text, Locations, Pieces, Layout, Chars;
      var format := Layout(n.kind);
      ghost var parts := PiecesOfAll(env, n.nodes);
      for k := 0 to |format|
        invariant Valid() && pieces == old(pieces) + Expand(format[..k], parts)
      {
        assert format[..k + 1][..k] == format[..k];
        match format[k] {
          case T(text) => WriteString(text);
          case V(i) => FormatNode(env, n.nodes[i]);
        }
      }
      assert format[..|format|] == format;
      OpPrints(env, n);
    }

    /** SQLNode.Format. */
    method FormatNode(env: Env, n: Node)
      requires Valid() && WellFormed(n)
      modifies this
      ensures Valid() && pieces == old(pieces) + Pieces(env, n)
      ensures text == old(text) + Printed(env, n)
      decreases n, 1
    {
      hide Text, Locations, LiteralPieces, Printed;
      TextAppend(pieces, Pieces(env, n));
      PiecesPrinted(env, n);
      match n {
        case Val(ty, val, castType) =>
          FormatLiteral(env, ty, val);
          WriteString(castType);
        case ListArg(arg) => WriteArg(arg);
        case Op(_, _) => Myprintf(env, n);
        case List(_, _) => FormatList(env, n);
      }
    }

    /** SQLVal.Format without the cast. */
    method FormatLiteral(env: Env, ty: ValType, val: string)
      requires Valid()
      modifies this
      ensures Valid() && pieces == old(pieces) + LiteralPieces(env, ty, val)
    {
      hide Text, Locations, StartsWith;
      match ty {
        case StrVal => WriteString(env.quote(val));
        case HexVal => WriteString("X'" + val + "'");
        case BitVal => WriteString("B'" + val + "'");
        case ValArg =>
          var printed := val;
          var isValueMaskArg := |val| >= 2 && StartsWith(val[1..], VALUE_MASK);
          if !isValueMaskArg && StartsWith(val, ":") { printed := "?"; }
          WriteArg(printed);
        case PgEscapeString => WriteString("E'" + env.escape(val) + "'");
        case IntVal => WriteString(val);
        case FloatVal => WriteString(val);
        case HexNum => WriteString(val);
        case PgPlaceholder => WriteString(val);
      }
    }

    /** Format of the list types: the separator is the lead first and a comma later. */
    method FormatList(env: Env, n: Node)
      requires Valid() && n.List? && WellFormed(n)
      modifies this
      ensures Valid() && pieces == old(pieces) + Pieces(env, n)
      decreases n, 0
    {
      hide Text, Locations, Pieces;
      var prefix := n.lead;
      ghost var parts := PiecesOfAll(env, n.nodes);
      for k := 0 to |n.nodes|
        invariant Valid() && old(pieces) + Joined(n.lead, parts) == pieces + Joined(prefix, parts[k..])
      {
        WriteString(prefix);
        FormatNode(env, n.nodes[k]);
        assert parts[k..][1..] == parts[k + 1..];
        prefix := ", ";
      }
      ListPrints(env, n);
    }
  }

  lemma OpPrints(env: Env, n: Node)
    requires n.Op? && WellFormed(n)
    ensures Pieces(env, n) == Expand(Layout(n.kind), PiecesOfAll(env, n.nodes))
  {
  }

  lemma ListPrints(env: Env, n: Node)
    requires n.List? && WellFormed(n)
    ensures Pieces(env, n) == Joined(n.lead, PiecesOfAll(env, n.nodes))
  {
  }
}
