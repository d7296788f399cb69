/**
 Replacing the literals of a statement by bind variables (sqlparser/normalizer.go). Generating the normalized query with
 the collected variables gives back the text of the original statement.
 */
module Normalizer {
  import opened Outcomes
  import opened QueryText
  import opened ParsedQuery
  import Decimal

  /** sqlToBindvar. */
  function SqlToBindvar(env: Env, n: Node): Option<BindVariable> {
    if !n.Val? then None
    else match n.ty
      case StrVal => Some(Scalar(VarBinary, n.val))
      case IntVal => if env.isInt(n.val) then Some(Scalar(Int64, n.val)) else None
      case FloatVal => if env.isFloat(n.val) then Some(Scalar(Float64, n.val)) else None
      case _ => None
  }

  /** Numbers do not start with a quote. */
  ghost predicate NumbersUnquoted(env: Env) {
    forall s: string :: env.isInt(s) || env.isFloat(s) ==> s == "" || s[0] != '\''
  }

  // ---- bind arguments of a statement -----------------------------------------------------------------------

  /** Bind arguments as the parser makes them: ":name", and "::name" for lists. */
  predicate ProperArgs(n: Node) {
    match n
    case Val(ty, val, _) => ty.ValArg? ==> |val| >= 2 && val[0] == ':' && val[1] != ':'
    case ListArg(arg) => |arg| >= 3 && arg[0] == ':' && arg[1] == ':'
    case Op(_, nodes) => forall i :: 0 <= i < |nodes| ==> ProperArgs(nodes[i])
    case List(_, nodes) => forall i :: 0 <= i < |nodes| ==> ProperArgs(nodes[i])
  }

  /** GetBindvars. */
  function GetBindvars(n: Node): set<string>
    requires ProperArgs(n)
  {
    match n
    case Val(ty, val, _) => if ty.ValArg? then {val[1..]} else {}
    case ListArg(arg) => {arg[2..]}
    case Op(_, nodes) => set i, s | 0 <= i < |nodes| && s in GetBindvars(nodes[i]) :: s
    case List(_, nodes) => set i, s | 0 <= i < |nodes| && s in GetBindvars(nodes[i]) :: s
  }

  /** Every argument among the pieces is a "?", or its name is in the set; there are none if the set is empty. */
  predicate NamesWithin(ps: seq<Piece>, names: set<string>) {
    forall i :: 0 <= i < |ps| && ps[i].Arg? ==> names != {} && (|ps[i].arg| >= 2 ==> ArgName(ps[i].arg) in names)
  }

  /** Variables under the names already taken are kept as they are. */
  predicate Kept(names: set<string>, vars: BindVars, names': set<string>, vars': BindVars) {
    && names <= names'
    && forall s :: s in names ==> (s in vars <==> s in vars') && (s in vars ==> vars[s] == vars'[s])
  }

  /** A text that uses only names already taken means the same after new variables are added. */
  lemma {:induction false} SubstitutedKept(env: Env, ps: seq<Piece>, names: set<string>, vars: BindVars,
                                           names': set<string>, vars': BindVars)
    requires NamesWithin(ps, names) && Kept(names, vars, names', vars')
    ensures Substituted(env, ps, vars) == Substituted(env, ps, vars')
    decreases |ps|
  {
    if ps != [] {
      var n := |ps| - 1;
      SubstitutedKept(env, ps[..n], names, vars, names', vars');
    }
  }

  // ---- what one step of the walk achieves ------------------------------------------------------------------

  /** The node r stands for the node n: under the new variables it reads as n did under the old ones. */
  ghost predicate Stands(env: Env, n: Node, names: set<string>, vars: BindVars, r: Node, names': set<string>,
                         vars': BindVars)
    requires WellFormed(n)
  {
    && Kept(names, vars, names', vars') && WellFormed(r) && NamesWithin(Pieces(env, r), names')
    && Substituted(env, Pieces(env, n), vars) == Substituted(env, Pieces(env, r), vars')
  }

  ghost predicate AllStand(env: Env, ns: seq<Node>, names: set<string>, vars: BindVars,
                           rs: seq<Node>, names': set<string>, vars': BindVars)
    requires forall i :: 0 <= i < |ns| ==> WellFormed(ns[i])
  {
    && Kept(names, vars, names', vars') && |rs| == |ns|
    && forall i :: 0 <= i < |ns| ==> Stands(env, ns[i], names, vars, rs[i], names', vars')
  }

  /** A stand-in stays one while further variables are added. */
  lemma StandsLater(env: Env, n: Node, names: set<string>, vars: BindVars, r: Node, names1: set<string>,
                    vars1: BindVars, names2: set<string>, vars2: BindVars)
    requires WellFormed(n) && Stands(env, n, names, vars, r, names1, vars1) && Kept(names1, vars1, names2, vars2)
    ensures Stands(env, n, names, vars, r, names2, vars2)
  {
    hide Pieces, Substituted, WellFormed;
    SubstitutedKept(env, Pieces(env, r), names1, vars1, names2, vars2);
  }

  /** A stand-in made after further variables were added is one for the earlier variables. */
  lemma StandsEarlier(env: Env, n: Node, names: set<string>, vars: BindVars, names1: set<string>, vars1: BindVars,
                      r: Node, names2: set<string>, vars2: BindVars)
    requires WellFormed(n) && NamesWithin(Pieces(env, n), names) && Kept(names, vars, names1, vars1)
    requires Stands(env, n, names1, vars1, r, names2, vars2)
    ensures Stands(env, n, names, vars, r, names2, vars2)
  {
    hide Pieces, Substituted, WellFormed;
    SubstitutedKept(env, Pieces(env, n), names, vars, names1, vars1);
  }

  lemma AllStandOneMore(env: Env, ns: seq<Node>, k: nat, names: set<string>, vars: BindVars, rs: seq<Node>,
                        names1: set<string>, vars1: BindVars, r: Node, names2: set<string>, vars2: BindVars)
    requires k < |ns| && forall i :: 0 <= i < |ns| ==> WellFormed(ns[i]) && NamesWithin(Pieces(env, ns[i]), names)
    requires AllStand(env, ns[..k], names, vars, rs, names1, vars1)
    requires Stands(env, ns[k], names1, vars1, r, names2, vars2)
    ensures AllStand(env, ns[..k + 1], names, vars, rs + [r], names2, vars2)
  {
    hide Stands, Pieces, WellFormed, NamesWithin;
    StandsKept(env, ns[k], names1, vars1, r, names2, vars2);
    StandsEarlier(env, ns[k], names, vars, names1, vars1, r, names2, vars2);
    forall i | 0 <= i < k ensures Stands(env, ns[..k + 1][i], names, vars, (rs + [r])[i], names2, vars2) {
      assert ns[..k][i] == ns[i];
      StandsLater(env, ns[i], names, vars, rs[i], names1, vars1, names2, vars2);
    }
  }

  lemma StandsKept(env: Env, n: Node, names: set<string>, vars: BindVars, r: Node, names': set<string>, vars': BindVars)
    requires WellFormed(n) && Stands(env, n, names, vars, r, names', vars')
    ensures Kept(names, vars, names', vars')
  {
  }

  /** The parts read alike under their own variables. */
  ghost predicate ReadAlike(env: Env, ps: seq<seq<Piece>>, vars: BindVars, qs: seq<seq<Piece>>, vars': BindVars) {
    |ps| == |qs| && forall i :: 0 <= i < |ps| ==> Substituted(env, ps[i], vars) == Substituted(env, qs[i], vars')
  }

  /** Formats with parts of equal meaning have equal meaning. */
  lemma {:induction false} ExpandSame(env: Env, vs: seq<Verb>, ps: seq<seq<Piece>>, vars: BindVars, qs: seq<seq<Piece>>,
                                      vars': BindVars)
    requires ReadAlike(env, ps, vars, qs, vars') && forall i :: 0 <= i < |vs| && vs[i].V? ==> vs[i].child < |ps|
    ensures Substituted(env, Expand(vs, ps), vars) == Substituted(env, Expand(vs, qs), vars')
    decreases |vs|
  {
    hide Substituted, Chars;
    if vs == [] {
      SubstitutedNil(env, vars);
      SubstitutedNil(env, vars');
    } else {
      var n := |vs| - 1;
      ExpandSame(env, vs[..n], ps, vars, qs, vars');
      var x := match vs[n] case T(text) => Chars(text) case V(i) => ps[i];
      var y := match vs[n] case T(text) => Chars(text) case V(i) => qs[i];
      if vs[n].T? {
        SubstitutedChars(env, vs[n].text, vars);
        SubstitutedChars(env, vs[n].text, vars');
      }
      SubstitutedAppend(env, Expand(vs[..n], ps), x, vars);
      SubstitutedAppend(env, Expand(vs[..n], qs), y, vars');
    }
  }

  lemma {:induction false} ExpandNames(vs: seq<Verb>, qs: seq<seq<Piece>>, names: set<string>)
    requires forall i :: 0 <= i < |vs| && vs[i].V? ==> vs[i].child < |qs|
    requires forall i :: 0 <= i < |qs| ==> NamesWithin(qs[i], names)
    ensures NamesWithin(Expand(vs, qs), names)
    decreases |vs|
  {
    if vs != [] { ExpandNames(vs[..|vs| - 1], qs, names); }
  }

  lemma {:induction false} JoinedSame(env: Env, lead: string, ps: seq<seq<Piece>>, vars: BindVars, qs: seq<seq<Piece>>,
                                      vars': BindVars)
    requires ReadAlike(env, ps, vars, qs, vars')
    ensures Substituted(env, Joined(lead, ps), vars) == Substituted(env, Joined(lead, qs), vars')
    decreases |ps|
  {
    hide Substituted, Chars;
    if ps == [] {
      SubstitutedNil(env, vars);
      SubstitutedNil(env, vars');
    } else {
      JoinedSame(env, ", ", ps[1..], vars, qs[1..], vars');
      SubstitutedChars(env, lead, vars);
      SubstitutedChars(env, lead, vars');
      SubstitutedAppend(env, Chars(lead), ps[0], vars);
      SubstitutedAppend(env, Chars(lead), qs[0], vars');
      SubstitutedAppend(env, Chars(lead) + ps[0], Joined(", ", ps[1..]), vars);
      SubstitutedAppend(env, Chars(lead) + qs[0], Joined(", ", qs[1..]), vars');
    }
  }

  lemma {:induction false} JoinedNames(lead: string, qs: seq<seq<Piece>>, names: set<string>)
    requires forall i :: 0 <= i < |qs| ==> NamesWithin(qs[i], names)
    ensures NamesWithin(Joined(lead, qs), names)
    decreases |qs|
  {
    if qs != [] { JoinedNames(", ", qs[1..], names); }
  }

  function WithNodes(n: Node, rs: seq<Node>): Node
    requires n.Op? || n.List?
  {
    if n.Op? then Op(n.kind, rs) else List(n.lead, rs)
  }

  /** Stand-ins for the children make a stand-in for the node. */
  lemma NodeStands(env: Env, n: Node, names: set<string>, vars: BindVars, rs: seq<Node>, names': set<string>,
                   vars': BindVars)
    requires (n.Op? || n.List?) && WellFormed(n) && AllStand(env, n.nodes, names, vars, rs, names', vars')
    ensures Stands(env, n, names, vars, WithNodes(n, rs), names', vars')
  {
    hide Pieces, Substituted, Expand, Joined, NamesWithin, Layout, Kept;
    var r := WithNodes(n, rs);
    assert WellFormed(r);
    var ps, qs := PiecesOfAll(env, n.nodes), PiecesOfAll(env, rs);
    if n.Op? {
      OpPrints(env, n);
      OpPrints(env, r);
      ExpandSame(env, Layout(n.kind), ps, vars, qs, vars');
      ExpandNames(Layout(n.kind), qs, names');
    } else {
      ListPrints(env, n);
      ListPrints(env, r);
      JoinedSame(env, n.lead, ps, vars, qs, vars');
      JoinedNames(n.lead, qs, names');
    }
  }

  // ---- literals --------------------------------------------------------------------------------------------

  /** What a literal that becomes a variable prints. */
  lemma LiteralReads(env: Env, n: Node, vars: BindVars)
    requires SqlToBindvar(env, n).Some?
    ensures SqlToBindvar(env, n).value.Scalar?
    ensures Substituted(env, Pieces(env, n), vars) == Ok(Encoded(env, SqlToBindvar(env, n).value) + n.castType)
  {
    hide Substituted;
    var text := Encoded(env, SqlToBindvar(env, n).value);
    assert LiteralPieces(env, n.ty, n.val) == Chars(text);
    SubstitutedAppend(env, Chars(text), Chars(n.castType), vars);
    SubstitutedChars(env, text, vars);
    SubstitutedChars(env, n.castType, vars);
  }

  /** A variable that encodes like the literal stands for it. */
  lemma VariableStands(env: Env, n: Node, names: set<string>, vars: BindVars, name: string, names': set<string>,
                       vars': BindVars)
    requires SqlToBindvar(env, n).Some? && Kept(names, vars, names', vars') && StartsWith(name, VALUE_MASK)
    requires name in names' && name in vars' && vars'[name].Scalar?
    requires Encoded(env, vars'[name]) == Encoded(env, SqlToBindvar(env, n).value)
    ensures Stands(env, n, names, vars, Val(ValArg, ":" + name, n.castType), names', vars')
  {
    hide Substituted;
    var r := Val(ValArg, ":" + name, n.castType);
    LiteralReads(env, n, vars);
    Masked(name);
    assert (":" + name)[1..] == name;
    assert Pieces(env, r) == [Arg(":" + name)] + Chars(n.castType);
    SubstitutedArg(env, ":" + name, vars');
    SubstitutedAppend(env, [Arg(":" + name)], Chars(n.castType), vars');
    SubstitutedChars(env, n.castType, vars');
  }

  lemma Masked(name: string)
    requires StartsWith(name, VALUE_MASK)
    ensures |name| >= 1 && name[0] == 'r' && PrintedArg(":" + name) == ":" + name
  {
    assert name[..8][0] == name[0];
    assert (":" + name)[1..] == name;
  }

  lemma SubstitutedArg(env: Env, arg: string, vars: BindVars)
    ensures Substituted(env, [Arg(arg)], vars) == ArgValue(env, arg, vars)
  {
    SubstitutedNil(env, vars);
    SubstitutedSnoc(env, [], Arg(arg), vars);
    assert [] + [Arg(arg)] == [Arg(arg)];
    var v := ArgValue(env, arg, vars);
    if v.Ok? { assert "" + v.value == v.value; }
  }

  // ---- lists under IN --------------------------------------------------------------------------------------

  predicate IsIn(operator: string) { operator == "in" || operator == "not in" }

  /** A tuple of literals all of which can become variables. */
  predicate Listable(env: Env, n: Node) {
    && n.Op? && n.kind.Tuple? && |n.nodes| == 1 && n.nodes[0].List? && n.nodes[0].lead == ""
    && forall i :: 0 <= i < |n.nodes[0].nodes| ==> SqlToBindvar(env, n.nodes[0].nodes[i]).Some?
  }

  /** Literals under IN carry no casts, and there is at least one. */
  predicate PlainList(n: Node) {
    n.Op? && |n.nodes| == 1 && n.nodes[0].List? && n.nodes[0].nodes != [] &&
    forall i :: 0 <= i < |n.nodes[0].nodes| ==> n.nodes[0].nodes[i].Val? && n.nodes[0].nodes[i].castType == ""
  }

  function BoundValues(env: Env, ns: seq<Node>): (r: seq<(BindType, string)>)
    requires forall i :: 0 <= i < |ns| ==> SqlToBindvar(env, ns[i]).Some?
    ensures |r| == |ns|
  {
    seq(|ns|, i requires 0 <= i < |ns| => var v := SqlToBindvar(env, ns[i]).value; (v.ty, v.value))
  }

  lemma {:induction false} ListText(env: Env, lead: string, ns: seq<Node>, vars: BindVars)
    requires forall i :: 0 <= i < |ns| ==> WellFormed(ns[i]) && SqlToBindvar(env, ns[i]).Some? && ns[i].castType == ""
    ensures Substituted(env, Joined(lead, PiecesOfAll(env, ns)), vars)
            == Ok(EncodeTuple(env, lead, BoundValues(env, ns)))
    decreases |ns|
  {
    hide Substituted, Pieces;
    var ps, bs := PiecesOfAll(env, ns), BoundValues(env, ns);
    if ns == [] {
      SubstitutedNil(env, vars);
    } else {
      ListText(env, ", ", ns[1..], vars);
      assert ps[1..] == PiecesOfAll(env, ns[1..]);
      assert bs[1..] == BoundValues(env, ns[1..]);
      LiteralReads(env, ns[0], vars);
      var e := EncodeSQL(env, bs[0].0, bs[0].1);
      assert e + "" == e && ps[0] == Pieces(env, ns[0]);
      SubstitutedChars(env, lead, vars);
      SubstitutedAppend(env, Chars(lead), ps[0], vars);
      SubstitutedAppend(env, Chars(lead) + ps[0], Joined(", ", ps[1..]), vars);
    }
  }

  lemma ListableText(env: Env, n: Node, vars: BindVars)
    requires Listable(env, n) && PlainList(n) && WellFormed(n)
    ensures Substituted(env, Pieces(env, n), vars) == Ok(Encoded(env, TupleOf(BoundValues(env, n.nodes[0].nodes))))
  {
    var inner := PiecesOfAll(env, n.nodes)[0];
    TupleExpands(n.nodes[0], PiecesOfAll(env, n.nodes));
    OpPrints(env, n);
    ListPrints(env, n.nodes[0]);
    hide Substituted, Pieces, EncodeTuple;
    ListText(env, "", n.nodes[0].nodes, vars);
    SubstitutedChars(env, "(", vars);
    SubstitutedChars(env, ")", vars);
    SubstitutedAppend(env, Chars("("), inner, vars);
    SubstitutedAppend(env, Chars("(") + inner, Chars(")"), vars);
  }

  lemma TupleExpands(n: Node, parts: seq<seq<Piece>>)
    requires |parts| == 1
    ensures Expand(Layout(Tuple), parts) == Chars("(") + parts[0] + Chars(")")
  {
    var vs := [T("("), V(0), T(")")];
    assert vs[..2] == [T("("), V(0)] && vs[..2][..1] == [T("(")] && vs[..2][..1][..0] == [];
    assert Expand(vs[..2][..1], parts) == Chars("(");
  }

  /** A list variable that holds the tuple's values stands for the tuple. */
  lemma ListVariableStands(env: Env, n: Node, names: set<string>, vars: BindVars, name: string, names': set<string>,
                           vars': BindVars)
    requires Listable(env, n) && PlainList(n) && WellFormed(n) && Kept(names, vars, names', vars')
    requires name != "" && name in names' && name in vars' && vars'[name] == TupleOf(BoundValues(env, n.nodes[0].nodes))
    ensures Stands(env, n, names, vars, ListArg("::" + name), names', vars')
  {
    hide Substituted;
    ListableText(env, n, vars);
    assert ("::" + name)[2..] == name;
    SubstitutedArg(env, "::" + name, vars');
  }

  // ---- the normalizer --------------------------------------------------------------------------------------

  /** The grammar has no empty tuples. */
  predicate NoEmptyTuples(n: Node) {
    match n
    case Val(_, _, _) => true
    case ListArg(_) => true
    case Op(kind, nodes) =>
      && (IsTuple(n) ==> nodes[0].nodes != [])
      && forall i :: 0 <= i < |nodes| ==> NoEmptyTuples(nodes[i])
    case List(_, nodes) => forall i :: 0 <= i < |nodes| ==> NoEmptyTuples(nodes[i])
  }

  /** convertComparison replaces the right-hand side of the comparison by a list variable. */
  predicate Lists(env: Env, kind: Kind, nodes: seq<Node>) {
    kind.Comparison? && IsIn(kind.operator) && |nodes| == 2 && Listable(env, nodes[1])
  }

  /** A tuple of literals without its casts. */
  function Bare(env: Env, n: Node): (r: Node)
    requires Listable(env, n)
    ensures Listable(env, r) && BoundValues(env, r.nodes[0].nodes) == BoundValues(env, n.nodes[0].nodes)
    ensures n.nodes[0].nodes != [] ==> PlainList(r)
  {
    var ns := n.nodes[0].nodes;
    Op(Tuple, [List("", seq(|ns|, i requires 0 <= i < |ns| => Val(ns[i].ty, ns[i].val, "")))])
  }

  /** The statement that survives normalization: the same, but casts inside the lists that become variables are lost. */
  function Strip(env: Env, n: Node): (r: Node)
    ensures r.Op? == n.Op? && r.List? == n.List?
    decreases n, 0
  {
    match n
    case Val(_, _, _) => n
    case ListArg(_) => n
    case Op(kind, nodes) =>
      if Lists(env, kind, nodes) then Op(kind, [Strip(env, nodes[0]), Bare(env, nodes[1])])
      else Op(kind, StripAll(env, nodes))
    case List(lead, nodes) => List(lead, StripAll(env, nodes))
  }

  function StripAll(env: Env, nodes: seq<Node>): (r: seq<Node>)
    ensures |r| == |nodes| && forall i :: 0 <= i < |nodes| ==> r[i] == Strip(env, nodes[i])
    decreases nodes, 1
  {
    seq(|nodes|, i requires 0 <= i < |nodes| => Strip(env, nodes[i]))
  }

  /** Losing casts changes neither the shape of the tree nor its bind arguments. */
  lemma {:induction false} StripKeeps(env: Env, n: Node, names: set<string>)
    requires WellFormed(n) && Within(n, names)
    ensures WellFormed(Strip(env, n)) && Within(Strip(env, n), names)
    decreases n
  {
    match n
    case Val(_, _, _) =>
    case ListArg(_) =>
    case Op(kind, nodes) =>
      forall i | 0 <= i < |nodes| ensures WellFormed(Strip(env, nodes[i])) && Within(Strip(env, nodes[i]), names) {
        assert GetBindvars(nodes[i]) <= GetBindvars(n);
        StripKeeps(env, nodes[i], names);
      }
      if Lists(env, kind, nodes) { BareKeeps(env, nodes[1], names); }
    case List(_, nodes) =>
      forall i | 0 <= i < |nodes| ensures WellFormed(Strip(env, nodes[i])) && Within(Strip(env, nodes[i]), names) {
        assert GetBindvars(nodes[i]) <= GetBindvars(n);
        StripKeeps(env, nodes[i], names);
      }
  }

  lemma BareKeeps(env: Env, n: Node, names: set<string>)
    requires Listable(env, n)
    ensures WellFormed(Bare(env, n)) && Within(Bare(env, n), names)
  {
    var r := Bare(env, n);
    var inner := r.nodes[0];
    assert forall i :: 0 <= i < |inner.nodes| ==> WellFormed(inner.nodes[i]) && Within(inner.nodes[i], {});
    assert WellFormed(inner) && Within(inner, {});
  }

  /** A deduplication key and the variable found under it. */
  predicate KeyFits(key: string, v: BindVariable) {
    if key != "" && key[0] == '\'' then v == Scalar(VarBinary, key[1..])
    else v.Scalar? && !v.ty.VarBinary? && v.value == key
  }

  const MAX_DEDUP := 256

  /** The deduplication key of a literal: strings are told from numbers by a quote. */
  function KeyOf(env: Env, n: Node): string
    requires SqlToBindvar(env, n).Some?
  {
    if n.ty.StrVal? then "'" + n.val else n.val
  }

  /**
   What becomes of the tree: literals turn into variables wherever they can, and inside a Select short literals with one
   key turn into one variable.
   */
  ghost predicate Replaces(env: Env, vals: map<string, string>, n: Node, r: Node, inSelect: bool) {
    match n
    case Val(_, val, castType) =>
      if SqlToBindvar(env, n).None? then r == n
      else
        && r.Val? && r.ty.ValArg? && r.castType == castType
        && (inSelect && |val| <= MAX_DEDUP ==> KeyOf(env, n) in vals && r.val == ":" + vals[KeyOf(env, n)])
    case ListArg(_) => r == n
    case Op(kind, nodes) =>
      && r.Op? && r.kind == kind && |r.nodes| == |nodes|
      && if Lists(env, kind, nodes) then Replaces(env, vals, nodes[0], r.nodes[0], inSelect) && r.nodes[1].ListArg?
         else forall i :: 0 <= i < |nodes| ==> Replaces(env, vals, nodes[i], r.nodes[i], inSelect || kind.Select?)
    case List(lead, nodes) =>
      && r.List? && r.lead == lead && |r.nodes| == |nodes|
      && forall i :: 0 <= i < |nodes| ==> Replaces(env, vals, nodes[i], r.nodes[i], inSelect)
  }

  ghost predicate Grows(vals: map<string, string>, vals': map<string, string>) {
    forall key :: key in vals ==> key in vals' && vals'[key] == vals[key]
  }

  lemma {:induction false} ReplacesLater(env: Env, vals: map<string, string>, vals': map<string, string>, n: Node,
                                         r: Node, inSelect: bool)
    requires Grows(vals, vals') && Replaces(env, vals, n, r, inSelect)
    ensures Replaces(env, vals', n, r, inSelect)
    decreases n
  {
    match n
    case Val(_, _, _) =>
    case ListArg(_) =>
    case Op(kind, nodes) =>
      if Lists(env, kind, nodes) {
        ReplacesLater(env, vals, vals', nodes[0], r.nodes[0], inSelect);
      } else {
        forall i | 0 <= i < |nodes| ensures Replaces(env, vals', nodes[i], r.nodes[i], inSelect || kind.Select?) {
          ReplacesLater(env, vals, vals', nodes[i], r.nodes[i], inSelect || kind.Select?);
        }
      }
    case List(_, nodes) =>
      forall i | 0 <= i < |nodes| ensures Replaces(env, vals', nodes[i], r.nodes[i], inSelect) {
        ReplacesLater(env, vals, vals', nodes[i], r.nodes[i], inSelect);
      }
  }

  lemma ComparisonReplaces(env: Env, vals: map<string, string>, n: Node, left: Node, right: Node, inSelect: bool)
    requires n.Op? && n.kind.Comparison? && |n.nodes| == 2 && Replaces(env, vals, n.nodes[0], left, inSelect)
    requires if Lists(env, n.kind, n.nodes) then right.ListArg? else Replaces(env, vals, n.nodes[1], right, inSelect)
    ensures Replaces(env, vals, n, Op(n.kind, [left, right]), inSelect)
  {
  }

  class Normalizer {
    const env: Env
    const prefix: string
    var bindVars: BindVars
    var reserved: set<string>
    var counter: nat
    var vals: map<string, string>

    ghost predicate Valid()
      reads this
    {
      && StartsWith(prefix, VALUE_MASK) && NumbersUnquoted(env)
      && forall key :: key in vals ==>
                         && vals[key] in reserved && vals[key] in bindVars
                         && KeyFits(key, bindVars[vals[key]]) && StartsWith(vals[key], VALUE_MASK)
    }

    constructor (env: Env, stmt: Node, bindVars: BindVars, prefix: string)
      requires ProperArgs(stmt) && StartsWith(prefix, VALUE_MASK) && NumbersUnquoted(env)
      ensures Valid() && this.env == env && this.bindVars == bindVars && reserved == GetBindvars(stmt) && vals == map[]
    {
      this.env, this.prefix, this.bindVars := env, prefix, bindVars;
      reserved, counter, vals := GetBindvars(stmt), 1, map[];
    }

    /** newName: the search ends, because only finitely many names are taken and the numerals are all different. */
    method NewName() returns (newName: string)
      requires Valid()
      modifies this`reserved, this`counter
      ensures Valid() && newName !in old(reserved) && reserved == old(reserved) + {newName}
      ensures StartsWith(newName, VALUE_MASK)
    {
      ghost var rejected: set<string> := {};
      ghost var start := counter;
      while true
        invariant Valid() && start <= counter && reserved == old(reserved)
        invariant forall s :: s in rejected ==>
                                exists j :: start <= j < counter && s == prefix + Decimal.DecimalString(j)
        decreases reserved - rejected
      {
        newName := prefix + Decimal.DecimalString(counter);
        assert newName[..|prefix|] == prefix;
        assert newName[..|VALUE_MASK|] == prefix[..|VALUE_MASK|];
        if newName !in reserved {
          reserved := reserved + {newName};
          return;
        }
        NumeralsDiffer(prefix, start, counter, rejected);
        rejected := rejected + {newName};
        counter := counter + 1;
      }
    }

    /** convertSQLVal: a variable of its own for the literal. */
    method ConvertSQLVal(n: Node) returns (r: Node)
      requires Valid() && n.Val? && NamesWithin(Pieces(env, n), reserved)
      modifies this`bindVars, this`reserved, this`counter
      ensures Valid() && Stands(env, n, old(reserved), old(bindVars), r, reserved, bindVars)
      ensures SqlToBindvar(env, n).Some? ==> r.Val? && r.ty.ValArg? && r.castType == n.castType
      ensures SqlToBindvar(env, n).None? ==> r == n
    {
      hide Pieces, Substituted;
      var bval := SqlToBindvar(env, n);
      if bval.None? { return n; }
      var bvname := NewName();
      ghost var names, vars := old(reserved), bindVars;
      bindVars := bindVars[bvname := bval.value];
      LiteralReads(env, n, vars);
      VariableStands(env, n, names, vars, bvname, reserved, bindVars);
      r := Val(ValArg, ":" + bvname, n.castType);
    }

    /** convertSQLValDedup: equal literals share a variable, unless they are long. */
    method ConvertSQLValDedup(n: Node) returns (r: Node)
      requires Valid() && n.Val? && NamesWithin(Pieces(env, n), reserved)
      modifies this
      ensures Valid() && Stands(env, n, old(reserved), old(bindVars), r, reserved, bindVars)
      ensures SqlToBindvar(env, n).None? ==> r == n
      ensures SqlToBindvar(env, n).Some? ==> r.Val? && r.ty.ValArg? && r.castType == n.castType
      ensures SqlToBindvar(env, n).Some? && |n.val| <= MAX_DEDUP ==>
                KeyOf(env, n) in vals && r.val == ":" + vals[KeyOf(env, n)]
      ensures Grows(old(vals), vals)
    {
      hide Pieces, Substituted;
      if |n.val| > MAX_DEDUP {
        r := ConvertSQLVal(n);
        return;
      }
      var bval := SqlToBindvar(env, n);
      if bval.None? { return n; }
      LiteralReads(env, n, bindVars);
      var key := KeyOf(env, n);
      KeyOfLiteral(env, n);
      ghost var names, vars := reserved, bindVars;
      var bvname;
      if key !in vals {
        bvname := NewName();
        vals := vals[key := bvname];
        bindVars := bindVars[bvname := bval.value];
      } else {
        bvname := vals[key];
        SameKey(env, key, bval.value, bindVars[bvname]);
      }
      VariableStands(env, n, names, vars, bvname, reserved, bindVars);
      r := Val(ValArg, ":" + bvname, n.castType);
    }

    /**
     convertComparison on the right-hand side: a tuple of literals becomes a list variable; anything else is left alone.
     */
    method ConvertComparison(operator: string, right: Node) returns (r: Node, converted: bool)
      requires Valid() && WellFormed(right) && NoEmptyTuples(right)
      modifies this
      ensures Valid() && (converted <==> IsIn(operator) && Listable(env, right)) && vals == old(vals)
      ensures converted ==> r.ListArg?
      ensures converted ==> WellFormed(Bare(env, right))
      ensures converted ==> Stands(env, Bare(env, right), old(reserved), old(bindVars), r, reserved, bindVars)
      ensures !converted ==> r == right && reserved == old(reserved) && bindVars == old(bindVars)
    {
      hide Pieces, Substituted, Stands;
      r, converted := right, false;
      if !IsIn(operator) || !IsTuple(right) { return; }
      var tuple := right.nodes[0].nodes;
      var values: seq<(BindType, string)> := [];
      for k := 0 to |tuple|
        invariant forall i :: 0 <= i < k ==> SqlToBindvar(env, tuple[i]).Some?
        invariant values == BoundValues(env, tuple[..k])
      {
        var bval := SqlToBindvar(env, tuple[k]);
        if bval.None? { return; }
        values := values + [(bval.value.ty, bval.value.value)];
      }
      assert tuple[..|tuple|] == tuple;
      var bvname := NewName();
      ghost var names, vars := old(reserved), bindVars;
      bindVars := bindVars[bvname := TupleOf(values)];
      BareKeeps(env, right, {});
      ListVariableStands(env, Bare(env, right), names, vars, bvname, reserved, bindVars);
      r, converted := ListArg("::" + bvname), true;
    }

    /** Walk with WalkStatement, or inside a Select with WalkSelect. */
    method Walk(n: Node, inSelect: bool) returns (r: Node)
      requires Valid() && WellFormed(n) && NoEmptyTuples(n) && Within(n, reserved) && WellFormed(Strip(env, n))
      modifies this
      ensures Valid() && Stands(env, Strip(env, n), old(reserved), old(bindVars), r, reserved, bindVars)
      ensures Grows(old(vals), vals) && Replaces(env, vals, n, r, inSelect)
      decreases n, 1
    {
      hide Pieces, Substituted, NamesWithin, AllStand;
      PiecesNames(env, n, reserved);
      match n
      case Val(_, _, _) =>
        if inSelect { r := ConvertSQLValDedup(n); } else { r := ConvertSQLVal(n); }
      case ListArg(_) =>
        r := n;
        assert Stands(env, n, reserved, bindVars, r, reserved, bindVars);
      case Op(kind, nodes) =>
        if kind.Comparison? {
          r := WalkComparison(n, inSelect);
        } else {
          var rs := WalkAll(n, inSelect || kind.Select?);
          NodeStands(env, Op(kind, StripAll(env, nodes)), old(reserved), old(bindVars), rs, reserved, bindVars);
          r := Op(kind, rs);
        }
      case List(lead, nodes) =>
        var rs := WalkAll(n, inSelect);
        NodeStands(env, List(lead, StripAll(env, nodes)), old(reserved), old(bindVars), rs, reserved, bindVars);
        r := List(lead, rs);
    }

    method WalkAll(n: Node, inSelect: bool) returns (rs: seq<Node>)
      requires Valid() && (n.Op? || n.List?) && WellFormed(n) && NoEmptyTuples(n) && Within(n, reserved)
      requires forall i :: 0 <= i < |n.nodes| ==> WellFormed(Strip(env, n.nodes[i]))
      modifies this
      ensures Valid() && AllStand(env, StripAll(env, n.nodes), old(reserved), old(bindVars), rs, reserved, bindVars)
      ensures Grows(old(vals), vals) && |rs| == |n.nodes|
      ensures forall i :: 0 <= i < |rs| ==> Replaces(env, vals, n.nodes[i], rs[i], inSelect)
      decreases n, 0
    {
      hide Pieces, Substituted, Stands, NamesWithin, Strip, Replaces;
      rs := [];
      ghost var ns := StripAll(env, n.nodes);
      forall i | 0 <= i < |ns| ensures NamesWithin(Pieces(env, ns[i]), reserved) {
        StripKeeps(env, n.nodes[i], reserved);
        PiecesNames(env, ns[i], reserved);
      }
      for k := 0 to |n.nodes|
        invariant Valid() && AllStand(env, ns[..k], old(reserved), old(bindVars), rs, reserved, bindVars)
        invariant Grows(old(vals), vals) && |rs| == k
        invariant forall i :: 0 <= i < k ==> Replaces(env, vals, n.nodes[i], rs[i], inSelect)
      {
        ghost var names1, vars1, vals1 := reserved, bindVars, vals;
        var r := Walk(n.nodes[k], inSelect);
        forall i | 0 <= i < k ensures Replaces(env, vals, n.nodes[i], rs[i], inSelect) {
          ReplacesLater(env, vals1, vals, n.nodes[i], rs[i], inSelect);
        }
        AllStandOneMore(env, ns, k, old(reserved), old(bindVars), rs, names1, vars1, r, reserved, bindVars);
        rs := rs + [r];
      }
      assert ns[..|ns|] == ns;
    }

    /** A comparison: the right-hand side is converted first; if that fails its values are visited one by one. */
    method WalkComparison(n: Node, inSelect: bool) returns (r: Node)
      requires Valid() && n.Op? && n.kind.Comparison? && WellFormed(n) && NoEmptyTuples(n) && Within(n, reserved)
      requires WellFormed(Strip(env, n))
      modifies this
      ensures Valid() && Stands(env, Strip(env, n), old(reserved), old(bindVars), r, reserved, bindVars)
      ensures Grows(old(vals), vals) && Replaces(env, vals, n, r, inSelect)
      decreases n, 0
    {
      hide Pieces, Substituted, NamesWithin, Stands, Listable, PlainList, Bare, Replaces, Strip;
      var left, right := n.nodes[0], n.nodes[1];
      ghost var names, vars := reserved, bindVars;
      StripKeeps(env, left, names);
      StripKeeps(env, right, names);
      PiecesNames(env, Strip(env, left), names);
      PiecesNames(env, Strip(env, right), names);
      var right', converted := ConvertComparison(n.kind.operator, right);
      ghost var names1, vars1 := reserved, bindVars;
      if converted { StandsKept(env, Bare(env, right), names, vars, right', names1, vars1); }
      var left' := Walk(left, inSelect);
      StandsKept(env, Strip(env, left), names1, vars1, left', reserved, bindVars);
      StandsEarlier(env, Strip(env, left), names, vars, names1, vars1, left', reserved, bindVars);
      ghost var stripped := if converted then Bare(env, right) else Strip(env, right);
      if converted {
        StandsLater(env, stripped, names, vars, right', names1, vars1, reserved, bindVars);
      } else {
        ghost var names2, vars2, vals2 := reserved, bindVars, vals;
        right' := Walk(right, inSelect);
        ReplacesLater(env, vals2, vals, left, left', inSelect);
        StandsKept(env, stripped, names2, vars2, right', reserved, bindVars);
        StandsEarlier(env, stripped, names, vars, names2, vars2, right', reserved, bindVars);
        StandsLater(env, Strip(env, left), names, vars, left', names2, vars2, reserved, bindVars);
      }
      r := Op(n.kind, [left', right']);
      ComparisonReplaces(env, vals, n, left', right', inSelect);
      ComparisonStands(env, n, names, vars, left', right', reserved, bindVars);
    }
  }

  lemma ComparisonStands(env: Env, n: Node, names: set<string>, vars: BindVars, left: Node, right: Node,
                         names': set<string>, vars': BindVars)
    requires n.Op? && n.kind.Comparison? && |n.nodes| == 2 && WellFormed(Strip(env, n))
             && WellFormed(Strip(env, n.nodes[0]))
    requires Stands(env, Strip(env, n.nodes[0]), names, vars, left, names', vars')
    requires var stripped := if Lists(env, n.kind, n.nodes) then Bare(env, n.nodes[1]) else Strip(env, n.nodes[1]);
             WellFormed(stripped) && Stands(env, stripped, names, vars, right, names', vars')
    ensures Stands(env, Strip(env, n), names, vars, Op(n.kind, [left, right]), names', vars')
  {
    hide Stands, Listable, Bare, Strip, WellFormed;
    var stripped := if Lists(env, n.kind, n.nodes) then Bare(env, n.nodes[1]) else Strip(env, n.nodes[1]);
    StripComparison(env, n);
    StandsKept(env, stripped, names, vars, right, names', vars');
    NodeStands(env, Strip(env, n), names, vars, [left, right], names', vars');
  }

  lemma StripComparison(env: Env, n: Node)
    requires n.Op? && n.kind.Comparison? && |n.nodes| == 2
    ensures Strip(env, n) == Op(n.kind, [Strip(env, n.nodes[0]),
                                         if Lists(env, n.kind, n.nodes) then Bare(env, n.nodes[1])
                                           else Strip(env, n.nodes[1])])
  {
    hide Listable, Bare;
    assert StripAll(env, n.nodes) == [Strip(env, n.nodes[0]), Strip(env, n.nodes[1])];
  }

  predicate IsTuple(n: Node) {
    n.Op? && n.kind.Tuple? && |n.nodes| == 1 && n.nodes[0].List? && n.nodes[0].lead == ""
  }

  /** The bind arguments of the node are proper and their names are taken. */
  predicate Within(n: Node, names: set<string>) { ProperArgs(n) && GetBindvars(n) <= names }

  /** GetBindvars finds every argument that is printed by name. */
  lemma {:induction false} PiecesNames(env: Env, n: Node, names: set<string>)
    requires WellFormed(n) && Within(n, names)
    ensures NamesWithin(Pieces(env, n), names)
    decreases n
  {
    match n
    case Val(ty, val, castType) =>
      assert NamesWithin(LiteralPieces(env, ty, val), names);
    case ListArg(arg) =>
    case Op(kind, nodes) =>
      hide Pieces;
      var ps := PiecesOfAll(env, nodes);
      forall i | 0 <= i < |nodes| ensures NamesWithin(ps[i], names) {
        assert GetBindvars(nodes[i]) <= GetBindvars(n);
        PiecesNames(env, nodes[i], names);
      }
      OpPrints(env, n);
      ExpandNames(Layout(kind), ps, names);
    case List(lead, nodes) =>
      hide Pieces;
      var ps := PiecesOfAll(env, nodes);
      forall i | 0 <= i < |nodes| ensures NamesWithin(ps[i], names) {
        assert GetBindvars(nodes[i]) <= GetBindvars(n);
        PiecesNames(env, nodes[i], names);
      }
      ListPrints(env, n);
      JoinedNames(lead, ps, names);
  }

  /** A numeral beyond the ones seen gives a name not seen. */
  lemma NumeralsDiffer(prefix: string, start: nat, counter: nat, names: set<string>)
    requires forall s :: s in names ==> exists j :: start <= j < counter && s == prefix + Decimal.DecimalString(j)
    ensures prefix + Decimal.DecimalString(counter) !in names
  {
    var name := prefix + Decimal.DecimalString(counter);
    if name in names {
      var j :| start <= j < counter && name == prefix + Decimal.DecimalString(j);
      assert name[|prefix|..] == Decimal.DecimalString(j) == Decimal.DecimalString(counter);
      Decimal.DecimalStringInjective(j, counter);
      assert false;
    }
  }

  /** The key of a literal fits its own variable: a number's text never starts with a quote. */
  lemma KeyOfLiteral(env: Env, n: Node)
    requires NumbersUnquoted(env) && SqlToBindvar(env, n).Some?
    ensures KeyFits(KeyOf(env, n), SqlToBindvar(env, n).value)
  {
    assert ("'" + n.val)[1..] == n.val;
  }

  /** Variables that fit one key are written alike. */
  lemma SameKey(env: Env, key: string, v: BindVariable, w: BindVariable)
    requires KeyFits(key, v) && KeyFits(key, w)
    ensures Encoded(env, v) == Encoded(env, w)
  {
  }

  /** A literal that never stays: a string, or a number that parses. */
  predicate Convertible(env: Env, n: Node) {
    n.Val? && (n.ty.StrVal? || (n.ty.IntVal? && env.isInt(n.val)) || (n.ty.FloatVal? && env.isFloat(n.val)))
  }

  predicate NoneConvertible(env: Env, n: Node) {
    match n
    case Val(_, _, _) => !Convertible(env, n)
    case ListArg(_) => true
    case Op(_, nodes) => forall i :: 0 <= i < |nodes| ==> NoneConvertible(env, nodes[i])
    case List(_, nodes) => forall i :: 0 <= i < |nodes| ==> NoneConvertible(env, nodes[i])
  }

  /** After normalization no such literal is left anywhere in the tree. */
  lemma {:induction false} NothingLeft(env: Env, vals: map<string, string>, n: Node, r: Node, inSelect: bool)
    requires Replaces(env, vals, n, r, inSelect)
    ensures NoneConvertible(env, r)
    decreases n
  {
    match n
    case Val(_, _, _) =>
    case ListArg(_) =>
    case Op(kind, nodes) =>
      if Lists(env, kind, nodes) {
        NothingLeft(env, vals, nodes[0], r.nodes[0], inSelect);
      } else {
        forall i | 0 <= i < |nodes| ensures NoneConvertible(env, r.nodes[i]) {
          NothingLeft(env, vals, nodes[i], r.nodes[i], inSelect || kind.Select?);
        }
      }
    case List(_, nodes) =>
      forall i | 0 <= i < |nodes| ensures NoneConvertible(env, r.nodes[i]) {
        NothingLeft(env, vals, nodes[i], r.nodes[i], inSelect);
      }
  }

  /** A list of such literals under IN or NOT IN becomes one list variable. */
  lemma ListBecomesOne(env: Env, vals: map<string, string>, n: Node, r: Node, inSelect: bool)
    requires Replaces(env, vals, n, r, inSelect)
    requires n.Op? && n.kind in {Comparison("in"), Comparison("not in")} && |n.nodes| == 2
    requires var tuple := n.nodes[1];
             && tuple.Op? && tuple.kind == Tuple && |tuple.nodes| == 1
             && tuple.nodes[0].List? && tuple.nodes[0].lead == ""
             && forall i :: 0 <= i < |tuple.nodes[0].nodes| ==> Convertible(env, tuple.nodes[0].nodes[i])
    ensures r.Op? && |r.nodes| == 2 && r.nodes[1].ListArg?
  {
  }

  /** Equal literals of at most 256 characters inside a Select share one variable. */
  lemma EqualLiteralsShare(env: Env, vals: map<string, string>, a: Node, a': Node, b: Node, b': Node)
    requires Replaces(env, vals, a, a', true) && Replaces(env, vals, b, b', true)
    requires Convertible(env, a) && Convertible(env, b) && a.ty == b.ty && a.val == b.val && |a.val| <= 256
    ensures a'.Val? && b'.Val? && a'.ty.ValArg? && a'.val == b'.val
  {
  }

  // ---- the whole pass --------------------------------------------------------------------------------------

  /** Normalize: the new statement stands for the old one without the lost casts. */
  method Normalize(env: Env, stmt: Node, bindVars: BindVars, prefix: string)
      returns (r: Node, vars: BindVars, ghost names: set<string>)
    requires NumbersUnquoted(env) && WellFormed(stmt) && ProperArgs(stmt) && NoEmptyTuples(stmt)
             && StartsWith(prefix, VALUE_MASK)
    ensures WellFormed(Strip(env, stmt)) && Stands(env, Strip(env, stmt), GetBindvars(stmt), bindVars, r, names, vars)
    ensures exists vals :: Replaces(env, vals, stmt, r, false)
    ensures NoneConvertible(env, r)
  {
    hide Strip, Stands, Pieces, Substituted;
    StripKeeps(env, stmt, GetBindvars(stmt));
    var nz := new Normalizer(env, stmt, bindVars, prefix);
    r := nz.Walk(stmt, false);
    NothingLeft(env, nz.vals, stmt, r, false);
    vars, names := nz.bindVars, nz.reserved;
  }

  /** NewParsedQuery and GenerateQuery. */
  method PrintAndGenerate(env: Env, n: Node, vars: BindVars) returns (query: string, r: Outcome)
    requires WellFormed(n)
    ensures query == Printed(env, n) && r == Substituted(env, Pieces(env, n), vars)
  {
    hide Pieces, Substituted, Text, Locations, Printed;
    var buf := new TrackedBuffer();
    buf.FormatNode(env, n);
    assert [] + Pieces(env, n) == Pieces(env, n);
    query := buf.text;
    r := GenerateQuery(env, buf.text, buf.bindLocations, vars, map[], buf.pieces);
  }

  /**
   Normalizing a statement and generating the query from the collected variables gives what generating the original
   gives; for a statement without bind arguments that is its printed text, exactly when no cast stands inside a list
   under IN.
   */
  method NormalizeAndGenerate(env: Env, stmt: Node, bindVars: BindVars, prefix: string) returns (r: Outcome)
    requires NumbersUnquoted(env) && WellFormed(stmt) && ProperArgs(stmt) && NoEmptyTuples(stmt)
             && StartsWith(prefix, VALUE_MASK)
    ensures CastsKept(env, stmt) ==> r == Substituted(env, Pieces(env, stmt), bindVars)
    ensures GetBindvars(stmt) == {} ==> (r == Ok(Printed(env, stmt)) <==> CastsKept(env, stmt))
  {
    hide Pieces, Substituted, Text, Strip, CastsKept, GetBindvars, Printed;
    PiecesPrinted(env, stmt);
    var normalized, vars, _ := Normalize(env, stmt, bindVars, prefix);
    var _, result := PrintAndGenerate(env, normalized, vars);
    StripExact(env, stmt);
    if GetBindvars(stmt) == {} {
      NoBindArgs(env, stmt, bindVars);
      StripKeeps(env, stmt, {});
      NoBindArgs(env, Strip(env, stmt), bindVars);
    }
    r := result;
  }

  /** A statement without bind arguments generates its own text. */
  lemma NoBindArgs(env: Env, n: Node, vars: BindVars)
    requires WellFormed(n) && Within(n, {})
    ensures Substituted(env, Pieces(env, n), vars) == Ok(Text(Pieces(env, n)))
  {
    PiecesNames(env, n, {});
    SubstitutedText(env, Pieces(env, n), vars);
  }

  /** Without the mask a variable is printed as a question mark, and no query can be generated from it. */
  lemma MaskNeeded(env: Env, prefix: string, counter: nat, castType: string, vars: BindVars)
    requires !StartsWith(prefix, VALUE_MASK)
    ensures var n := Val(ValArg, ":" + (prefix + Decimal.DecimalString(counter)), castType);
            Substituted(env, Pieces(env, n), vars) == Err(BadName)
  {
    hide Substituted;
    var digits := Decimal.DecimalString(counter);
    var name := prefix + digits;
    assert !StartsWith(name, VALUE_MASK) by {
      if |prefix| < 8 <= |name| {
        assert name[..8][|prefix|] == digits[0] != VALUE_MASK[|prefix|];
      } else if |prefix| >= 8 {
        assert name[..8] == prefix[..8];
      }
    }
    assert (":" + name)[1..] == name && (":" + name)[..1] == ":";
    SubstitutedArg(env, "?", vars);
    SubstitutedAppend(env, [Arg("?")], Chars(castType), vars);
  }

  // ---- lost casts ------------------------------------------------------------------------------------------

  /** No literal of a list that becomes a variable carries a cast. */
  predicate CastsKept(env: Env, n: Node) {
    match n
    case Val(_, _, _) => true
    case ListArg(_) => true
    case Op(kind, nodes) =>
      && (Lists(env, kind, nodes) ==>
            forall i :: 0 <= i < |nodes[1].nodes[0].nodes| ==> nodes[1].nodes[0].nodes[i].castType == "")
      && forall i :: 0 <= i < |nodes| ==> CastsKept(env, nodes[i])
    case List(_, nodes) => forall i :: 0 <= i < |nodes| ==> CastsKept(env, nodes[i])
  }

  function Length(env: Env, n: Node): nat
    requires WellFormed(n)
  {
    |Text(Pieces(env, n))|
  }

  lemma {:induction false} ExpandShorter(vs: seq<Verb>, ps: seq<seq<Piece>>, qs: seq<seq<Piece>>)
    requires |ps| == |qs| && forall i :: 0 <= i < |vs| && vs[i].V? ==> vs[i].child < |ps|
    requires forall i :: 0 <= i < |ps| ==> |Text(qs[i])| <= |Text(ps[i])|
    ensures |Text(Expand(vs, qs))| <= |Text(Expand(vs, ps))|
    ensures (exists k :: 0 <= k < |vs| && vs[k].V? && |Text(qs[vs[k].child])| < |Text(ps[vs[k].child])|) ==>
              |Text(Expand(vs, qs))| < |Text(Expand(vs, ps))|
    decreases |vs|
  {
    hide Text;
    if vs != [] {
      var n := |vs| - 1;
      ExpandShorter(vs[..n], ps, qs);
      TextAppend(Expand(vs[..n], ps), match vs[n] case T(text) => Chars(text) case V(i) => ps[i]);
      TextAppend(Expand(vs[..n], qs), match vs[n] case T(text) => Chars(text) case V(i) => qs[i]);
      assert forall k :: 0 <= k < n ==> vs[..n][k] == vs[k];
    }
  }

  lemma {:induction false} JoinedShorter(lead: string, ps: seq<seq<Piece>>, qs: seq<seq<Piece>>)
    requires |ps| == |qs| && forall i :: 0 <= i < |ps| ==> |Text(qs[i])| <= |Text(ps[i])|
    ensures |Text(Joined(lead, qs))| <= |Text(Joined(lead, ps))|
    ensures (exists k :: 0 <= k < |ps| && |Text(qs[k])| < |Text(ps[k])|)
            ==> |Text(Joined(lead, qs))| < |Text(Joined(lead, ps))|
    decreases |ps|
  {
    hide Text;
    if ps != [] {
      JoinedShorter(", ", ps[1..], qs[1..]);
      assert forall k :: 1 <= k < |ps| ==> ps[1..][k - 1] == ps[k] && qs[1..][k - 1] == qs[k];
      TextAppend(Chars(lead), ps[0]);
      TextAppend(Chars(lead), qs[0]);
      TextAppend(Chars(lead) + ps[0], Joined(", ", ps[1..]));
      TextAppend(Chars(lead) + qs[0], Joined(", ", qs[1..]));
    }
  }

  /** Every child of a node is printed. */
  lemma LayoutCovers(kind: Kind, i: nat)
    requires i < Arity(kind)
    ensures exists k :: 0 <= k < |Layout(kind)| && Layout(kind)[k] == V(i)
  {
    var vs := Layout(kind);
    if kind.Select? {
      var k := [1, 5, 7, 8, 9, 10, 11, 12][i];
      assert vs[k] == V(i);
    } else if kind.Update? {
      var k := [1, 2, 4, 5, 6, 7][i];
      assert vs[k] == V(i);
    } else if kind.LimitOffset? {
      assert vs[3] == V(0) && vs[1] == V(1);
    } else {
      assert i == 0 ==> V(0) in vs;
      assert i == 1 ==> vs[|vs| - 1] == V(1);
    }
  }

  /** A node whose children print no more prints no more, and less if some child prints less. */
  lemma NodeShorter(env: Env, n: Node, rs: seq<Node>)
    requires (n.Op? || n.List?) && WellFormed(n) && WellFormed(WithNodes(n, rs)) && |rs| == |n.nodes|
    requires forall i :: 0 <= i < |rs| ==> Length(env, rs[i]) <= Length(env, n.nodes[i])
    ensures Length(env, WithNodes(n, rs)) <= Length(env, n)
    ensures (exists i :: 0 <= i < |rs| && Length(env, rs[i]) < Length(env, n.nodes[i]))
            ==> Length(env, WithNodes(n, rs)) < Length(env, n)
  {
    hide Text, Pieces, Layout, WellFormed;
    var r := WithNodes(n, rs);
    NodesWellFormed(n);
    NodesWellFormed(r);
    var ps, qs := PiecesOfAll(env, n.nodes), PiecesOfAll(env, rs);
    if n.Op? {
      OpPrints(env, n);
      OpPrints(env, r);
      ExpandShorter(Layout(n.kind), ps, qs);
      if i :| 0 <= i < |rs| && Length(env, rs[i]) < Length(env, n.nodes[i]) {
        LayoutCovers(n.kind, i);
      }
    } else {
      ListPrints(env, n);
      ListPrints(env, r);
      JoinedShorter(n.lead, ps, qs);
      assert forall i :: 0 <= i < |rs| ==>
                           Length(env, rs[i]) == |Text(qs[i])| && Length(env, n.nodes[i]) == |Text(ps[i])|;
    }
  }

  lemma NodesWellFormed(n: Node)
    requires (n.Op? || n.List?) && WellFormed(n)
    ensures forall i :: 0 <= i < |n.nodes| ==> WellFormed(n.nodes[i])
    ensures n.Op? ==> |n.nodes| == Arity(n.kind)
  {
  }

  lemma LiteralLength(env: Env, n: Node)
    requires n.Val?
    ensures Length(env, n) == |Text(LiteralPieces(env, n.ty, n.val))| + |n.castType|
  {
    TextAppend(LiteralPieces(env, n.ty, n.val), Chars(n.castType));
    TextOfChars(n.castType);
  }

  lemma BareShorter(env: Env, n: Node)
    requires Listable(env, n) && WellFormed(n)
    ensures WellFormed(Bare(env, n)) && Length(env, Bare(env, n)) <= Length(env, n)
    ensures (exists i :: 0 <= i < |n.nodes[0].nodes| && n.nodes[0].nodes[i].castType != "")
            ==> Length(env, Bare(env, n)) < Length(env, n)
    ensures (forall i :: 0 <= i < |n.nodes[0].nodes| ==> n.nodes[0].nodes[i].castType == "") ==> Bare(env, n) == n
  {
    hide Text, Pieces, Length;
    BareKeeps(env, n, {});
    var inner, bare := n.nodes[0], Bare(env, n).nodes[0];
    forall i | 0 <= i < |inner.nodes|
      ensures Length(env, bare.nodes[i]) == Length(env, inner.nodes[i]) - |inner.nodes[i].castType|
    {
      LiteralLength(env, inner.nodes[i]);
      LiteralLength(env, bare.nodes[i]);
    }
    NodeShorter(env, inner, bare.nodes);
    NodeShorter(env, n, [bare]);
    if forall i :: 0 <= i < |inner.nodes| ==> inner.nodes[i].castType == "" {
      assert bare.nodes == inner.nodes;
      assert n.nodes == [inner];
    }
  }

  /** The child at position i becomes a list variable. */
  predicate ListedAt(env: Env, n: Node, i: nat) { n.Op? && Lists(env, n.kind, n.nodes) && i == 1 }

  lemma StripChildren(env: Env, n: Node)
    requires (n.Op? || n.List?) && WellFormed(n) && WellFormed(Strip(env, n))
    ensures |Strip(env, n).nodes| == |n.nodes| && Strip(env, n) == WithNodes(n, Strip(env, n).nodes)
    ensures forall i :: 0 <= i < |n.nodes| && !ListedAt(env, n, i) ==>
              Strip(env, n).nodes[i] == Strip(env, n.nodes[i]) && WellFormed(Strip(env, n.nodes[i]))
    ensures forall i :: 0 <= i < |n.nodes| && ListedAt(env, n, i) ==>
              Listable(env, n.nodes[i]) && Strip(env, n).nodes[i] == Bare(env, n.nodes[i])
  {
    hide Listable;
    NodesWellFormed(Strip(env, n));
  }

  /** Every cast of the child survives: none in a list that becomes a variable, and none is lost further down. */
  predicate ChildKept(env: Env, n: Node, i: nat)
    requires (n.Op? || n.List?) && i < |n.nodes|
  {
    if ListedAt(env, n, i) then
      forall j :: 0 <= j < |n.nodes[1].nodes[0].nodes| ==> n.nodes[1].nodes[0].nodes[j].castType == ""
    else CastsKept(env, n.nodes[i])
  }

  lemma CastsKeptByChild(env: Env, n: Node)
    requires n.Op? || n.List?
    ensures CastsKept(env, n) <==> forall i :: 0 <= i < |n.nodes| ==> ChildKept(env, n, i)
  {
    hide Listable;
    if n.Op? && Lists(env, n.kind, n.nodes) { ListableKeeps(env, n.nodes[1]); }
    if CastsKept(env, n) {
      forall i | 0 <= i < |n.nodes| ensures ChildKept(env, n, i) {
        assert CastsKept(env, n.nodes[i]);
      }
    }
    if forall i :: 0 <= i < |n.nodes| ==> ChildKept(env, n, i) {
      forall i | 0 <= i < |n.nodes| ensures CastsKept(env, n.nodes[i]) {
        assert ChildKept(env, n, i);
      }
      if n.Op? && Lists(env, n.kind, n.nodes) { assert ChildKept(env, n, 1); }
    }
  }

  /** Losing a cast makes the text shorter; without such casts nothing changes. */
  lemma {:induction false} StripShorter(env: Env, n: Node)
    requires WellFormed(n) && WellFormed(Strip(env, n))
    ensures Length(env, Strip(env, n)) <= Length(env, n)
    ensures if CastsKept(env, n) then Strip(env, n) == n else Length(env, Strip(env, n)) < Length(env, n)
    decreases n
  {
    if n.Op? || n.List? {
      hide Length, CastsKept, Strip, WellFormed, Bare, Listable;
      var rs := Strip(env, n).nodes;
      StripChildren(env, n);
      NodesWellFormed(n);
      NodesWellFormed(Strip(env, n));
      forall i | 0 <= i < |n.nodes|
        ensures Length(env, rs[i]) <= Length(env, n.nodes[i])
        ensures if ChildKept(env, n, i) then rs[i] == n.nodes[i] else Length(env, rs[i]) < Length(env, n.nodes[i])
      {
        if ListedAt(env, n, i) { BareShorter(env, n.nodes[i]); } else { StripShorter(env, n.nodes[i]); }
      }
      NodeShorter(env, n, rs);
      CastsKeptByChild(env, n);
      if CastsKept(env, n) { assert rs == n.nodes; }
    }
  }

  lemma ListableKeeps(env: Env, n: Node)
    requires Listable(env, n)
    ensures CastsKept(env, n)
  {
    assert forall i :: 0 <= i < |n.nodes[0].nodes| ==> CastsKept(env, n.nodes[0].nodes[i]);
    assert CastsKept(env, n.nodes[0]);
  }

  lemma StripExact(env: Env, n: Node)
    requires WellFormed(n) && WellFormed(Strip(env, n))
    ensures if CastsKept(env, n) then Strip(env, n) == n else Text(Pieces(env, Strip(env, n))) != Text(Pieces(env, n))
  {
    StripShorter(env, n);
  }

  /** A comparison of a column with a list of one literal under IN. */
  function OneInList(column: string, literal: Node): Node {
    Op(Comparison("in"), [Op(Name(column), []), Op(Tuple, [List("", [literal])])])
  }

  lemma OneInListShape(column: string, literal: Node)
    requires literal.Val? && !literal.ty.ValArg?
    ensures var n := OneInList(column, literal); WellFormed(n) && Within(n, {}) && NoEmptyTuples(n)
  {
    var inner := List("", [literal]);
    var name, tuple := Op(Name(column), []), Op(Tuple, [inner]);
    var n := OneInList(column, literal);
    NoArgsBelow(inner);
    NoArgsBelow(name);
    assert |tuple.nodes| == Arity(tuple.kind) && tuple.nodes[0] == inner;
    NoArgsBelow(tuple);
    assert |n.nodes| == Arity(n.kind) && n.nodes[0] == name && n.nodes[1] == tuple;
    NoArgsBelow(n);
  }

  lemma NoArgsBelow(n: Node)
    requires (n.Op? || n.List?) && (n.Op? ==> |n.nodes| == Arity(n.kind)) && (IsTuple(n) ==> n.nodes[0].nodes != [])
    requires forall i :: 0 <= i < |n.nodes| ==>
                           WellFormed(n.nodes[i]) && Within(n.nodes[i], {}) && NoEmptyTuples(n.nodes[i])
    ensures WellFormed(n) && Within(n, {}) && NoEmptyTuples(n)
  {
  }

  /** A cast on the literal is lost, and with it the text: for example in `c in (1::int)`. */
  lemma LostCastExample(env: Env, column: string, literal: Node)
    requires literal.Val? && SqlToBindvar(env, literal).Some? && literal.castType != ""
    ensures var n := OneInList(column, literal);
            && WellFormed(n) && Within(n, {}) && NoEmptyTuples(n) && !CastsKept(env, n)
            && WellFormed(Strip(env, n)) && Text(Pieces(env, Strip(env, n))) != Text(Pieces(env, n))
  {
    hide Text, Pieces, Strip, CastsKept, WellFormed, Within, NoEmptyTuples;
    var n := OneInList(column, literal);
    OneInListShape(column, literal);
    NotKept(env, n);
    StripKeeps(env, n, {});
    StripExact(env, n);
  }

  lemma NotKept(env: Env, n: Node)
    requires n.Op? && Lists(env, n.kind, n.nodes) && n.nodes[1].nodes[0].nodes != []
             && n.nodes[1].nodes[0].nodes[0].castType != ""
    ensures !CastsKept(env, n)
  {
  }
}
