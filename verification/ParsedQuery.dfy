/** Substituting bind variables into a printed query by its recorded locations (sqlparser/parsed_query.go). */
module ParsedQuery {
  import opened Outcomes
  import opened QueryText

  datatype BindType = VarBinary | Int64 | Float64

  datatype BindVariable = Scalar(ty: BindType, value: string) | TupleOf(values: seq<(BindType, string)>)

  type BindVars = map<string, BindVariable>

  /** Parameters that encode themselves, by the text they write. */
  type Extras = map<string, string>

  /** BadName stands for the out-of-range access on a name that has nothing behind its first character. */
  datatype BindError = Missing(name: string) | NotAList(name: string) | EmptyList(name: string)
                     | UnexpectedList(name: string) | BadName

  /** Value.EncodeSQL. */
  function EncodeSQL(env: Env, ty: BindType, value: string): string {
    if ty.VarBinary? then env.quote(value) else value
  }

  function EncodeTuple(env: Env, separator: string, values: seq<(BindType, string)>): string
    decreases |values|
  {
    if values == [] then ""
    else separator + EncodeSQL(env, values[0].0, values[0].1) + EncodeTuple(env, ", ", values[1..])
  }

  function Encoded(env: Env, v: BindVariable): string {
    match v
    case Scalar(ty, value) => EncodeSQL(env, ty, value)
    case TupleOf(values) => "(" + EncodeTuple(env, "", values) + ")"
  }

  /** EncodeValue. */
  method EncodeValue(env: Env, v: BindVariable) returns (r: string)
    ensures r == Encoded(env, v)
  {
    match v
    case Scalar(ty, value) => r := EncodeSQL(env, ty, value);
    case TupleOf(values) =>
      r := "(";
      for i := 0 to |values|
        invariant r + EncodeTuple(env, if i == 0 then "" else ", ", values[i..]) == "(" + EncodeTuple(env, "", values)
      {
        if i != 0 { r := r + ", "; }
        r := r + EncodeSQL(env, values[i].0, values[i].1);
        assert values[i..][1..] == values[i + 1..];
      }
      r := r + ")";
  }

  /** FetchBindVar. */
  function FetchBindVar(arg: string, vars: BindVars): Result<BindVariable, BindError> {
    if |arg| < 2 then Err(BadName)
    else
      var isList := arg[1] == ':';
      var name := ArgName(arg);
      if name !in vars then Err(Missing(name))
      else if isList then
        if !vars[name].TupleOf? then Err(NotAList(name))
        else if vars[name].values == [] then Err(EmptyList(name))
        else Ok(vars[name])
      else if vars[name].TupleOf? then Err(UnexpectedList(name))
      else Ok(vars[name])
  }

  /** The name of a bind argument without its one or two colons. */
  function ArgName(arg: string): string
    requires |arg| >= 2
  {
    if arg[1] == ':' then arg[2..] else arg[1..]
  }

  /** A list argument stands for a tuple with elements, any other for a variable that is no tuple. */
  lemma FetchExact(arg: string, vars: BindVars, v: BindVariable)
    requires |arg| >= 2
    ensures var list := arg[1] == ':';
            var name := if list then arg[2..] else arg[1..];
            var found := name in vars;
            var r := FetchBindVar(arg, vars);
            && (r == Ok(v) <==> found && v == vars[name] && (list <==> v.TupleOf?) && (list ==> v.values != []))
            && (r == Err(Missing(name)) <==> !found)
            && (r == Err(NotAList(name)) <==> found && list && vars[name].Scalar?)
            && (r == Err(EmptyList(name)) <==> found && list && vars[name] == TupleOf([]))
            && (r == Err(UnexpectedList(name)) <==> found && !list && vars[name].TupleOf?)
  {
  }

  // ---- substitution piece by piece -------------------------------------------------------------------------

  type Outcome = Result<string, BindError>

  function Then(a: Outcome, b: Outcome): Outcome {
    match a case Err(e) => Err(e) case Ok(x) => (match b case Err(e) => Err(e) case Ok(y) => Ok(x + y))
  }

  predicate Extra(arg: string, extras: Extras) {
    arg != "" && arg[1..] in extras
  }

  function ArgValue(env: Env, arg: string, vars: BindVars, extras: Extras := map[]): Outcome {
    if Extra(arg, extras) then Ok(extras[arg[1..]])
    else match FetchBindVar(arg, vars) case Ok(v) => Ok(Encoded(env, v)) case Err(e) => Err(e)
  }

  function PieceValue(env: Env, p: Piece, vars: BindVars, extras: Extras := map[]): Outcome {
    match p case Chr(c) => Ok([c]) case Arg(arg) => ArgValue(env, arg, vars, extras)
  }

  /** The query with every bind argument replaced by its value, or the first failure. */
  function Substituted(env: Env, ps: seq<Piece>, vars: BindVars, extras: Extras := map[]): Outcome {
    if ps == [] then Ok("")
    else Then(Substituted(env, ps[..|ps| - 1], vars, extras), PieceValue(env, ps[|ps| - 1], vars, extras))
  }

  lemma ThenAssociates(a: Outcome, b: Outcome, c: Outcome)
    ensures Then(Then(a, b), c) == Then(a, Then(b, c))
  {
    if a.Ok? && b.Ok? && c.Ok? { assert (a.value + b.value) + c.value == a.value + (b.value + c.value); }
  }

  lemma SubstitutedSnoc(env: Env, ps: seq<Piece>, p: Piece, vars: BindVars, extras: Extras := map[])
    ensures Substituted(env, ps + [p], vars, extras)
            == Then(Substituted(env, ps, vars, extras), PieceValue(env, p, vars, extras))
  {
    assert (ps + [p])[..|ps|] == ps;
  }

  lemma SubstitutedNil(env: Env, vars: BindVars, extras: Extras := map[])
    ensures Substituted(env, [], vars, extras) == Ok("")
  {
  }

  lemma {:induction false} SubstitutedAppend(env: Env, a: seq<Piece>, b: seq<Piece>, vars: BindVars,
                                             extras: Extras := map[])
    ensures Substituted(env, a + b, vars, extras)
            == Then(Substituted(env, a, vars, extras), Substituted(env, b, vars, extras))
    decreases |b|
  {
    hide Substituted, PieceValue;
    if b == [] {
      SubstitutedNil(env, vars, extras);
      assert a + b == a;
      var x := Substituted(env, a, vars, extras);
      if x.Ok? { assert x.value + "" == x.value; }
    } else {
      var n := |b| - 1;
      var front, last := b[..n], b[n];
      assert b == front + [last];
      SubstitutedAppend(env, a, front, vars, extras);
      SubstitutedSnoc(env, front, last, vars, extras);
      SubstitutedSnoc(env, a + front, last, vars, extras);
      assert a + b == a + front + [last];
      ThenAssociates(Substituted(env, a, vars, extras), Substituted(env, front, vars, extras),
                     PieceValue(env, last, vars, extras));
    }
  }

  /** Text without bind arguments substitutes to itself. */
  lemma {:induction false} SubstitutedText(env: Env, ps: seq<Piece>, vars: BindVars, extras: Extras := map[])
    requires forall i :: 0 <= i < |ps| ==> ps[i].Chr?
    ensures Substituted(env, ps, vars, extras) == Ok(Text(ps)) && Locations(ps) == []
    decreases |ps|
  {
    if ps != [] {
      SubstitutedText(env, ps[..|ps| - 1], vars, extras);
    }
  }

  /** Extras that no argument names change nothing. */
  lemma {:induction false} UnusedExtras(env: Env, ps: seq<Piece>, vars: BindVars, extras: Extras)
    requires forall i :: 0 <= i < |ps| && ps[i].Arg? ==> !Extra(ps[i].arg, extras)
    ensures Substituted(env, ps, vars, extras) == Substituted(env, ps, vars)
    decreases |ps|
  {
    if ps != [] {
      UnusedExtras(env, ps[..|ps| - 1], vars, extras);
    }
  }

  lemma SubstitutedChars(env: Env, s: string, vars: BindVars, extras: Extras := map[])
    ensures Substituted(env, Chars(s), vars, extras) == Ok(s)
  {
    SubstitutedText(env, Chars(s), vars, extras);
    TextOfChars(s);
  }

  // ---- bind locations --------------------------------------------------------------------------------------

  /** The locations of a prefix are a prefix of the locations, and so is the text. */
  lemma {:induction false} PrefixLocations(ps: seq<Piece>, m: nat)
    requires m <= |ps|
    ensures Locations(ps[..m]) <= Locations(ps) && Text(ps[..m]) <= Text(ps)
    decreases |ps|
  {
    if m == |ps| {
      assert ps[..m] == ps;
    } else {
      PrefixLocations(ps[..|ps| - 1], m);
      assert ps[..|ps| - 1][..m] == ps[..m];
    }
  }

  /** Bind offsets are exact: at each argument's location the text is that argument. */
  lemma LocationOfArg(ps: seq<Piece>, m: nat)
    requires m < |ps| && ps[m].Arg?
    ensures |Locations(ps[..m])| < |Locations(ps)|
    ensures Locations(ps)[|Locations(ps[..m])|] == BindLocation(|Text(ps[..m])|, |ps[m].arg|)
    ensures |Text(ps[..m])| + |ps[m].arg| <= |Text(ps)|
    ensures Text(ps)[|Text(ps[..m])|..|Text(ps[..m])| + |ps[m].arg|] == ps[m].arg
  {
    hide Text, Locations;
    PrefixLocations(ps, m + 1);
    assert ps[..m + 1] == ps[..m] + [ps[m]];
    ArgAppends(ps[..m], ps[m].arg);
    SliceOfPrefix(Text(ps[..m]), ps[m].arg, Text(ps));
  }

  lemma SliceOfPrefix(a: string, b: string, s: string)
    requires a + b <= s
    ensures |a| + |b| <= |s| && s[|a|..|a| + |b|] == b
  {
    assert s[..|a + b|] == a + b;
    assert (a + b)[|a|..] == b;
  }

  /** Bind locations are ordered, disjoint and inside the text. */
  lemma {:induction false} LocationsOrdered(ps: seq<Piece>, j: nat, k: nat)
    requires j < k < |Locations(ps)|
    ensures Locations(ps)[j].offset + Locations(ps)[j].length <= Locations(ps)[k].offset
    ensures Locations(ps)[k].offset + Locations(ps)[k].length <= |Text(ps)|
    decreases |ps|
  {
    var n := |ps| - 1;
    if k < |Locations(ps[..n])| {
      LocationsOrdered(ps[..n], j, k);
    } else {
      LocationsInside(ps[..n], j);
    }
  }

  lemma {:induction false} LocationsInside(ps: seq<Piece>, j: nat)
    requires j < |Locations(ps)|
    ensures Locations(ps)[j].offset + Locations(ps)[j].length <= |Text(ps)|
    decreases |ps|
  {
    var n := |ps| - 1;
    if j < |Locations(ps[..n])| { LocationsInside(ps[..n], j); }
  }

  /** The first argument at or after m. */
  ghost function NextArg(ps: seq<Piece>, m: nat): (r: nat)
    requires m <= |ps|
    ensures m <= r <= |ps| && (forall i :: m <= i < r ==> ps[i].Chr?) && (r < |ps| ==> ps[r].Arg?)
    decreases |ps| - m
  {
    if m == |ps| || ps[m].Arg? then m else NextArg(ps, m + 1)
  }

  /** Plain text between two positions: what GenerateQuery copies. */
  lemma {:induction false} Gap(env: Env, ps: seq<Piece>, m: nat, n: nat, vars: BindVars, extras: Extras := map[])
    requires m <= n <= |ps| && forall i :: m <= i < n ==> ps[i].Chr?
    ensures Locations(ps[..n]) == Locations(ps[..m])
    ensures |Text(ps[..m])| <= |Text(ps[..n])| <= |Text(ps)|
    ensures Substituted(env, ps[..n], vars, extras)
            == Then(Substituted(env, ps[..m], vars, extras), Ok(Text(ps)[|Text(ps[..m])|..|Text(ps[..n])|]))
  {
    hide Text, Locations, Substituted;
    var gap := ps[m..n];
    assert ps[..n] == ps[..m] + gap;
    TextAppend(ps[..m], gap);
    SubstitutedAppend(env, ps[..m], gap, vars, extras);
    SubstitutedText(env, gap, vars, extras);
    PrefixLocations(ps, n);
    CharsOnly(gap);
    CharsKeepLocations(ps[..m], Text(gap));
    assert Text(ps)[..|Text(ps[..n])|] == Text(ps[..n]);
    assert Text(ps)[|Text(ps[..m])|..|Text(ps[..n])|] == Text(gap);
  }

  lemma {:induction false} CharsOnly(ps: seq<Piece>)
    requires forall i :: 0 <= i < |ps| ==> ps[i].Chr?
    ensures Chars(Text(ps)) == ps
    decreases |ps|
  {
    if ps != [] {
      var n := |ps| - 1;
      CharsOnly(ps[..n]);
      assert ps == ps[..n] + [ps[n]];
      CharsAppend(Text(ps[..n]), [ps[n].c]);
    }
  }

  /** GenerateQuery: one pass over the locations, copying the text in between. */
  method GenerateQuery(env: Env, query: string, bindLocations: seq<BindLocation>, vars: BindVars, extras: Extras,
      ghost ps: seq<Piece>)
    returns (r: Outcome)
    requires query == Text(ps) && bindLocations == Locations(ps)
    ensures r == Substituted(env, ps, vars, extras)
  {
    hide Text, Locations, Substituted, FetchBindVar;
    var buf, current := "", 0;
    ghost var m := 0;
    Beginning(env, ps, vars, extras);
    for k := 0 to |bindLocations|
      invariant m <= |ps| && Locations(ps[..m]) == bindLocations[..k]
      invariant current == |Text(ps[..m])| <= |query| && Substituted(env, ps[..m], vars, extras) == Ok(buf)
    {
      ghost var next := NextArg(ps, m);
      Gap(env, ps, m, next, vars, extras);
      assert ps[..|ps|] == ps;
      LocationOfArg(ps, next);
      var loc := bindLocations[k];
      buf := buf + query[current..loc.offset];
      var name := query[loc.offset..loc.offset + loc.length];
      SubstitutedSnoc(env, ps[..next], ps[next], vars, extras);
      ArgAppends(ps[..next], name);
      assert ps[..next + 1] == ps[..next] + [ps[next]];
      PrefixLocations(ps, next + 1);
      if Extra(name, extras) {
        buf := buf + extras[name[1..]];
      } else {
        var supplied := FetchBindVar(name, vars);
        if supplied.Err? {
          Failing(env, ps, next + 1, vars, extras);
          return Err(supplied.error);
        }
        var value := EncodeValue(env, supplied.value);
        buf := buf + value;
      }
      current := loc.offset + loc.length;
      m := next + 1;
    }
    ghost var last := NextArg(ps, m);
    Gap(env, ps, m, last, vars, extras);
    if last < |ps| {
      LocationOfArg(ps, last);
      assert false;
    }
    assert ps[..last] == ps;
    assert query[current..|query|] == query[current..];
    r := Ok(buf + query[current..]);
  }

  lemma Beginning(env: Env, ps: seq<Piece>, vars: BindVars, extras: Extras := map[])
    ensures Locations(ps[..0]) == [] && Text(ps[..0]) == "" && Substituted(env, ps[..0], vars, extras) == Ok("")
  {
  }

  /** A failure inside a prefix is the failure of the whole. */
  lemma Failing(env: Env, ps: seq<Piece>, m: nat, vars: BindVars, extras: Extras := map[])
    requires m <= |ps| && Substituted(env, ps[..m], vars, extras).Err?
    ensures Substituted(env, ps, vars, extras) == Substituted(env, ps[..m], vars, extras)
  {
    SubstitutedAppend(env, ps[..m], ps[m..], vars, extras);
    assert ps[..m] + ps[m..] == ps;
  }
}
