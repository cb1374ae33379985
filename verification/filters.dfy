/** The predicate compiler behind every chart: per-dimension value lists become
    a `WHERE` string of fixed clause texts joined by " AND ", plus a map of
    bound parameters. A clause carries no value, so the string depends only on
    which inputs were given; the values travel in the parameter map.

    Row semantics follow SQL: a row is kept when every clause is TRUE, and a
    comparison with NULL is never TRUE. Turning a date parameter into a
    timestamp is the database's job and is passed in as `cast`. */
module Filters {
  import opened Base
  import opened Text

  /** The four categorical dimensions, in the order their clauses are added. */
  datatype Dim = Especialidade | FormaDePagamento | Profissional | TipoAtendimento

  function Column(d: Dim): string
  {
    match d
    case Especialidade => "especialidade"
    case FormaDePagamento => "forma_de_pagamento"
    case Profissional => "profissional"
    case TipoAtendimento => "tipo_atendimento"
  }

  /** The name a dimension's values are bound under. */
  function ParamKey(d: Dim): string
  {
    match d
    case Especialidade => "especialidades"
    case FormaDePagamento => "formas_pagamento"
    case Profissional => "profissionais"
    case TipoAtendimento => "segmentos"
  }

  function DimRank(d: Dim): nat
  {
    match d
    case Especialidade => 0
    case FormaDePagamento => 1
    case Profissional => 2
    case TipoAtendimento => 3
  }

  /** One condition of the `WHERE` string. */
  datatype Clause =
    | YearIn
    | MonthIn
    | IsNull(dim: Dim)
    | AnyOrNull(dim: Dim)
    | AnyOf(dim: Dim)
    | FromDate
    | ToDate

  /** The bind-parameter marker for a key. */
  function Placeholder(k: string): string
  {
    ":" + k
  }

  function Render(c: Clause): string
  {
    match c
    case YearIn => "EXTRACT(YEAR FROM data_atendimento) = ANY(" + Placeholder("anos") + ")"
    case MonthIn => "EXTRACT(MONTH FROM data_atendimento) = ANY(" + Placeholder("meses") + ")"
    case IsNull(d) => Column(d) + " IS NULL"
    case AnyOrNull(d) => "(" + Column(d) + " = ANY(" + Placeholder(ParamKey(d)) + ") OR " + Column(d) + " IS NULL)"
    case AnyOf(d) => Column(d) + " = ANY(" + Placeholder(ParamKey(d)) + ")"
    case FromDate => "data_atendimento >= " + Placeholder("data_inicial")
    case ToDate => "data_atendimento <= " + Placeholder("data_final")
  }

  /** The parameter a clause refers to, if any. */
  function Key(c: Clause): Option<string>
  {
    match c
    case YearIn => Some("anos")
    case MonthIn => Some("meses")
    case IsNull(_) => None
    case AnyOrNull(d) => Some(ParamKey(d))
    case AnyOf(d) => Some(ParamKey(d))
    case FromDate => Some("data_inicial")
    case ToDate => Some("data_final")
  }

  /** Position of a clause in the fixed order year, month, the four
      dimensions, start date, end date. */
  function Rank(c: Clause): nat
  {
    match c
    case YearIn => 0
    case MonthIn => 1
    case IsNull(d) => 2 + DimRank(d)
    case AnyOrNull(d) => 2 + DimRank(d)
    case AnyOf(d) => 2 + DimRank(d)
    case FromDate => 6
    case ToDate => 7
  }

  /** Every clause that names a parameter mentions it as `:key` in its text. */
  lemma PlaceholderMatchesKey(c: Clause)
    requires Key(c).Some?
    ensures IsInfix(Placeholder(Key(c).value), Render(c))
  {
    match c
    case YearIn => PlaceholderInFixed(c);
    case MonthIn => PlaceholderInFixed(c);
    case AnyOrNull(d) => PlaceholderInAnyOrNull(d);
    case AnyOf(d) => PlaceholderInAnyOf(d);
    case FromDate => PlaceholderInFixed(c);
    case ToDate => PlaceholderInFixed(c);
  }

  lemma PlaceholderInFixed(c: Clause)
    requires c.YearIn? || c.MonthIn? || c.FromDate? || c.ToDate?
    ensures IsInfix(Placeholder(Key(c).value), Render(c))
  {
    var k := Placeholder(Key(c).value);
    match c
    case YearIn =>
      InfixOfConcat("EXTRACT(YEAR FROM data_atendimento) = ANY(", k, ")");
    case MonthIn =>
      InfixOfConcat("EXTRACT(MONTH FROM data_atendimento) = ANY(", k, ")");
    case FromDate =>
      assert Render(c) == "data_atendimento >= " + k + "";
      InfixOfConcat("data_atendimento >= ", k, "");
    case ToDate =>
      assert Render(c) == "data_atendimento <= " + k + "";
      InfixOfConcat("data_atendimento <= ", k, "");
  }

  lemma PlaceholderInAnyOrNull(d: Dim)
    ensures IsInfix(Placeholder(ParamKey(d)), Render(AnyOrNull(d)))
  {
    var k := Placeholder(ParamKey(d));
    assert Render(AnyOrNull(d)) == ("(" + Column(d) + " = ANY(") + k + (") OR " + Column(d) + " IS NULL)");
    InfixOfConcat("(" + Column(d) + " = ANY(", k, ") OR " + Column(d) + " IS NULL)");
  }

  lemma PlaceholderInAnyOf(d: Dim)
    ensures IsInfix(Placeholder(ParamKey(d)), Render(AnyOf(d)))
  {
    InfixOfConcat(Column(d) + " = ANY(", Placeholder(ParamKey(d)), ")");
  }

  /** A clause without a parameter has no placeholder. */
  lemma NoPlaceholderWithoutKey(c: Clause)
    requires Key(c).None?
    ensures ':' !in Render(c)
  {
    assert ':' !in Column(c.dim);
  }

  /** A bound parameter value. */
  datatype Param = Ints(ints: seq<int>) | Strs(strs: seq<string>) | Text(text: string)

  /** A clause together with the value bound under its key. */
  datatype Part = Part(clause: Clause, param: Option<Param>)

  /** The arguments of the compiler. Each list may be absent; the categorical
      lists may hold `None` entries. */
  datatype FilterArgs = FilterArgs(
    anos: Option<seq<string>>,
    meses: Option<seq<string>>,
    especialidades: Option<seq<Option<string>>>,
    formasPagamento: Option<seq<Option<string>>>,
    profissionais: Option<seq<Option<string>>>,
    segmentos: Option<seq<Option<string>>>,
    dataInicial: Option<string>,
    dataFinal: Option<string>)

  function Values(a: FilterArgs, d: Dim): Option<seq<Option<string>>>
  {
    match d
    case Especialidade => a.especialidades
    case FormaDePagamento => a.formasPagamento
    case Profissional => a.profissionais
    case TipoAtendimento => a.segmentos
  }

  /** Python truthiness of an optional list: present and non-empty. */
  predicate Given<T>(xs: Option<seq<T>>)
  {
    xs.Some? && |xs.value| > 0
  }

  /** `[int(x) for x in xs]`, raising at the first string `int` rejects. */
  function ParseInts(xs: seq<string>): (r: Outcome<seq<int>>)
    ensures r.Ok? ==> |r.value| == |xs|
    ensures r.Raise? ==> r.error == ValueError
  {
    if |xs| == 0 then Ok([])
    else
      match ParseInt(xs[0])
      case Raise(e) => Raise(e)
      case Ok(x) =>
        match ParseInts(xs[1..])
        case Raise(e) => Raise(e)
        case Ok(rest) => Ok([x] + rest)
  }

  /** The conversion succeeds exactly when every string parses, and then
      holds each parsed value in order. */
  lemma {:induction false} ParseIntsSpec(xs: seq<string>)
    ensures ParseInts(xs).Ok? <==> forall i :: 0 <= i < |xs| ==> ParseInt(xs[i]).Ok?
    ensures ParseInts(xs).Ok? ==> forall i :: 0 <= i < |xs| ==> ParseInt(xs[i]) == Ok(ParseInts(xs).value[i])
  {
    if |xs| > 0 {
      var tail := xs[1..];
      ParseIntsSpec(tail);
      if ParseInt(xs[0]).Raise? {
        assert ParseInts(xs).Raise?;
      } else if ParseInts(tail).Raise? {
        ParseIntsTailFails(xs);
      } else {
        ParseIntsCons(xs);
      }
    }
  }

  /** A failing string past the head makes the whole conversion fail. */
  lemma ParseIntsTailFails(xs: seq<string>)
    requires |xs| > 0 && ParseInt(xs[0]).Ok?
    requires !forall i :: 0 <= i < |xs[1..]| ==> ParseInt(xs[1..][i]).Ok?
    requires ParseInts(xs[1..]).Raise?
    ensures ParseInts(xs).Raise?
    ensures !forall i :: 0 <= i < |xs| ==> ParseInt(xs[i]).Ok?
  {
    var j :| 0 <= j < |xs[1..]| && !ParseInt(xs[1..][j]).Ok?;
    assert xs[j + 1] == xs[1..][j];
  }

  /** A successful conversion is the head's value followed by the tail's. */
  lemma ParseIntsCons(xs: seq<string>)
    requires |xs| > 0 && ParseInt(xs[0]).Ok? && ParseInts(xs[1..]).Ok?
    requires forall i :: 0 <= i < |xs[1..]| ==> ParseInt(xs[1..][i]) == Ok(ParseInts(xs[1..]).value[i])
    ensures ParseInts(xs) == Ok([ParseInt(xs[0]).value] + ParseInts(xs[1..]).value)
    ensures forall i :: 0 <= i < |xs| ==> ParseInt(xs[i]) == Ok(ParseInts(xs).value[i])
  {
    var r := ParseInts(xs).value;
    var rest := ParseInts(xs[1..]).value;
    assert r == [ParseInt(xs[0]).value] + rest;
    forall i | 0 <= i < |xs| ensures ParseInt(xs[i]) == Ok(r[i]) {
      if i > 0 {
        assert xs[i] == xs[1..][i - 1] && r[i] == rest[i - 1];
      }
    }
  }

  /** `[v for v in vs if v is not None]` */
  function Present(vs: seq<Option<string>>): (r: seq<string>)
    ensures |r| <= |vs|
  {
    if |vs| == 0 then []
    else (if vs[0].Some? then [vs[0].value] else []) + Present(vs[1..])
  }

  /** Dropping `None` keeps exactly the present values, and the whole list
      when nothing is `None`. */
  lemma {:induction false} PresentSpec(vs: seq<Option<string>>)
    ensures forall v :: v in Present(vs) <==> Some(v) in vs
    ensures (forall i :: 0 <= i < |vs| ==> vs[i].Some?) ==>
              |Present(vs)| == |vs| && forall i :: 0 <= i < |vs| ==> Present(vs)[i] == vs[i].value
  {
    if |vs| > 0 {
      PresentSpec(vs[1..]);
      assert vs == [vs[0]] + vs[1..];
      var h := if vs[0].Some? then [vs[0].value] else [];
      assert Present(vs) == h + Present(vs[1..]);
      if forall i :: 0 <= i < |vs| ==> vs[i].Some? {
        assert forall i :: 1 <= i < |vs| ==> vs[i] == vs[1..][i - 1];
        assert forall i :: 1 <= i < |vs| ==> Present(vs)[i] == Present(vs[1..])[i - 1];
      }
    }
  }

  predicate AllNone(vs: seq<Option<string>>)
  {
    forall i :: 0 <= i < |vs| ==> vs[i].None?
  }

  /** The three-way rule for one non-empty categorical list. */
  function CategoryPart(d: Dim, vs: seq<Option<string>>): (r: Part)
    requires |vs| > 0
    ensures r.clause in {IsNull(d), AnyOrNull(d), AnyOf(d)}
    ensures r.param.None? <==> r.clause.IsNull?
  {
    if AllNone(vs) then Part(IsNull(d), None)
    else if None in vs then Part(AnyOrNull(d), Some(Strs(Present(vs))))
    else Part(AnyOf(d), Some(Strs(Present(vs))))
  }

  function DimPiece(a: FilterArgs, d: Dim): seq<Part>
  {
    if Given(Values(a, d)) then [CategoryPart(d, Values(a, d).value)] else []
  }

  /** Python truthiness of an optional string. */
  predicate GivenText(s: Option<string>)
  {
    s.Some? && |s.value| > 0
  }

  /** The inputs, in argument order: years, months, the four dimensions, the
      start date and the end date. Each contributes at most one clause. */
  const Inputs: nat := 8

  function DimAt(i: nat): Dim
  {
    if i == 2 then Especialidade
    else if i == 3 then FormaDePagamento
    else if i == 4 then Profissional
    else TipoAtendimento
  }

  /** The clause the `i`-th input contributes, if any. */
  function Piece(a: FilterArgs, ys: seq<int>, ms: seq<int>, i: nat): seq<Part>
  {
    if i == 0 then (if Given(a.anos) then [Part(YearIn, Some(Ints(ys)))] else [])
    else if i == 1 then (if Given(a.meses) then [Part(MonthIn, Some(Ints(ms)))] else [])
    else if i < 6 then DimPiece(a, DimAt(i))
    else if i == 6 then (if GivenText(a.dataInicial) then [Part(FromDate, Some(Text(a.dataInicial.value)))] else [])
    else if i == 7 then (if GivenText(a.dataFinal) then [Part(ToDate, Some(Text(a.dataFinal.value)))] else [])
    else []
  }

  /** The clauses of the first `k` inputs, in order. */
  function Assemble(a: FilterArgs, ys: seq<int>, ms: seq<int>, k: nat): seq<Part>
  {
    if k == 0 then [] else Assemble(a, ys, ms, k - 1) + Piece(a, ys, ms, k - 1)
  }

  function YearsOf(a: FilterArgs): Outcome<seq<int>>
  {
    if Given(a.anos) then ParseInts(a.anos.value) else Ok([])
  }

  function MonthsOf(a: FilterArgs): Outcome<seq<int>>
  {
    if Given(a.meses) then ParseInts(a.meses.value) else Ok([])
  }

  /** The clauses with their parameters, or the `ValueError` of `int()`. */
  function Compile(a: FilterArgs): (r: Outcome<seq<Part>>)
    ensures r.Raise? ==> r.error == ValueError
  {
    var ys := YearsOf(a);
    var ms := MonthsOf(a);
    if ys.Raise? then Raise(ys.error)
    else if ms.Raise? then Raise(ms.error)
    else Ok(Assemble(a, ys.value, ms.value, Inputs))
  }

  function Renders(parts: seq<Part>): (r: seq<string>)
    ensures |r| == |parts|
  {
    seq(|parts|, i requires 0 <= i < |parts| => Render(parts[i].clause))
  }

  /** The parameter map: each clause's key bound to its value. */
  function Params(parts: seq<Part>): map<string, Param>
  {
    if |parts| == 0 then map[]
    else
      var m := Params(parts[1..]);
      if Key(parts[0].clause).Some? && parts[0].param.Some?
      then m[Key(parts[0].clause).value := parts[0].param.value]
      else m
  }

  /** What the year and month conversions give, for the arguments at hand. */
  lemma ArgsParse(a: FilterArgs)
    ensures YearsOf(a).Ok? <==> !Given(a.anos) || forall i :: 0 <= i < |a.anos.value| ==> ParseInt(a.anos.value[i]).Ok?
    ensures Given(a.anos) && YearsOf(a).Ok? ==>
              |YearsOf(a).value| == |a.anos.value|
              && forall i :: 0 <= i < |a.anos.value| ==> ParseInt(a.anos.value[i]) == Ok(YearsOf(a).value[i])
    ensures MonthsOf(a).Ok? <==> !Given(a.meses) || forall i :: 0 <= i < |a.meses.value| ==> ParseInt(a.meses.value[i]).Ok?
    ensures Given(a.meses) && MonthsOf(a).Ok? ==>
              |MonthsOf(a).value| == |a.meses.value|
              && forall i :: 0 <= i < |a.meses.value| ==> ParseInt(a.meses.value[i]) == Ok(MonthsOf(a).value[i])
  {
    if Given(a.anos) {
      ParseIntsSpec(a.anos.value);
    }
    if Given(a.meses) {
      ParseIntsSpec(a.meses.value);
    }
  }

  /** `build_filter_conditions`: the `WHERE` string and the parameter map. */
  function BuildFilterConditions(a: FilterArgs): (r: Outcome<(string, map<string, Param>)>)
    ensures r.Raise? <==>
              || (Given(a.anos) && exists i :: 0 <= i < |a.anos.value| && ParseInt(a.anos.value[i]).Raise?)
              || (Given(a.meses) && exists i :: 0 <= i < |a.meses.value| && ParseInt(a.meses.value[i]).Raise?)
    ensures r.Raise? ==> r.error == ValueError
  {
    ArgsParse(a);
    match Compile(a)
    case Raise(e) => Raise(e)
    case Ok(parts) => Ok((Join(["1=1"] + Renders(parts), " AND "), Params(parts)))
  }

  // ----- Shape: what the `WHERE` string depends on -----

  /** Truthiness of the `i`-th input. */
  predicate GivenAt(a: FilterArgs, i: nat)
  {
    if i == 0 then Given(a.anos)
    else if i == 1 then Given(a.meses)
    else if i < 6 then Given(Values(a, DimAt(i)))
    else if i == 6 then GivenText(a.dataInicial)
    else i == 7 && GivenText(a.dataFinal)
  }

  /** The clause the `i`-th input calls for, read off its truthiness and, for a
      categorical list, off where it holds `None`: no input value enters. */
  function ShapePiece(a: FilterArgs, i: nat): seq<Clause>
  {
    if !GivenAt(a, i) then []
    else if i == 0 then [YearIn]
    else if i == 1 then [MonthIn]
    else if i < 6 then
      (if AllNone(Values(a, DimAt(i)).value) then [IsNull(DimAt(i))]
       else if None in Values(a, DimAt(i)).value then [AnyOrNull(DimAt(i))]
       else [AnyOf(DimAt(i))])
    else if i == 6 then [FromDate]
    else [ToDate]
  }

  function ShapeClauses(a: FilterArgs, k: nat): seq<Clause>
  {
    if k == 0 then [] else ShapeClauses(a, k - 1) + ShapePiece(a, k - 1)
  }

  function ClausesOf(parts: seq<Part>): (r: seq<Clause>)
    ensures |r| == |parts|
  {
    seq(|parts|, i requires 0 <= i < |parts| => parts[i].clause)
  }

  function RenderClauses(cs: seq<Clause>): (r: seq<string>)
    ensures |r| == |cs|
  {
    seq(|cs|, i requires 0 <= i < |cs| => Render(cs[i]))
  }

  lemma PieceShape(a: FilterArgs, ys: seq<int>, ms: seq<int>, i: nat)
    ensures ClausesOf(Piece(a, ys, ms, i)) == ShapePiece(a, i)
  {
  }

  lemma {:induction false} AssembleShape(a: FilterArgs, ys: seq<int>, ms: seq<int>, k: nat)
    ensures ClausesOf(Assemble(a, ys, ms, k)) == ShapeClauses(a, k)
  {
    if k > 0 {
      AssembleShape(a, ys, ms, k - 1);
      PieceShape(a, ys, ms, k - 1);
      var s, t := Assemble(a, ys, ms, k - 1), Piece(a, ys, ms, k - 1);
      assert ClausesOf(s + t) == ClausesOf(s) + ClausesOf(t);
    }
  }

  /** No interpolation: the `WHERE` string is a function of the input's shape
      alone, so two calls that differ only in the values give the same text. */
  lemma WhereDependsOnlyOnShape(a: FilterArgs)
    requires BuildFilterConditions(a).Ok?
    ensures BuildFilterConditions(a).value.0
         == Join(["1=1"] + RenderClauses(ShapeClauses(a, Inputs)), " AND ")
  {
    var parts := Compile(a).value;
    AssembleShape(a, YearsOf(a).value, MonthsOf(a).value, Inputs);
    assert Renders(parts) == RenderClauses(ClausesOf(parts));
  }

  /** " AND "-prefixed clause texts, concatenated. */
  function AndTail(rs: seq<string>): string
  {
    if |rs| == 0 then "" else " AND " + rs[0] + AndTail(rs[1..])
  }

  lemma {:induction false} JoinAsTail(h: string, rs: seq<string>)
    ensures Join([h] + rs, " AND ") == h + AndTail(rs)
    decreases |rs|
  {
    if |rs| > 0 {
      var xs := [h] + rs;
      assert xs[1..] == [rs[0]] + rs[1..];
      JoinAsTail(rs[0], rs[1..]);
    }
  }

  /** The `WHERE` string is `1=1` followed by " AND " and each clause in turn. */
  lemma WhereStartsWithTrue(a: FilterArgs)
    requires BuildFilterConditions(a).Ok?
    ensures BuildFilterConditions(a).value.0 == "1=1" + AndTail(Renders(Compile(a).value))
    ensures BuildFilterConditions(a).value.0[..3] == "1=1"
  {
    JoinAsTail("1=1", Renders(Compile(a).value));
  }

  // ----- Clause order and count -----

  predicate StrictlyRanked(parts: seq<Part>)
  {
    forall i, j :: 0 <= i < j < |parts| ==> Rank(parts[i].clause) < Rank(parts[j].clause)
  }

  predicate RanksBelow(parts: seq<Part>, k: nat)
  {
    forall i :: 0 <= i < |parts| ==> Rank(parts[i].clause) < k
  }

  lemma PieceRank(a: FilterArgs, ys: seq<int>, ms: seq<int>, i: nat)
    ensures |Piece(a, ys, ms, i)| == (if GivenAt(a, i) then 1 else 0)
    ensures |Piece(a, ys, ms, i)| == 1 ==> Rank(Piece(a, ys, ms, i)[0].clause) == i
  {
  }

  lemma {:induction false} AssembleRanked(a: FilterArgs, ys: seq<int>, ms: seq<int>, k: nat)
    ensures StrictlyRanked(Assemble(a, ys, ms, k)) && RanksBelow(Assemble(a, ys, ms, k), k)
  {
    if k > 0 {
      AssembleRanked(a, ys, ms, k - 1);
      PieceRank(a, ys, ms, k - 1);
      RankedAppend(Assemble(a, ys, ms, k - 1), Piece(a, ys, ms, k - 1), k - 1);
    }
  }

  /** Appending at most one clause of rank `k` to clauses ranked below `k`
      keeps the order strict. */
  lemma RankedAppend(s: seq<Part>, t: seq<Part>, k: nat)
    requires StrictlyRanked(s) && RanksBelow(s, k)
    requires |t| <= 1 && (|t| == 1 ==> Rank(t[0].clause) == k)
    ensures StrictlyRanked(s + t) && RanksBelow(s + t, k + 1)
  {
    assert forall i :: 0 <= i < |s| ==> (s + t)[i] == s[i];
  }

  /** Clauses appear in the fixed order year, month, especialidade,
      forma_de_pagamento, profissional, tipo_atendimento, start, end. */
  lemma ClauseOrder(a: FilterArgs)
    requires Compile(a).Ok?
    ensures StrictlyRanked(Compile(a).value)
  {
    AssembleRanked(a, YearsOf(a).value, MonthsOf(a).value, Inputs);
  }

  /** How many of the first `k` inputs are truthy. */
  function GivenCount(a: FilterArgs, k: nat): nat
  {
    if k == 0 then 0 else GivenCount(a, k - 1) + (if GivenAt(a, k - 1) then 1 else 0)
  }

  lemma {:induction false} AssembleLength(a: FilterArgs, ys: seq<int>, ms: seq<int>, k: nat)
    ensures |Assemble(a, ys, ms, k)| == GivenCount(a, k)
  {
    if k > 0 {
      AssembleLength(a, ys, ms, k - 1);
      PieceRank(a, ys, ms, k - 1);
    }
  }

  /** An absent or empty input adds no clause: besides `1=1` there is one
      clause per truthy input. */
  lemma ClauseCount(a: FilterArgs)
    requires Compile(a).Ok?
    ensures |Compile(a).value| == GivenCount(a, Inputs)
  {
    AssembleLength(a, YearsOf(a).value, MonthsOf(a).value, Inputs);
  }

  // ----- The parameter map -----

  lemma {:induction false} ParamsAppend(p: seq<Part>, q: seq<Part>)
    ensures Params(p + q).Keys == Params(p).Keys + Params(q).Keys
    decreases |p|
  {
    if |p| == 0 {
      assert p + q == q;
    } else {
      assert (p + q)[1..] == p[1..] + q;
      assert (p + q)[0] == p[0];
      ParamsAppend(p[1..], q);
    }
  }

  /** The key the `i`-th input binds: its own key when it is truthy, except
      that a categorical list of only `None`s binds nothing. */
  function ExpectedKey(a: FilterArgs, i: nat): set<string>
  {
    if !GivenAt(a, i) then {}
    else if i == 0 then {"anos"}
    else if i == 1 then {"meses"}
    else if i < 6 then (if AllNone(Values(a, DimAt(i)).value) then {} else {ParamKey(DimAt(i))})
    else if i == 6 then {"data_inicial"}
    else {"data_final"}
  }

  function ExpectedKeys(a: FilterArgs, k: nat): set<string>
  {
    if k == 0 then {} else ExpectedKeys(a, k - 1) + ExpectedKey(a, k - 1)
  }

  lemma PieceKeys(a: FilterArgs, ys: seq<int>, ms: seq<int>, i: nat)
    ensures Params(Piece(a, ys, ms, i)).Keys == ExpectedKey(a, i)
  {
  }

  lemma {:induction false} AssembleKeys(a: FilterArgs, ys: seq<int>, ms: seq<int>, k: nat)
    ensures Params(Assemble(a, ys, ms, k)).Keys == ExpectedKeys(a, k)
  {
    if k > 0 {
      AssembleKeys(a, ys, ms, k - 1);
      PieceKeys(a, ys, ms, k - 1);
      ParamsAppend(Assemble(a, ys, ms, k - 1), Piece(a, ys, ms, k - 1));
    }
  }

  /** A parameter key is bound exactly for the inputs that call for one. */
  lemma ParamKeys(a: FilterArgs)
    requires BuildFilterConditions(a).Ok?
    ensures BuildFilterConditions(a).value.1.Keys == ExpectedKeys(a, Inputs)
  {
    AssembleKeys(a, YearsOf(a).value, MonthsOf(a).value, Inputs);
  }

  /** Clauses with the same key have the same rank. */
  lemma KeyDeterminesRank(c1: Clause, c2: Clause)
    requires Key(c1).Some? && Key(c1) == Key(c2)
    ensures Rank(c1) == Rank(c2)
  {
  }

  /** Each clause's placeholder is bound to that clause's own value: the keys of
      a ranked clause list are distinct, so no other binding overwrites one. */
  lemma {:induction false} ParamsBind(parts: seq<Part>, i: int)
    requires StrictlyRanked(parts)
    requires 0 <= i < |parts| && Key(parts[i].clause).Some? && parts[i].param.Some?
    ensures Key(parts[i].clause).value in Params(parts)
    ensures Params(parts)[Key(parts[i].clause).value] == parts[i].param.value
  {
    if i > 0 {
      var tail := parts[1..];
      assert tail[i - 1] == parts[i];
      ParamsBind(tail, i - 1);
      if Key(parts[0].clause) == Key(parts[i].clause) {
        KeyDeterminesRank(parts[0].clause, parts[i].clause);
      }
    }
  }

  /** The years are bound under `anos` as the `int()` of each given string,
      one per string, in order, and likewise the months under `meses`. */
  lemma YearAndMonthParams(a: FilterArgs)
    requires BuildFilterConditions(a).Ok?
    ensures Given(a.anos) ==>
              && "anos" in BuildFilterConditions(a).value.1
              && var p := BuildFilterConditions(a).value.1["anos"];
              && p.Ints? && |p.ints| == |a.anos.value|
              && forall i :: 0 <= i < |p.ints| ==> ParseInt(a.anos.value[i]) == Ok(p.ints[i])
    ensures Given(a.meses) ==>
              && "meses" in BuildFilterConditions(a).value.1
              && var p := BuildFilterConditions(a).value.1["meses"];
              && p.Ints? && |p.ints| == |a.meses.value|
              && forall i :: 0 <= i < |p.ints| ==> ParseInt(a.meses.value[i]) == Ok(p.ints[i])
  {
    var ys, ms := YearsOf(a).value, MonthsOf(a).value;
    var parts := Compile(a).value;
    ArgsParse(a);
    ClauseOrder(a);
    var front := Assemble(a, ys, ms, 2);
    AssemblePrefix(a, ys, ms, 2, Inputs);
    assert Assemble(a, ys, ms, 1) == Piece(a, ys, ms, 0) by {
      assert [] + Piece(a, ys, ms, 0) == Piece(a, ys, ms, 0);
    }
    assert front == Piece(a, ys, ms, 0) + Piece(a, ys, ms, 1);
    if Given(a.anos) {
      assert parts[0] == front[0] == Part(YearIn, Some(Ints(ys)));
      ParamsBind(parts, 0);
    }
    if Given(a.meses) {
      var k := if Given(a.anos) then 1 else 0;
      assert parts[k] == front[k] == Part(MonthIn, Some(Ints(ms)));
      ParamsBind(parts, k);
    }
  }

  lemma {:induction false} AssemblePrefix(a: FilterArgs, ys: seq<int>, ms: seq<int>, j: nat, k: nat)
    requires j <= k
    ensures Assemble(a, ys, ms, j) <= Assemble(a, ys, ms, k)
  {
    if j < k {
      AssemblePrefix(a, ys, ms, j, k - 1);
    }
  }

  // ----- Row semantics -----

  /** A point in time as stored in `data_atendimento`: a calendar day and the
      second within it. */
  datatype Timestamp = Timestamp(year: int, month: int, day: int, second: nat)

  /** Chronological order of timestamps. */
  predicate TsLe(s: Timestamp, t: Timestamp)
  {
    || s.year < t.year
    || (s.year == t.year && s.month < t.month)
    || (s.year == t.year && s.month == t.month && s.day < t.day)
    || (s.year == t.year && s.month == t.month && s.day == t.day && s.second <= t.second)
  }

  /** The columns of one attendance row that the filters read; `None` is NULL.
      The date column is nullable too: an empty date cell is loaded as NULL. */
  datatype Row = Row(
    at: Option<Timestamp>,
    especialidade: Option<string>,
    formaDePagamento: Option<string>,
    profissional: Option<string>,
    tipoAtendimento: Option<string>)

  /** `EXTRACT(YEAR FROM data_atendimento)`: NULL on a NULL date. */
  function YearOf(row: Row): Option<int>
  {
    if row.at.Some? then Some(row.at.value.year) else None
  }

  /** `EXTRACT(MONTH FROM data_atendimento)`: NULL on a NULL date. */
  function MonthOf(row: Row): Option<int>
  {
    if row.at.Some? then Some(row.at.value.month) else None
  }

  function Field(row: Row, d: Dim): Option<string>
  {
    match d
    case Especialidade => row.especialidade
    case FormaDePagamento => row.formaDePagamento
    case Profissional => row.profissional
    case TipoAtendimento => row.tipoAtendimento
  }

  /** `x = ANY(:p)` is TRUE: `x` is not NULL and is listed. */
  predicate Listed(x: Option<string>, p: Option<Param>)
  {
    x.Some? && p.Some? && p.value.Strs? && x.value in p.value.strs
  }

  function Bound(p: Option<Param>, cast: string -> Option<Timestamp>): Option<Timestamp>
  {
    if p.Some? && p.value.Text? then cast(p.value.text) else None
  }

  /** Whether a clause is TRUE for a row. */
  predicate Holds(p: Part, row: Row, cast: string -> Option<Timestamp>)
  {
    match p.clause
    case YearIn => p.param.Some? && p.param.value.Ints? && YearOf(row).Some? && YearOf(row).value in p.param.value.ints
    case MonthIn => p.param.Some? && p.param.value.Ints? && MonthOf(row).Some? && MonthOf(row).value in p.param.value.ints
    case IsNull(d) => Field(row, d).None?
    case AnyOrNull(d) => Listed(Field(row, d), p.param) || Field(row, d).None?
    case AnyOf(d) => Listed(Field(row, d), p.param)
    case FromDate => Bound(p.param, cast).Some? && row.at.Some? && TsLe(Bound(p.param, cast).value, row.at.value)
    case ToDate => Bound(p.param, cast).Some? && row.at.Some? && TsLe(row.at.value, Bound(p.param, cast).value)
  }

  /** A date parameter the database cannot read as a timestamp. */
  predicate Rejected(p: Part, cast: string -> Option<Timestamp>)
  {
    (p.clause.FromDate? || p.clause.ToDate?) && Bound(p.param, cast).None?
  }

  predicate AllHold(parts: seq<Part>, row: Row, cast: string -> Option<Timestamp>)
  {
    forall i :: 0 <= i < |parts| ==> Holds(parts[i], row, cast)
  }

  predicate AnyRejected(parts: seq<Part>, cast: string -> Option<Timestamp>)
  {
    exists i :: 0 <= i < |parts| && Rejected(parts[i], cast)
  }

  /** Running the query on one row: kept when every clause is TRUE; a date
      parameter the database rejects fails the whole query. */
  function Admits(parts: seq<Part>, row: Row, cast: string -> Option<Timestamp>): Outcome<bool>
  {
    if AnyRejected(parts, cast) then Raise(DataError) else Ok(AllHold(parts, row, cast))
  }

  /** Reference meaning of one categorical list: absent or empty keeps every
      row; otherwise the row's value, NULL included, must be in the list. */
  predicate DimAdmits(vs: Option<seq<Option<string>>>, x: Option<string>)
  {
    !Given(vs) || x in vs.value
  }

  /** Reference meaning of a year or month list: a NULL date is never in it. */
  predicate IntAdmits(xs: Option<seq<string>>, n: Option<int>)
  {
    !Given(xs) || (n.Some? && exists i :: 0 <= i < |xs.value| && ParseInt(xs.value[i]) == Ok(n.value))
  }

  /** Reference meaning of the start bound: a NULL date is never after it. */
  predicate StartAdmits(b: Option<string>, t: Option<Timestamp>, cast: string -> Option<Timestamp>)
  {
    !GivenText(b) || (cast(b.value).Some? && t.Some? && TsLe(cast(b.value).value, t.value))
  }

  /** Reference meaning of the end bound: a NULL date is never before it. */
  predicate EndAdmits(b: Option<string>, t: Option<Timestamp>, cast: string -> Option<Timestamp>)
  {
    !GivenText(b) || (cast(b.value).Some? && t.Some? && TsLe(t.value, cast(b.value).value))
  }

  /** Which rows the arguments ask for, stated input by input. */
  predicate Selects(a: FilterArgs, row: Row, cast: string -> Option<Timestamp>)
  {
    && IntAdmits(a.anos, YearOf(row)) && IntAdmits(a.meses, MonthOf(row))
    && DimAdmits(a.especialidades, row.especialidade)
    && DimAdmits(a.formasPagamento, row.formaDePagamento)
    && DimAdmits(a.profissionais, row.profissional)
    && DimAdmits(a.segmentos, row.tipoAtendimento)
    && StartAdmits(a.dataInicial, row.at, cast) && EndAdmits(a.dataFinal, row.at, cast)
  }

  /** The conjunct of `Selects` for the `i`-th input. */
  predicate SelectsAt(a: FilterArgs, row: Row, cast: string -> Option<Timestamp>, i: nat)
  {
    if i == 0 then IntAdmits(a.anos, YearOf(row))
    else if i == 1 then IntAdmits(a.meses, MonthOf(row))
    else if i < 6 then DimAdmits(Values(a, DimAt(i)), Field(row, DimAt(i)))
    else if i == 6 then StartAdmits(a.dataInicial, row.at, cast)
    else i != 7 || EndAdmits(a.dataFinal, row.at, cast)
  }

  /** A given date argument the database cannot read. */
  predicate BoundRejected(a: FilterArgs, cast: string -> Option<Timestamp>)
  {
    || (GivenText(a.dataInicial) && cast(a.dataInicial.value).None?)
    || (GivenText(a.dataFinal) && cast(a.dataFinal.value).None?)
  }

  predicate RejectedAt(a: FilterArgs, cast: string -> Option<Timestamp>, i: nat)
  {
    || (i == 6 && GivenText(a.dataInicial) && cast(a.dataInicial.value).None?)
    || (i == 7 && GivenText(a.dataFinal) && cast(a.dataFinal.value).None?)
  }

  /** The three-way rule means what it should: for a non-empty list, a NULL
      value passes iff the list holds `None`, and a value `v` iff it holds `v`. */
  lemma CategorySemantics(d: Dim, vs: seq<Option<string>>, row: Row, cast: string -> Option<Timestamp>)
    requires |vs| > 0
    ensures Holds(CategoryPart(d, vs), row, cast) <==> Field(row, d) in vs
  {
    var x := Field(row, d);
    var p := CategoryPart(d, vs);
    if AllNone(vs) {
      assert p.clause == IsNull(d);
      if x.None? {
        assert vs[0] == x;
      } else {
        forall i | 0 <= i < |vs| ensures vs[i] != x {
        }
      }
    } else if None in vs {
      assert p.clause == AnyOrNull(d) && p.param == Some(Strs(Present(vs)));
      ListedPresent(x, vs);
    } else {
      assert p.clause == AnyOf(d) && p.param == Some(Strs(Present(vs)));
      ListedPresent(x, vs);
    }
  }

  /** A present value is listed exactly when the list holds it. */
  lemma ListedPresent(x: Option<string>, vs: seq<Option<string>>)
    ensures Listed(x, Some(Strs(Present(vs)))) <==> x.Some? && x in vs
  {
    PresentSpec(vs);
  }

  lemma PieceSemantics(a: FilterArgs, row: Row, cast: string -> Option<Timestamp>, i: nat)
    requires Compile(a).Ok?
    ensures AllHold(Piece(a, YearsOf(a).value, MonthsOf(a).value, i), row, cast) <==> SelectsAt(a, row, cast, i)
    ensures AnyRejected(Piece(a, YearsOf(a).value, MonthsOf(a).value, i), cast) <==> RejectedAt(a, cast, i)
  {
    var ys, ms := YearsOf(a).value, MonthsOf(a).value;
    var p := Piece(a, ys, ms, i);
    ArgsParse(a);
    if i == 0 && Given(a.anos) {
      assert p == [Part(YearIn, Some(Ints(ys)))];
      assert Holds(p[0], row, cast) <==> YearOf(row).Some? && YearOf(row).value in ys;
      assert AllHold(p, row, cast) <==> YearOf(row).Some? && YearOf(row).value in ys;
      if YearOf(row).Some? && YearOf(row).value in ys {
        var j :| 0 <= j < |ys| && ys[j] == YearOf(row).value;
        assert ParseInt(a.anos.value[j]) == Ok(YearOf(row).value);
      }
    } else if i == 1 && Given(a.meses) {
      assert p == [Part(MonthIn, Some(Ints(ms)))];
      assert Holds(p[0], row, cast) <==> MonthOf(row).Some? && MonthOf(row).value in ms;
      assert AllHold(p, row, cast) <==> MonthOf(row).Some? && MonthOf(row).value in ms;
      if MonthOf(row).Some? && MonthOf(row).value in ms {
        var j :| 0 <= j < |ms| && ms[j] == MonthOf(row).value;
        assert ParseInt(a.meses.value[j]) == Ok(MonthOf(row).value);
      }
    } else if 2 <= i < 6 && Given(Values(a, DimAt(i))) {
      CategorySemantics(DimAt(i), Values(a, DimAt(i)).value, row, cast);
      assert AllHold(p, row, cast) <==> Holds(p[0], row, cast);
    } else if i == 6 && GivenText(a.dataInicial) {
      assert AllHold(p, row, cast) <==> Holds(p[0], row, cast);
      assert AnyRejected(p, cast) <==> Rejected(p[0], cast);
    } else if i == 7 && GivenText(a.dataFinal) {
      assert AllHold(p, row, cast) <==> Holds(p[0], row, cast);
      assert AnyRejected(p, cast) <==> Rejected(p[0], cast);
    }
  }

  lemma {:induction false} AssembleSemantics(a: FilterArgs, row: Row, cast: string -> Option<Timestamp>, k: nat)
    requires Compile(a).Ok?
    ensures AllHold(Assemble(a, YearsOf(a).value, MonthsOf(a).value, k), row, cast)
        <==> forall i :: 0 <= i < k ==> SelectsAt(a, row, cast, i)
    ensures AnyRejected(Assemble(a, YearsOf(a).value, MonthsOf(a).value, k), cast)
        <==> exists i :: 0 <= i < k && RejectedAt(a, cast, i)
  {
    if k > 0 {
      var ys, ms := YearsOf(a).value, MonthsOf(a).value;
      AssembleSemantics(a, row, cast, k - 1);
      PieceSemantics(a, row, cast, k - 1);
      AllHoldAppend(Assemble(a, ys, ms, k - 1), Piece(a, ys, ms, k - 1), row, cast);
      AnyRejectedAppend(Assemble(a, ys, ms, k - 1), Piece(a, ys, ms, k - 1), cast);
    }
  }

  lemma AllHoldAppend(s: seq<Part>, t: seq<Part>, row: Row, cast: string -> Option<Timestamp>)
    ensures AllHold(s + t, row, cast) <==> AllHold(s, row, cast) && AllHold(t, row, cast)
  {
    assert forall i :: 0 <= i < |s| ==> (s + t)[i] == s[i];
    assert forall i :: 0 <= i < |t| ==> (s + t)[|s| + i] == t[i];
    if AllHold(s, row, cast) && AllHold(t, row, cast) {
      forall i | 0 <= i < |s + t| ensures Holds((s + t)[i], row, cast) {
        if i >= |s| {
          assert (s + t)[i] == t[i - |s|];
        }
      }
    }
  }

  lemma AnyRejectedAppend(s: seq<Part>, t: seq<Part>, cast: string -> Option<Timestamp>)
    ensures AnyRejected(s + t, cast) <==> AnyRejected(s, cast) || AnyRejected(t, cast)
  {
    assert forall i :: 0 <= i < |s| ==> (s + t)[i] == s[i];
    if AnyRejected(s + t, cast) {
      var j :| 0 <= j < |s + t| && Rejected((s + t)[j], cast);
      if j >= |s| {
        assert (s + t)[j] == t[j - |s|];
      }
    }
    if AnyRejected(t, cast) {
      var j :| 0 <= j < |t| && Rejected(t[j], cast);
      assert (s + t)[|s| + j] == t[j];
    }
  }

  lemma SelectsByInput(a: FilterArgs, row: Row, cast: string -> Option<Timestamp>)
    ensures Selects(a, row, cast) <==> forall i :: 0 <= i < Inputs ==> SelectsAt(a, row, cast, i)
    ensures BoundRejected(a, cast) <==> exists i :: 0 <= i < Inputs && RejectedAt(a, cast, i)
  {
    assert SelectsAt(a, row, cast, 2) == DimAdmits(a.especialidades, row.especialidade);
    assert SelectsAt(a, row, cast, 3) == DimAdmits(a.formasPagamento, row.formaDePagamento);
    assert SelectsAt(a, row, cast, 4) == DimAdmits(a.profissionais, row.profissional);
    assert SelectsAt(a, row, cast, 5) == DimAdmits(a.segmentos, row.tipoAtendimento);
    assert SelectsAt(a, row, cast, 0) == IntAdmits(a.anos, YearOf(row));
    assert SelectsAt(a, row, cast, 1) == IntAdmits(a.meses, MonthOf(row));
    assert SelectsAt(a, row, cast, 6) == StartAdmits(a.dataInicial, row.at, cast);
    assert SelectsAt(a, row, cast, 7) == EndAdmits(a.dataFinal, row.at, cast);
    if BoundRejected(a, cast) {
      assert RejectedAt(a, cast, 6) || RejectedAt(a, cast, 7);
    }
  }

  /** Running the compiled query on a row fails exactly when a given date
      argument is unreadable, and otherwise keeps exactly the rows the
      arguments select. */
  lemma CompiledSemantics(a: FilterArgs, row: Row, cast: string -> Option<Timestamp>)
    requires Compile(a).Ok?
    ensures Admits(Compile(a).value, row, cast).Raise? <==> BoundRejected(a, cast)
    ensures Admits(Compile(a).value, row, cast).Ok? ==>
              Admits(Compile(a).value, row, cast).value == Selects(a, row, cast)
  {
    AssembleSemantics(a, row, cast, Inputs);
    SelectsByInput(a, row, cast);
  }

  /** The end bound is compared with the full timestamp: when the database
      reads a bare date as that day's midnight, a row later on the end day
      fails `<=`, while every row of the start day passes `>=`. */
  lemma DateBoundsInclusive(b: string, row: Row, cast: string -> Option<Timestamp>, y: int, m: int, d: int)
    requires cast(b) == Some(Timestamp(y, m, d, 0))
    requires row.at.Some? && row.at.value.year == y && row.at.value.month == m && row.at.value.day == d
    ensures Holds(Part(FromDate, Some(Text(b))), row, cast)
    ensures Holds(Part(ToDate, Some(Text(b))), row, cast) <==> row.at.value.second == 0
  {
  }

  /** A row whose date is NULL fails every year, month and date clause, so a
      successful query keeps it only when none of those inputs is given. */
  lemma NullDateKeptOnlyUnfiltered(a: FilterArgs, row: Row, cast: string -> Option<Timestamp>)
    requires Compile(a).Ok? && row.at.None?
    ensures Admits(Compile(a).value, row, cast) == Ok(true) <==>
              && !Given(a.anos) && !Given(a.meses) && !GivenText(a.dataInicial) && !GivenText(a.dataFinal)
              && DimAdmits(a.especialidades, row.especialidade)
              && DimAdmits(a.formasPagamento, row.formaDePagamento)
              && DimAdmits(a.profissionais, row.profissional)
              && DimAdmits(a.segmentos, row.tipoAtendimento)
  {
    CompiledSemantics(a, row, cast);
  }

  /** `get_ticket_medio`: the mean value per attendance, 0 when none matched. */
  function TicketMedio(total: real, count: nat): (r: real)
    ensures count == 0 ==> r == 0.0
    ensures count > 0 ==> r * (count as real) == total
  {
    if count > 0 then total / count as real else 0.0
  }
}
