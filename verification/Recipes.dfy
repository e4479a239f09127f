/** Longest-prefix routing of symbols to recipes, and the factored contract it becomes (tools/recipe_coverage.py). */
module Recipes {
  import opened Wrappers
  import opened Ordering

  datatype Route = Route(prefix: string, recipe: string, page: string, rule: string, id: string, extra: string)

  type Details = map<string, string>

  type Coverage = map<string, Details>

  datatype CoverageError =
    | DuplicateIds(ids: set<string>)
    | NoFallback
    | Unusable(route: Route)
    | Uncovered(symbol: string)
    | MissingId(symbol: string)
    | Conflict(id: string)

  const FALLBACK := "tesserix_adk"

  // ---------------------------------------------------------------- declared routes

  /** The identifiers more than one route declares. */
  function Repeated(declared: seq<Route>): set<string> {
    set i, j | 0 <= i < j < |declared| && declared[i].id == declared[j].id :: declared[i].id
  }

  function Routes(declared: seq<Route>): Result<seq<Route>, CoverageError> {
    if Repeated(declared) != {} then Err(DuplicateIds(Repeated(declared)))
    else if !exists i :: 0 <= i < |declared| && declared[i].prefix == FALLBACK then Err(NoFallback)
    else Ok(declared)
  }

  // ---------------------------------------------------------------- routing

  function DetailsOf(r: Route): Details {
    map["id" := r.id, "recipe" := r.recipe, "page" := r.page, "rule" := r.rule] +
    if r.extra != "" then map["extra" := r.extra] else map[]
  }

  /** The route a symbol belongs to: the longest prefix it starts with, the earliest declared on a tie. */
  predicate Selected(declared: seq<Route>, symbol: string, k: nat) {
    k < |declared| && declared[k].prefix <= symbol &&
    forall i :: 0 <= i < |declared| && declared[i].prefix <= symbol ==>
      |declared[i].prefix| < |declared[k].prefix| || (|declared[i].prefix| == |declared[k].prefix| && k <= i)
  }

  predicate Covered(declared: seq<Route>, symbol: string) {
    exists i :: 0 <= i < |declared| && declared[i].prefix <= symbol
  }

  /** The details are those of the symbol's own route. */
  predicate Routed(declared: seq<Route>, symbol: string, details: Details) {
    exists k :: 0 <= k < |declared| && Selected(declared, symbol, k) && details == DetailsOf(declared[k])
  }

  predicate Covers(declared: seq<Route>, surface: set<string>, coverage: Coverage) {
    coverage.Keys == surface && forall symbol :: symbol in surface ==> Routed(declared, symbol, coverage[symbol])
  }

  /** `(-len(prefix), index)` as a sort key. */
  predicate MoreSpecific(a: (nat, Route), b: (nat, Route)) {
    |a.1.prefix| > |b.1.prefix| || (|a.1.prefix| == |b.1.prefix| && a.0 <= b.0)
  }

  function Enumerated(declared: seq<Route>): (r: seq<(nat, Route)>)
    ensures |r| == |declared| && forall i :: 0 <= i < |r| ==> r[i] == (i, declared[i])
  {
    seq(|declared|, i requires 0 <= i < |declared| => (i, declared[i]))
  }

  /** The first route in specificity order whose prefix the symbol starts with. */
  function FirstMatch(ordered: seq<(nat, Route)>, symbol: string): (r: Option<nat>)
    ensures r.None? ==> forall t :: 0 <= t < |ordered| ==> !(ordered[t].1.prefix <= symbol)
    ensures r.Some? ==> r.value < |ordered| && ordered[r.value].1.prefix <= symbol
    ensures r.Some? ==> forall t :: 0 <= t < r.value ==> !(ordered[t].1.prefix <= symbol)
  {
    if ordered == [] then None
    else if ordered[0].1.prefix <= symbol then Some(0)
    else
      match FirstMatch(ordered[1..], symbol)
      case None =>
        assert forall t :: 0 < t < |ordered| ==> ordered[t] == ordered[1..][t - 1];
        None
      case Some(t) =>
        assert forall t :: 0 < t < |ordered| ==> ordered[t] == ordered[1..][t - 1];
        Some(t + 1)
  }

  lemma MatchIsSelected(declared: seq<Route>, symbol: string)
    ensures var ordered := Sort(Enumerated(declared), MoreSpecific);
      match FirstMatch(ordered, symbol)
      case None => !Covered(declared, symbol)
      case Some(t) => Selected(declared, symbol, ordered[t].0) && declared[ordered[t].0] == ordered[t].1
  {
    var ordered := Sort(Enumerated(declared), MoreSpecific);
    SortIsSorted(Enumerated(declared), MoreSpecific);
    forall p ensures p in ordered <==> p in Enumerated(declared) {
      SameElements(ordered, Enumerated(declared), p);
    }
    var found := FirstMatch(ordered, symbol);
    forall i | 0 <= i < |declared| && declared[i].prefix <= symbol
      ensures found.Some? && MoreSpecific(ordered[found.value], (i, declared[i]))
    {
      assert Enumerated(declared)[i] == (i, declared[i]);
      assert (i, declared[i]) in ordered;
      var u :| 0 <= u < |ordered| && ordered[u] == (i, declared[i]);
      assert MoreSpecific(ordered[u], ordered[u]);
    }
    if found.Some? {
      assert ordered[found.value] in ordered;
    }
  }

  method Mapped(surface: set<string>, declared: seq<Route>, usable: Route -> bool)
    returns (r: Result<Coverage, CoverageError>)
    ensures r.Ok? <==>
      (forall i :: 0 <= i < |declared| ==> usable(declared[i])) &&
      forall symbol :: symbol in surface ==> Covered(declared, symbol)
    ensures r.Ok? ==> Covers(declared, surface, r.value)
    ensures r.Err? ==> match r.error
      case Unusable(route) => route in declared && !usable(route)
      case Uncovered(symbol) => symbol in surface && !Covered(declared, symbol)
      case _ => false
  {
    for i := 0 to |declared|
      invariant forall k :: 0 <= k < i ==> usable(declared[k])
    {
      if !usable(declared[i]) {
        return Err(Unusable(declared[i]));
      }
    }
    var symbols := Sorted(surface);
    assert SetOf(symbols) == surface;
    r := RouteAll(symbols, declared);
    forall symbol | r.Ok? && symbol in surface ensures Covered(declared, symbol) {
      RoutedIsCovered(declared, symbol, r.value[symbol]);
    }
  }

  lemma CoversMore(declared: seq<Route>, surface: set<string>, coverage: Coverage, symbol: string, k: nat)
    requires Covers(declared, surface, coverage) && Selected(declared, symbol, k)
    ensures Covers(declared, surface + {symbol}, coverage[symbol := DetailsOf(declared[k])])
  {
    var more := coverage[symbol := DetailsOf(declared[k])];
    assert Routed(declared, symbol, DetailsOf(declared[k]));
    forall s | s in surface + {symbol} ensures Routed(declared, s, more[s]) {
      if s != symbol {
        assert Routed(declared, s, coverage[s]);
      }
    }
  }

  lemma RoutedIsCovered(declared: seq<Route>, symbol: string, details: Details)
    requires Routed(declared, symbol, details)
    ensures Covered(declared, symbol)
  {
  }

  method RouteAll(symbols: seq<string>, declared: seq<Route>) returns (r: Result<Coverage, CoverageError>)
    ensures r.Ok? ==> Covers(declared, SetOf(symbols), r.value)
    ensures r.Err? ==> r.error.Uncovered? && r.error.symbol in symbols && !Covered(declared, r.error.symbol)
  {
    var ordered := Sort(Enumerated(declared), MoreSpecific);
    var coverage: Coverage := map[];
    for i := 0 to |symbols|
      invariant Covers(declared, SetOf(symbols[..i]), coverage)
    {
      var symbol := symbols[i];
      assert symbol in symbols;
      SetOfMore(symbols, i);
      MatchIsSelected(declared, symbol);
      var found := FirstMatch(ordered, symbol);
      if found.None? {
        return Err(Uncovered(symbol));
      }
      var selected := ordered[found.value].1;
      CoversMore(declared, SetOf(symbols[..i]), coverage, symbol, ordered[found.value].0);
      coverage := coverage[symbol := DetailsOf(selected)];
    }
    assert symbols[..|symbols|] == symbols;
    return Ok(coverage);
  }

  // ---------------------------------------------------------------- the factored contract

  /** Each symbol names a recipe, each recipe is written once. */
  datatype Contract = Contract(recipes: map<string, Details>, symbols: map<string, string>)

  /** The part of the details that is written once per recipe. */
  function RecordOf(details: Details): Details {
    map key | key in details && key != "id" :: details[key]
  }

  predicate Identified(coverage: Coverage) {
    forall s :: s in coverage ==> "id" in coverage[s]
  }

  predicate Conflicting(a: Details, b: Details) {
    "id" in a && "id" in b && a["id"] == b["id"] && RecordOf(a) != RecordOf(b)
  }

  /** No two symbols that share an identifier differ in anything else. */
  predicate Consistent(coverage: Coverage) {
    Identified(coverage) && forall s, t :: s in coverage && t in coverage ==> !Conflicting(coverage[s], coverage[t])
  }

  /** The two tables joined again. */
  function Joined(c: Contract): Coverage
    requires forall s :: s in c.symbols ==> c.symbols[s] in c.recipes
  {
    map s | s in c.symbols :: c.recipes[c.symbols[s]]["id" := c.symbols[s]]
  }

  /** The contract holds this symbol's details, in its two tables. */
  predicate Holds(c: Contract, symbol: string, details: Details) {
    "id" in details && symbol in c.symbols && c.symbols[symbol] == details["id"] &&
    details["id"] in c.recipes && c.recipes[details["id"]] == RecordOf(details)
  }

  ghost predicate Factors(c: Contract, coverage: Coverage) {
    c.symbols.Keys == coverage.Keys &&
    (forall s :: s in coverage ==> Holds(c, s, coverage[s])) &&
    forall id :: id in c.recipes ==> Used(c, coverage, id)
  }

  /** Some symbol names the recipe. */
  predicate Used(c: Contract, coverage: Coverage, id: string) {
    exists s :: s in coverage && s in c.symbols && c.symbols[s] == id
  }

  /** The refusal names a symbol without an identifier, or an identifier two records share. */
  predicate Justified(coverage: Coverage, error: CoverageError) {
    match error
    case MissingId(s) => s in coverage && "id" !in coverage[s]
    case Conflict(id) => SharedBy(coverage, id)
    case _ => false
  }

  predicate SharedBy(coverage: Coverage, id: string) {
    exists s, t :: s in coverage && t in coverage && Conflicting(coverage[s], coverage[t]) && coverage[s]["id"] == id
  }

  lemma JustifiedIsInconsistent(coverage: Coverage, error: CoverageError)
    requires Justified(coverage, error)
    ensures !Consistent(coverage)
  {
  }

  method Render(coverage: Coverage) returns (r: Result<Contract, CoverageError>)
    ensures r.Ok? <==> Consistent(coverage)
    ensures r.Ok? ==> Factors(r.value, coverage)
    ensures r.Err? ==> Justified(coverage, r.error)
  {
    r := Tabulate(coverage);
    if r.Ok? {
      FactorsIsConsistent(r.value, coverage);
    } else {
      JustifiedIsInconsistent(coverage, r.error);
    }
  }

  /** What of the coverage has been entered so far. */
  ghost predicate Portion(before: Coverage, coverage: Coverage, keys: seq<string>) {
    (forall s :: s in before <==> s in keys) && forall s :: s in before ==> s in coverage && before[s] == coverage[s]
  }

  lemma PortionMore(before: Coverage, coverage: Coverage, keys: seq<string>, i: nat)
    requires i < |keys| && Ascending(keys) && keys[i] in coverage && Portion(before, coverage, keys[..i])
    ensures keys[i] !in before && Portion(before[keys[i] := coverage[keys[i]]], coverage, keys[..i + 1])
  {
    assert keys[..i + 1] == keys[..i] + [keys[i]];
  }

  lemma PortionWhole(before: Coverage, coverage: Coverage, keys: seq<string>)
    requires Portion(before, coverage, keys) && forall s :: s in keys <==> s in coverage
    ensures before == coverage
  {
  }

  method Tabulate(coverage: Coverage) returns (r: Result<Contract, CoverageError>)
    ensures r.Ok? ==> Factors(r.value, coverage)
    ensures r.Err? ==> Justified(coverage, r.error)
  {
    var contract := Contract(map[], map[]);
    var keys := Sorted(coverage.Keys);
    ghost var before: Coverage := map[];
    for i := 0 to |keys|
      invariant Portion(before, coverage, keys[..i])
      invariant Factors(contract, before)
    {
      var symbol := keys[i];
      assert symbol in keys;
      PortionMore(before, coverage, keys, i);
      r := AddSymbol(contract, symbol, coverage, before);
      if r.Err? {
        return;
      }
      contract := r.value;
      before := before[symbol := coverage[symbol]];
    }
    assert keys[..|keys|] == keys;
    PortionWhole(before, coverage, keys);
    return Ok(contract);
  }

  /** One step of rendering: enter the symbol, and its recipe unless another record has the identifier. */
  method AddSymbol(contract: Contract, symbol: string, coverage: Coverage, ghost before: Coverage)
    returns (r: Result<Contract, CoverageError>)
    requires Factors(contract, before) && symbol !in before && symbol in coverage
    requires forall s :: s in before ==> s in coverage && before[s] == coverage[s]
    ensures r.Ok? ==> Factors(r.value, before[symbol := coverage[symbol]])
    ensures r.Err? ==> Justified(coverage, r.error)
  {
    var details := coverage[symbol];
    if "id" !in details {
      return Err(MissingId(symbol));
    }
    var identifier := details["id"];
    var symbols := contract.symbols[symbol := identifier];
    var record := RecordOf(details);
    if identifier in contract.recipes && contract.recipes[identifier] != record {
      ghost var other := ConflictsWith(contract, before, details);
      assert Conflicting(coverage[other], coverage[symbol]);
      return Err(Conflict(identifier));
    }
    FactorsMore(contract, before, symbol, details);
    return Ok(Contract(contract.recipes[identifier := record], symbols));
  }

  lemma ConflictsWith(c: Contract, coverage: Coverage, details: Details) returns (other: string)
    requires Factors(c, coverage) && "id" in details
    requires details["id"] in c.recipes && c.recipes[details["id"]] != RecordOf(details)
    ensures other in coverage && Conflicting(coverage[other], details)
  {
    assert Used(c, coverage, details["id"]);
    other :| other in coverage && other in c.symbols && c.symbols[other] == details["id"];
    assert Holds(c, other, coverage[other]);
  }

  lemma FactorsMore(c: Contract, coverage: Coverage, symbol: string, details: Details)
    requires Factors(c, coverage) && symbol !in coverage && "id" in details
    requires details["id"] in c.recipes ==> c.recipes[details["id"]] == RecordOf(details)
    ensures var id := details["id"];
      Factors(Contract(c.recipes[id := RecordOf(details)], c.symbols[symbol := id]), coverage[symbol := details])
  {
    var more := Contract(c.recipes[details["id"] := RecordOf(details)], c.symbols[symbol := details["id"]]);
    var after := coverage[symbol := details];
    forall s | s in after ensures Holds(more, s, after[s]) {
      if s != symbol {
        assert Holds(c, s, coverage[s]);
      }
    }
    forall id | id in more.recipes ensures Used(more, after, id) {
      if id == details["id"] {
        assert symbol in after && more.symbols[symbol] == id;
      } else {
        assert Used(c, coverage, id);
        var s :| s in coverage && s in c.symbols && c.symbols[s] == id;
        assert s in after && more.symbols[s] == id;
      }
    }
  }

  lemma FactorsIsConsistent(c: Contract, coverage: Coverage)
    requires Factors(c, coverage)
    ensures Consistent(coverage)
  {
    forall s | s in coverage ensures Holds(c, s, coverage[s]) {}
  }

  /** Factoring loses nothing. */
  lemma FactoringIsLossless(c: Contract, coverage: Coverage)
    requires Factors(c, coverage)
    ensures forall s :: s in c.symbols ==> Holds(c, s, coverage[s])
    ensures Joined(c) == coverage
  {
    forall s | s in coverage ensures s in c.symbols && Joined(c)[s] == coverage[s] {
      assert Holds(c, s, coverage[s]);
      assert coverage[s] == RecordOf(coverage[s])["id" := coverage[s]["id"]];
    }
  }

  lemma SharedIdIsRepeated(declared: seq<Route>, i: nat, j: nat)
    requires i < j < |declared| && declared[i].id == declared[j].id
    ensures declared[i].id in Repeated(declared)
  {
  }

  lemma UniqueIds(declared: seq<Route>, i: nat, j: nat)
    requires Routes(declared).Ok? && i < |declared| && j < |declared| && declared[i].id == declared[j].id
    ensures i == j
  {
    if i < j {
      SharedIdIsRepeated(declared, i, j);
    } else if j < i {
      SharedIdIsRepeated(declared, j, i);
    }
  }

  /** Every symbol under the fallback prefix has a route. */
  lemma FallbackCovers(declared: seq<Route>, symbol: string)
    requires Routes(declared).Ok? && FALLBACK <= symbol
    ensures Covered(declared, symbol)
  {
    var i :| 0 <= i < |declared| && declared[i].prefix == FALLBACK;
    assert declared[i].prefix <= symbol;
  }

  /** The coverage validated routes give can always be rendered: no conflict can come from them. */
  lemma ValidatedRoutesNeverConflict(declared: seq<Route>, surface: set<string>, coverage: Coverage)
    requires Routes(declared).Ok? && Covers(declared, surface, coverage)
    ensures Consistent(coverage)
  {
    forall s | s in coverage ensures "id" in coverage[s] {
      assert Routed(declared, s, coverage[s]);
    }
    forall s, t | s in coverage && t in coverage ensures !Conflicting(coverage[s], coverage[t]) {
      assert Routed(declared, s, coverage[s]) && Routed(declared, t, coverage[t]);
      RoutedAgree(declared, s, coverage[s], t, coverage[t]);
    }
  }

  lemma RoutedAgree(declared: seq<Route>, s: string, a: Details, t: string, b: Details)
    requires Routes(declared).Ok? && Routed(declared, s, a) && Routed(declared, t, b)
    ensures !Conflicting(a, b)
  {
    var k :| 0 <= k < |declared| && Selected(declared, s, k) && a == DetailsOf(declared[k]);
    var l :| 0 <= l < |declared| && Selected(declared, t, l) && b == DetailsOf(declared[l]);
    if a["id"] == b["id"] {
      UniqueIds(declared, k, l);
    }
  }

  /** No two routes are selected for one symbol. */
  lemma SelectionIsUnique(declared: seq<Route>, symbol: string, k: nat, l: nat)
    requires Selected(declared, symbol, k) && Selected(declared, symbol, l)
    ensures k == l
  {
  }

  /** So the routes leave no freedom: a surface has one coverage. */
  lemma CoverageIsDetermined(declared: seq<Route>, surface: set<string>, a: Coverage, b: Coverage)
    requires Covers(declared, surface, a) && Covers(declared, surface, b)
    ensures a == b
  {
    forall s | s in surface ensures a[s] == b[s] {
      assert Routed(declared, s, a[s]) && Routed(declared, s, b[s]);
      var k :| 0 <= k < |declared| && Selected(declared, s, k) && a[s] == DetailsOf(declared[k]);
      var l :| 0 <= l < |declared| && Selected(declared, s, l) && b[s] == DetailsOf(declared[l]);
      SelectionIsUnique(declared, s, k, l);
    }
  }

  // ---------------------------------------------------------------- what is read and what is written

  /** Each detail is the route's own, and an extra is there only where the route names one. */
  lemma DetailsAreRoutes(r: Route)
    ensures var d := DetailsOf(r);
      d.Keys == {"id", "recipe", "page", "rule"} + (if r.extra == "" then {} else {"extra"}) &&
      d["id"] == r.id && d["recipe"] == r.recipe && d["page"] == r.page && d["rule"] == r.rule &&
      (r.extra != "" ==> d["extra"] == r.extra)
  {
  }

  /** Routes are taken as declared exactly when no two share an identifier and one is the fallback. */
  lemma RoutesAreChecked(declared: seq<Route>)
    ensures Routes(declared).Ok? <==>
      (forall i, j :: 0 <= i < j < |declared| ==> declared[i].id != declared[j].id) &&
      exists i :: 0 <= i < |declared| && declared[i].prefix == "tesserix_adk"
    ensures Routes(declared).Ok? ==> Routes(declared).value == declared
    ensures Routes(declared).Err? ==>
      match Routes(declared).error
      case DuplicateIds(ids) => ids != {} && forall id :: id in ids <==>
        exists i, j :: 0 <= i < j < |declared| && declared[i].id == declared[j].id == id
      case NoFallback => forall i, j :: 0 <= i < j < |declared| ==> declared[i].id != declared[j].id
      case _ => false
  {
    forall i, j | 0 <= i < j < |declared| && declared[i].id == declared[j].id
      ensures declared[i].id in Repeated(declared)
    {
      SharedIdIsRepeated(declared, i, j);
    }
  }
}
