/**
 The resolved dependency graph read from a parsed `uv.lock` (tools/lockfile.py).

 `Walk` is the LIFO worklist over a possibly cyclic graph; `FromLock` drives it once per entry
 point over one shared table. The specification is the least set of edges closed under opening:
 an edge opens the dependencies of the package it names and the optional dependencies of every
 extra it selects.
 */
module Lockfile {
  import opened Wrappers
  import Ordering
  import Text

  datatype Edge = Edge(name: string, extra: seq<string>)

  datatype Package = Package(
    name: string,
    version: Option<string>,
    dependencies: seq<Edge>,
    optional: map<string, seq<Edge>>,
    dev: map<string, seq<Edge>>)

  type Packages = map<string, Package>

  datatype LockfileError =
    | RootAbsent(root: string)
    | NotInLock(name: string)
    | ExtraAbsent(name: string, extra: string)

  datatype Graph = Graph(versions: map<string, string>, reach: map<string, set<string>>)

  const RUNTIME := "runtime"
  const EXTRA := "extra:"
  const GROUP := "group:"

  // ---------------------------------------------------------------- the closure

  /** Does processing `e` open `d`? An edge to an absent package opens nothing. */
  predicate Opens(packages: Packages, e: Edge, d: Edge) {
    e.name in packages &&
    (d in packages[e.name].dependencies ||
     exists x :: x in e.extra && x in packages[e.name].optional && d in packages[e.name].optional[x])
  }

  ghost predicate Closed(packages: Packages, entry: seq<Edge>, edges: set<Edge>) {
    (forall e :: e in entry ==> e in edges) &&
    (forall e, d :: e in edges && Opens(packages, e, d) ==> d in edges)
  }

  /** Membership in the least closed set of edges: the intersection of all of them. */
  ghost predicate InClosure(packages: Packages, entry: seq<Edge>, e: Edge) {
    forall edges: set<Edge> :: Closed(packages, entry, edges) ==> e in edges
  }

  /** Does some edge of the closure name this package? */
  ghost predicate Named(packages: Packages, entry: seq<Edge>, name: string) {
    exists e :: InClosure(packages, entry, e) && e.name == name
  }

  /** The edge the walk may not process: an absent package, or an absent selected extra. */
  predicate Broken(packages: Packages, e: Edge) {
    e.name !in packages || exists x :: x in e.extra && x !in packages[e.name].optional
  }

  predicate Explains(packages: Packages, e: Edge, error: LockfileError) {
    match error
    case RootAbsent(_) => false
    case NotInLock(name) => e.name == name && name !in packages
    case ExtraAbsent(name, x) =>
      e.name == name && name in packages && x in e.extra && x !in packages[name].optional
  }

  /** A chain of openings from an entry edge to `trail[|trail| - 1]`. */
  predicate Trail(packages: Packages, entry: seq<Edge>, trail: seq<Edge>) {
    trail != [] && trail[0] in entry &&
    forall i :: 0 <= i < |trail| - 1 ==> Opens(packages, trail[i], trail[i + 1])
  }

  ghost predicate Led(packages: Packages, entry: seq<Edge>, e: Edge) {
    exists trail :: Trail(packages, entry, trail) && trail[|trail| - 1] == e
  }

  lemma {:induction false} TrailStaysInside(packages: Packages, entry: seq<Edge>, trail: seq<Edge>, edges: set<Edge>)
    requires Trail(packages, entry, trail) && Closed(packages, entry, edges)
    ensures trail[|trail| - 1] in edges
  {
    if |trail| > 1 {
      var shorter := trail[..|trail| - 1];
      TrailStaysInside(packages, entry, shorter, edges);
      assert Opens(packages, trail[|trail| - 2], trail[|trail| - 1]);
    }
  }

  lemma TrailExtends(packages: Packages, entry: seq<Edge>, e: Edge, d: Edge)
    requires Led(packages, entry, e) && Opens(packages, e, d)
    ensures Led(packages, entry, d)
  {
    var trail :| Trail(packages, entry, trail) && trail[|trail| - 1] == e;
    var longer := trail + [d];
    assert Trail(packages, entry, longer);
    assert longer[|longer| - 1] == d;
  }

  /** Every edge a lock can ever put on the queue. */
  function Universe(packages: Packages, entry: seq<Edge>): set<Edge> {
    (set e | e in entry) +
    (set n, e | n in packages && e in packages[n].dependencies :: e) +
    (set n, x, e | n in packages && x in packages[n].optional && e in packages[n].optional[x] :: e)
  }

  lemma LedIsInClosure(packages: Packages, entry: seq<Edge>, e: Edge)
    requires Led(packages, entry, e)
    ensures InClosure(packages, entry, e)
  {
    var trail :| Trail(packages, entry, trail) && trail[|trail| - 1] == e;
    forall edges: set<Edge> | Closed(packages, entry, edges) ensures e in edges {
      TrailStaysInside(packages, entry, trail, edges);
    }
  }

  lemma LedIsClosed(packages: Packages, entry: seq<Edge>, led: set<Edge>)
    requires forall d :: d in led <==> d in Universe(packages, entry) && Led(packages, entry, d)
    ensures Closed(packages, entry, led)
  {
    forall d | d in entry ensures d in led {
      assert Trail(packages, entry, [d]) && [d][|[d]| - 1] == d;
    }
    forall c, d | c in led && Opens(packages, c, d) ensures d in led {
      TrailExtends(packages, entry, c, d);
      OpenedIsKnown(packages, entry, c, d);
    }
  }

  lemma OpenedIsKnown(packages: Packages, entry: seq<Edge>, e: Edge, d: Edge)
    requires Opens(packages, e, d)
    ensures d in Universe(packages, entry)
  {
  }

  /** The least closed set is exactly what chains of openings lead to. */
  lemma ClosureIsReachability(packages: Packages, entry: seq<Edge>, e: Edge)
    ensures InClosure(packages, entry, e) <==> Led(packages, entry, e)
  {
    if Led(packages, entry, e) {
      LedIsInClosure(packages, entry, e);
    }
    if InClosure(packages, entry, e) {
      var led := set d | d in Universe(packages, entry) && Led(packages, entry, d);
      LedIsClosed(packages, entry, led);
    }
  }

  // ---------------------------------------------------------------- the walk

  predicate Has(reach: map<string, set<string>>, name: string, mark: string) {
    name in reach && mark in reach[name]
  }

  /** The packages that already carry the mark when a walk starts. */
  function Labelled(reach: map<string, set<string>>, mark: string): set<string> {
    set n | n in reach && Has(reach, n, mark)
  }

  /** The lock as a walk sees it: a package already labelled never has its dependencies start. */
  function Cut(packages: Packages, seen: set<string>): Packages {
    map n | n in packages :: if n in seen then packages[n].(dependencies := []) else packages[n]
  }

  ghost function Unlabelled(packages: Packages, reach: map<string, set<string>>, mark: string): set<string> {
    set n | n in packages && !Has(reach, n, mark)
  }

  ghost function Unexpanded(packages: Packages, expanded: map<string, set<string>>): set<(string, string)> {
    set n, x | n in packages && x in packages[n].optional && !Has(expanded, n, x) :: (n, x)
  }

  /** The table of labels that successive walks share and update in place. */
  class ReachTable {
    var reach: map<string, set<string>>

    constructor ()
      ensures reach == map[]
    {
      reach := map[];
    }
  }

  /** Labels are only added, only `mark` is added, and no name enters the table without it. */
  ghost predicate OnlyLabel(mark: string, before: map<string, set<string>>, after: map<string, set<string>>) {
    before.Keys <= after.Keys &&
    (forall n, l :: Has(before, n, l) ==> Has(after, n, l)) &&
    (forall n, l :: l != mark ==> (Has(after, n, l) <==> Has(before, n, l))) &&
    (forall n :: n in after ==> n in before || Has(after, n, mark))
  }

  lemma OnlyLabelChains(
    mark: string, a: map<string, set<string>>, b: map<string, set<string>>, c: map<string, set<string>>)
    requires OnlyLabel(mark, a, b) && OnlyLabel(mark, b, c)
    ensures OnlyLabel(mark, a, c)
  {
  }

  /** What the processed edges `done` and the queued edges `pending` guarantee between two pops. */
  ghost predicate Progress(cut: Packages, entry: seq<Edge>, pending: set<Edge>, done: set<Edge>) {
    (forall edges: set<Edge> :: Closed(cut, entry, edges) ==> pending + done <= edges) &&
    (forall e :: e in entry ==> e in pending + done) &&
    (forall e, d :: e in done && Opens(cut, e, d) ==> d in pending + done) &&
    (forall e :: e in done ==> !Broken(cut, e))
  }

  /** How a walk's bookkeeping summarises the processed edges. */
  ghost predicate Books(
    cut: Packages, mark: string, seen: set<string>, reach: map<string, set<string>>,
    expanded: map<string, set<string>>, pending: set<Edge>, done: set<Edge>)
  {
    (forall n :: Has(reach, n, mark) <==> n in seen || exists e :: e in done && e.name == n) &&
    (forall n, d :: n in cut && Has(reach, n, mark) && d in cut[n].dependencies ==> d in pending + done) &&
    (forall n, x :: Has(expanded, n, x) ==> n in cut && x in cut[n].optional) &&
    (forall n, x, d :: Has(expanded, n, x) && d in cut[n].optional[x] ==> d in pending + done)
  }

  /** What processing `edge` adds to the queue: dependencies on a first visit, and newly selected extras. */
  ghost predicate Queued(
    packages: Packages, mark: string, edge: Edge, reach: map<string, set<string>>,
    expanded: map<string, set<string>>, d: Edge)
  {
    edge.name in packages &&
    ((!Has(reach, edge.name, mark) && d in packages[edge.name].dependencies) ||
     exists x :: x in edge.extra && !Has(expanded, edge.name, x) &&
       x in packages[edge.name].optional && d in packages[edge.name].optional[x])
  }

  lemma QueuedOpens(
    packages: Packages, seen: set<string>, mark: string, edge: Edge,
    reach: map<string, set<string>>, expanded: map<string, set<string>>, d: Edge)
    requires edge.name in seen ==> Has(reach, edge.name, mark)
    requires Queued(packages, mark, edge, reach, expanded, d)
    ensures Opens(Cut(packages, seen), edge, d)
  {
    if edge.name !in seen || !(d in packages[edge.name].dependencies && !Has(reach, edge.name, mark)) {
      assert Cut(packages, seen)[edge.name].optional == packages[edge.name].optional;
    }
  }

  /** Everything an edge opens is among the edges known once it has been processed. */
  lemma OpensIntoKnown(
    packages: Packages, mark: string, seen: set<string>, edge: Edge, reach: map<string, set<string>>,
    expanded: map<string, set<string>>, rest: set<Edge>, pending: set<Edge>, done: set<Edge>, d: Edge)
    requires Books(Cut(packages, seen), mark, seen, reach, expanded, rest + {edge}, done)
    requires !Broken(packages, edge) && Opens(Cut(packages, seen), edge, d)
    requires forall d :: d in pending <==> d in rest || Queued(packages, mark, edge, reach, expanded, d)
    ensures d in pending + (done + {edge})
  {
    var cut := Cut(packages, seen);
    assert cut[edge.name].optional == packages[edge.name].optional;
    if d in cut[edge.name].dependencies {
      if Has(reach, edge.name, mark) {
        assert d in rest + {edge} + done;
      } else {
        assert Queued(packages, mark, edge, reach, expanded, d);
      }
    } else {
      var x :| x in edge.extra && x in cut[edge.name].optional && d in cut[edge.name].optional[x];
      if Has(expanded, edge.name, x) {
        assert d in rest + {edge} + done;
      } else {
        assert Queued(packages, mark, edge, reach, expanded, d);
      }
    }
  }

  lemma AdvanceBooks(
    packages: Packages, mark: string, seen: set<string>, edge: Edge, done: set<Edge>,
    reach: map<string, set<string>>, expanded: map<string, set<string>>, rest: set<Edge>, pending: set<Edge>)
    requires Books(Cut(packages, seen), mark, seen, reach, expanded, rest + {edge}, done)
    requires !Broken(packages, edge)
    requires forall d :: d in pending <==> d in rest || Queued(packages, mark, edge, reach, expanded, d)
    ensures Books(Cut(packages, seen), mark, seen, Added(reach, edge.name, {mark}),
                  Added(expanded, edge.name, set x | x in edge.extra), pending, done + {edge})
  {
    var cut := Cut(packages, seen);
    var reach', expanded' := Added(reach, edge.name, {mark}), Added(expanded, edge.name, set x | x in edge.extra);
    var all := pending + (done + {edge});
    assert cut[edge.name].optional == packages[edge.name].optional;
    assert rest + {edge} + done <= all;
    forall n, d | n in cut && Has(reach', n, mark) && d in cut[n].dependencies ensures d in all {
      if Has(reach, n, mark) {
        assert d in rest + {edge} + done;
      } else {
        assert Queued(packages, mark, edge, reach, expanded, d);
      }
    }
    forall n, x, d | Has(expanded', n, x) && d in cut[n].optional[x] ensures d in all {
      if Has(expanded, n, x) {
        assert d in rest + {edge} + done;
      } else {
        assert Queued(packages, mark, edge, reach, expanded, d);
      }
    }
  }

  lemma Advance(
    packages: Packages, entry: seq<Edge>, mark: string, seen: set<string>, edge: Edge, done: set<Edge>,
    reach: map<string, set<string>>, expanded: map<string, set<string>>, rest: set<Edge>, pending: set<Edge>)
    requires Progress(Cut(packages, seen), entry, rest + {edge}, done)
    requires Books(Cut(packages, seen), mark, seen, reach, expanded, rest + {edge}, done)
    requires !Broken(packages, edge)
    requires forall d :: d in pending <==> d in rest || Queued(packages, mark, edge, reach, expanded, d)
    ensures Progress(Cut(packages, seen), entry, pending, done + {edge})
  {
    var cut := Cut(packages, seen);
    CutBreaks(packages, seen, edge);
    forall d | d in pending && d !in rest ensures Opens(cut, edge, d) {
      QueuedOpens(packages, seen, mark, edge, reach, expanded, d);
    }
    var all := pending + (done + {edge});
    assert rest + {edge} + done <= all;
    forall e, d | e in done + {edge} && Opens(cut, e, d) ensures d in all {
      if e in done {
        assert d in rest + {edge} + done;
      } else {
        OpensIntoKnown(packages, mark, seen, edge, reach, expanded, rest, pending, done, d);
      }
    }
  }

  /** One pop keeps what holds between two pops. */
  lemma Step(
    packages: Packages, entry: seq<Edge>, mark: string, seen: set<string>, edge: Edge, done: set<Edge>,
    reach: map<string, set<string>>, expanded: map<string, set<string>>, rest: set<Edge>, pending: set<Edge>)
    requires Progress(Cut(packages, seen), entry, rest + {edge}, done)
    requires Books(Cut(packages, seen), mark, seen, reach, expanded, rest + {edge}, done)
    requires !Broken(packages, edge)
    requires forall d :: d in pending <==> d in rest || Queued(packages, mark, edge, reach, expanded, d)
    ensures Progress(Cut(packages, seen), entry, pending, done + {edge})
    ensures Books(Cut(packages, seen), mark, seen, Added(reach, edge.name, {mark}),
                  Added(expanded, edge.name, set x | x in edge.extra), pending, done + {edge})
  {
    Advance(packages, entry, mark, seen, edge, done, reach, expanded, rest, pending);
    AdvanceBooks(packages, mark, seen, edge, done, reach, expanded, rest, pending);
  }

  /** `m.setdefault(name, set()).update(added)`. */
  function Added(m: map<string, set<string>>, name: string, added: set<string>): (r: map<string, set<string>>)
    ensures forall n, x :: Has(r, n, x) <==> Has(m, n, x) || (n == name && x in added)
  {
    m[name := (if name in m then m[name] else {}) + added]
  }

  /** Entering a name and then growing its set is adding, and nothing happens when all is there already. */
  lemma AddedInSteps(m: map<string, set<string>>, name: string, added: set<string>)
    ensures var entered := if name in m then m else m[name := {}];
      entered[name := entered[name] + added] == Added(m, name, added) &&
      entered[name := entered[name] + (added - entered[name])] == Added(m, name, added) &&
      (added <= entered[name] ==> entered == Added(m, name, added))
  {
    var entered := if name in m then m else m[name := {}];
    assert entered[name] + (added - entered[name]) == entered[name] + added;
    assert added <= entered[name] ==> entered[name] + added == entered[name];
  }

  /** The lock has finitely many labels to add and extras to expand, and every pop uses one up or shortens the queue. */
  lemma Decreases(
    packages: Packages, mark: string, edge: Edge, reach: map<string, set<string>>, expanded: map<string, set<string>>)
    requires !Broken(packages, edge)
    ensures var reach' := Added(reach, edge.name, {mark});
      var expanded' := Added(expanded, edge.name, set x | x in edge.extra);
      if !Has(reach, edge.name, mark) then Unlabelled(packages, reach', mark) < Unlabelled(packages, reach, mark)
      else
        Unlabelled(packages, reach', mark) == Unlabelled(packages, reach, mark) &&
        if exists x :: x in edge.extra && !Has(expanded, edge.name, x)
        then Unexpanded(packages, expanded') < Unexpanded(packages, expanded)
        else Unexpanded(packages, expanded') == Unexpanded(packages, expanded)
  {
    var reach', expanded' := Added(reach, edge.name, {mark}), Added(expanded, edge.name, set x | x in edge.extra);
    if !Has(reach, edge.name, mark) {
      assert edge.name in Unlabelled(packages, reach, mark) - Unlabelled(packages, reach', mark);
    } else if x :| x in edge.extra && !Has(expanded, edge.name, x) {
      assert (edge.name, x) in Unexpanded(packages, expanded) - Unexpanded(packages, expanded');
    }
  }

  lemma CutBreaks(packages: Packages, seen: set<string>, edge: Edge)
    ensures Broken(Cut(packages, seen), edge) == Broken(packages, edge)
  {
    if edge.name in packages {
      assert Cut(packages, seen)[edge.name].optional == packages[edge.name].optional;
    }
  }

  /** What a walk from `before` to `after` promises about its outcome. */
  ghost predicate Walked(
    packages: Packages, edges: seq<Edge>, mark: string,
    before: map<string, set<string>>, after: map<string, set<string>>, r: Outcome<LockfileError>)
  {
    var cut := Cut(packages, Labelled(before, mark));
    match r
    case Pass =>
      (forall e :: InClosure(cut, edges, e) ==> !Broken(packages, e)) &&
      (forall n :: Has(after, n, mark) <==> Has(before, n, mark) || Named(cut, edges, n))
    case Fail(error) => exists e :: InClosure(cut, edges, e) && Explains(packages, e, error)
  }

  lemma PendingIsReached(cut: Packages, entry: seq<Edge>, pending: set<Edge>, done: set<Edge>, e: Edge)
    requires Progress(cut, entry, pending, done) && e in pending
    ensures InClosure(cut, entry, e)
  {
  }

  lemma Finished(cut: Packages, entry: seq<Edge>, done: set<Edge>)
    requires Progress(cut, entry, {}, done)
    ensures forall e :: InClosure(cut, entry, e) <==> e in done
    ensures forall e :: InClosure(cut, entry, e) ==> !Broken(cut, e)
  {
    assert Closed(cut, entry, done);
  }

  lemma AllAnswered(packages: Packages, seen: set<string>, entry: seq<Edge>, done: set<Edge>)
    requires Progress(Cut(packages, seen), entry, {}, done)
    ensures forall e :: InClosure(Cut(packages, seen), entry, e) <==> e in done
    ensures forall e :: InClosure(Cut(packages, seen), entry, e) ==> !Broken(packages, e)
  {
    Finished(Cut(packages, seen), entry, done);
    forall e ensures Broken(Cut(packages, seen), e) == Broken(packages, e) {
      CutBreaks(packages, seen, e);
    }
  }

  function Elems(queue: seq<Edge>): set<Edge> {
    set e | e in queue
  }

  /**
   Label every package the entry edges reach. A package that already carries the mark is not
   expanded again, so the contract speaks of the lock cut at those packages.
   */
  method Walk(packages: Packages, edges: seq<Edge>, mark: string, table: ReachTable)
    returns (r: Outcome<LockfileError>)
    modifies table
    ensures OnlyLabel(mark, old(table.reach), table.reach)
    ensures Walked(packages, edges, mark, old(table.reach), table.reach, r)
  {
    ghost var before := table.reach;
    ghost var seen := Labelled(table.reach, mark);
    ghost var cut := Cut(packages, seen);
    ghost var done: set<Edge> := {};
    var queue := edges;
    var expanded: map<string, set<string>> := map[];
    while queue != []
      invariant OnlyLabel(mark, before, table.reach)
      invariant Progress(cut, edges, Elems(queue), done)
      invariant Books(cut, mark, seen, table.reach, expanded, Elems(queue), done)
      decreases Unlabelled(packages, table.reach, mark), Unexpanded(packages, expanded), |queue|
    {
      ghost var reach0, expanded0, queue0 := table.reach, expanded, queue;
      var edge := queue[|queue| - 1];
      ghost var rest := queue[..|queue| - 1];
      assert Elems(queue) == Elems(rest) + {edge};
      assert edge.name in packages ==> cut[edge.name].optional == packages[edge.name].optional;
      r, expanded, queue := Visit(packages, edge, mark, table, expanded, queue[..|queue| - 1]);
      OnlyLabelChains(mark, before, reach0, table.reach);
      PendingIsReached(cut, edges, Elems(rest) + {edge}, done, edge);
      if r.Fail? {
        return;
      }
      Decreases(packages, mark, edge, reach0, expanded0);
      Step(packages, edges, mark, seen, edge, done, reach0, expanded0, Elems(rest), Elems(queue));
      done := done + {edge};
    }
    AllAnswered(packages, seen, edges, done);
    return Pass;
  }

  /** Process one popped edge: label its package, queue what that opens, expand its new extras. */
  method Visit(
    packages: Packages, edge: Edge, mark: string, table: ReachTable,
    expanded0: map<string, set<string>>, rest: seq<Edge>)
    returns (r: Outcome<LockfileError>, expanded: map<string, set<string>>, queue: seq<Edge>)
    requires edge.name in packages ==>
      forall x :: Has(expanded0, edge.name, x) ==> x in packages[edge.name].optional
    modifies table
    ensures OnlyLabel(mark, old(table.reach), table.reach)
    ensures r.Fail? ==> Explains(packages, edge, r.error)
    ensures r.Pass? ==>
      table.reach == Added(old(table.reach), edge.name, {mark}) &&
      expanded == Added(expanded0, edge.name, set x | x in edge.extra) &&
      !Broken(packages, edge) &&
      forall d :: d in queue <==> d in rest || Queued(packages, mark, edge, old(table.reach), expanded0, d)
    ensures r.Pass? && Has(old(table.reach), edge.name, mark) ==>
      (forall x :: x in edge.extra ==> Has(expanded0, edge.name, x)) ==> queue == rest
  {
    queue, expanded := rest, expanded0;
    var name := edge.name;
    if name !in packages {
      return Fail(NotInLock(name)), expanded, queue;
    }
    var package := packages[name];
    var firstVisit := AddLabel(table, name, mark);
    if firstVisit {
      queue := queue + package.dependencies;
    }
    if name !in expanded {
      expanded := expanded[name := {}];
    }
    var newExtras := (set x | x in edge.extra) - expanded[name];
    var missing: Option<string>;
    queue, missing := ExpandExtras(package.optional, newExtras, queue);
    if missing.Some? {
      return Fail(ExtraAbsent(name, missing.value)), expanded, queue;
    }
    expanded := expanded[name := expanded[name] + newExtras];
    AddedInSteps(expanded0, name, set x | x in edge.extra);
    return Pass, expanded, queue;
  }

  /** Put the mark on a package; is it the first time? */
  method AddLabel(table: ReachTable, name: string, mark: string) returns (firstVisit: bool)
    modifies table
    ensures firstVisit <==> !Has(old(table.reach), name, mark)
    ensures table.reach == Added(old(table.reach), name, {mark})
  {
    if name !in table.reach {
      table.reach := table.reach[name := {}];
    }
    firstVisit := mark !in table.reach[name];
    if firstVisit {
      table.reach := table.reach[name := table.reach[name] + {mark}];
    }
    AddedInSteps(old(table.reach), name, {mark});
  }

  /** Queue what each newly selected extra opens, in whatever order a set is iterated. */
  method ExpandExtras(optional: map<string, seq<Edge>>, newExtras: set<string>, before: seq<Edge>)
    returns (queue: seq<Edge>, missing: Option<string>)
    ensures missing.Some? ==> missing.value in newExtras && missing.value !in optional
    ensures missing.None? ==> newExtras <= optional.Keys
    ensures missing.None? ==> before <= queue && (newExtras == {} ==> queue == before)
    ensures missing.None? ==> forall d :: d in queue <==> d in before || exists x :: x in newExtras && d in optional[x]
  {
    queue, missing := before, None;
    var todo := newExtras;
    while todo != {}
      invariant todo <= newExtras && newExtras - todo <= optional.Keys
      invariant before <= queue && (newExtras == {} ==> queue == before)
      invariant forall d :: d in queue <==> d in before || exists x :: x in newExtras - todo && d in optional[x]
      decreases todo
    {
      var x :| x in todo;
      if x !in optional {
        return queue, Some(x);
      }
      queue := queue + optional[x];
      todo := todo - {x};
    }
  }

  // ---------------------------------------------------------------- the graph

  /** The packages by name. */
  function ByName(lock: seq<Package>): (packages: Packages) {
    if lock == [] then map[]
    else
      var last := lock[|lock| - 1];
      ByName(lock[..|lock| - 1])[last.name := last]
  }

  /** A repeated name keeps its last entry, and only names the lock holds are keys. */
  lemma {:induction false} LastEntryWins(lock: seq<Package>, n: string)
    ensures n in ByName(lock) <==> exists i :: 0 <= i < |lock| && lock[i].name == n
    ensures n in ByName(lock) ==> exists i ::
      0 <= i < |lock| && lock[i].name == n && ByName(lock)[n] == lock[i] &&
      forall j :: i < j < |lock| ==> lock[j].name != n
  {
    if lock != [] {
      var shorter := lock[..|lock| - 1];
      LastEntryWins(shorter, n);
      if lock[|lock| - 1].name == n {
        assert ByName(lock)[n] == lock[|lock| - 1];
      } else if n in ByName(shorter) {
        var i :| 0 <= i < |shorter| && shorter[i].name == n && ByName(shorter)[n] == shorter[i] &&
          forall j :: i < j < |shorter| ==> shorter[j].name != n;
        assert lock[i] == shorter[i];
        forall j | i < j < |lock| ensures lock[j].name != n {
          if j < |shorter| {
            assert lock[j] == shorter[j];
          }
        }
      } else {
        forall i | 0 <= i < |lock| ensures lock[i].name != n {
          if i < |shorter| {
            assert lock[i] == shorter[i];
          }
        }
      }
    }
  }

  function Versions(packages: Packages, root: string): map<string, string> {
    map n | n in packages && n != root && packages[n].version.Some? :: packages[n].version.value
  }

  /** The entry points of the root package: a label, and the edges it starts from. */
  ghost predicate Entry(root: Package, mark: string, edges: seq<Edge>) {
    (mark == RUNTIME && edges == root.dependencies) ||
    (exists x :: x in root.optional && mark == EXTRA + x && edges == root.optional[x]) ||
    (exists g :: g in root.dev && mark == GROUP + g && edges == root.dev[g])
  }

  lemma Labels(x: string, y: string)
    ensures EXTRA + x != RUNTIME && GROUP + y != RUNTIME && EXTRA + x != GROUP + y
    ensures EXTRA <= EXTRA + x && !(EXTRA <= GROUP + y) && !(EXTRA <= RUNTIME)
    ensures GROUP <= GROUP + y && !(GROUP <= EXTRA + x) && !(GROUP <= RUNTIME)
    ensures EXTRA + x == EXTRA + y ==> x == y
    ensures GROUP + x == GROUP + y ==> x == y
  {
    assert (EXTRA + x)[0] == 'e' && (GROUP + y)[0] == 'g' && RUNTIME[0] == 'r';
    assert (EXTRA + x)[6..] == x && (EXTRA + y)[6..] == y;
    assert (GROUP + x)[6..] == x && (GROUP + y)[6..] == y;
  }

  /** No two entry points share a label, so no walk meets a label left by another. */
  lemma EntryLabelsAreDistinct(root: Package, mark: string, edges: seq<Edge>, edges': seq<Edge>)
    requires Entry(root, mark, edges) && Entry(root, mark, edges')
    ensures edges == edges'
  {
    if mark == RUNTIME {
      forall x ensures EXTRA + x != mark && GROUP + x != mark {
        Labels(x, x);
      }
    } else if x :| x in root.optional && mark == EXTRA + x && edges == root.optional[x] {
      forall y ensures GROUP + y != mark && (EXTRA + y == mark ==> x == y) {
        Labels(x, y);
      }
    } else {
      var g :| g in root.dev && mark == GROUP + g && edges == root.dev[g];
      forall y ensures EXTRA + y != mark && (GROUP + y == mark ==> g == y) {
        Labels(y, g);
        Labels(g, y);
      }
    }
  }

  /** The closure says no entry point can reach an edge the lock cannot answer. */
  ghost predicate Answered(packages: Packages, root: Package) {
    forall mark, edges, e :: Entry(root, mark, edges) && InClosure(packages, edges, e) ==> !Broken(packages, e)
  }

  /** Each label's membership, independently of every other label's. */
  ghost predicate GraphOf(packages: Packages, root: string, g: Graph)
    requires root in packages
  {
    g.versions == Versions(packages, root) &&
    (forall n :: n in g.reach ==> g.reach[n] != {}) &&
    forall n, l :: Has(g.reach, n, l) <==>
      exists edges :: Entry(packages[root], l, edges) && Named(packages, edges, n)
  }

  /** In a built graph a label is on exactly the packages its own closure names, whatever the other labels are. */
  lemma LabelIsOwnClosure(packages: Packages, root: string, g: Graph, mark: string, edges: seq<Edge>, n: string)
    requires root in packages && GraphOf(packages, root, g) && Entry(packages[root], mark, edges)
    ensures Has(g.reach, n, mark) <==> Named(packages, edges, n)
  {
    if Has(g.reach, n, mark) {
      var edges' :| Entry(packages[root], mark, edges') && Named(packages, edges', n);
      EntryLabelsAreDistinct(packages[root], mark, edges, edges');
    }
  }

  /** The specification leaves no freedom, so neither pop order nor dictionary order can show. */
  lemma GraphIsUnique(packages: Packages, root: string, g: Graph, h: Graph)
    requires root in packages && GraphOf(packages, root, g) && GraphOf(packages, root, h)
    ensures g == h
  {
    forall n, l ensures Has(g.reach, n, l) == Has(h.reach, n, l) {}
    forall n ensures n in g.reach <==> n in h.reach {
      if n in g.reach {
        var l :| l in g.reach[n];
        assert Has(g.reach, n, l);
      }
      if n in h.reach {
        var l :| l in h.reach[n];
        assert Has(h.reach, n, l);
      }
    }
    forall n | n in g.reach ensures g.reach[n] == h.reach[n] {
      assert forall l :: l in g.reach[n] <==> Has(g.reach, n, l);
      assert forall l :: l in h.reach[n] <==> Has(h.reach, n, l);
    }
    assert g.reach == h.reach;
  }

  lemma ClosureStep(packages: Packages, entry: seq<Edge>, e: Edge, d: Edge)
    requires InClosure(packages, entry, e) && Opens(packages, e, d)
    ensures InClosure(packages, entry, d)
  {
  }

  lemma CutReachesNoMore(packages: Packages, seen: set<string>, entry: seq<Edge>, e: Edge)
    requires InClosure(Cut(packages, seen), entry, e)
    ensures InClosure(packages, entry, e)
  {
    forall edges: set<Edge> | Closed(packages, entry, edges) ensures e in edges {
      forall c, d | c in edges && Opens(Cut(packages, seen), c, d) ensures d in edges {
        CutOpens(packages, seen, c, d);
      }
      assert Closed(Cut(packages, seen), entry, edges);
    }
  }

  /** What the cut takes away is the dependencies of a labelled package, nothing else. */
  lemma CutOpens(packages: Packages, seen: set<string>, e: Edge, d: Edge)
    ensures Opens(Cut(packages, seen), e, d) ==> Opens(packages, e, d)
    ensures Opens(packages, e, d) && !Opens(Cut(packages, seen), e, d) ==>
      e.name in seen && d in packages[e.name].dependencies
  {
    if e.name in packages {
      assert Cut(packages, seen)[e.name].optional == packages[e.name].optional;
    }
  }

  predicate DependsOn(packages: Packages, e: Edge, d: Edge) {
    e.name in packages && d in packages[e.name].dependencies
  }

  /** Every dependency of a labelled package that the walk meets is reached by some other way. */
  ghost predicate Bypassed(packages: Packages, seen: set<string>, entry: seq<Edge>) {
    forall e, d ::
      InClosure(Cut(packages, seen), entry, e) && e.name in seen && DependsOn(packages, e, d)
      ==> InClosure(Cut(packages, seen), entry, d)
  }

  lemma BypassedLosesNothing(packages: Packages, seen: set<string>, entry: seq<Edge>, e: Edge)
    requires Bypassed(packages, seen, entry) && InClosure(packages, entry, e)
    ensures InClosure(Cut(packages, seen), entry, e)
  {
    var kept := set d | d in Universe(packages, entry) && InClosure(Cut(packages, seen), entry, d);
    forall c, d | c in kept && Opens(packages, c, d) ensures d in kept {
      CutOpens(packages, seen, c, d);
      OpenedIsKnown(packages, entry, c, d);
      if Opens(Cut(packages, seen), c, d) {
        ClosureStep(Cut(packages, seen), entry, c, d);
      }
    }
    assert Closed(packages, entry, kept);
  }

  /** A walk that starts with its label on some packages misses nothing exactly when those are all bypassed. */
  lemma LabelledStartMissesNothing(packages: Packages, seen: set<string>, entry: seq<Edge>)
    ensures (forall e :: InClosure(packages, entry, e) <==> InClosure(Cut(packages, seen), entry, e)) <==>
      Bypassed(packages, seen, entry)
  {
    forall e | InClosure(Cut(packages, seen), entry, e) ensures InClosure(packages, entry, e) {
      CutReachesNoMore(packages, seen, entry, e);
    }
    if Bypassed(packages, seen, entry) {
      forall e | InClosure(packages, entry, e) ensures InClosure(Cut(packages, seen), entry, e) {
        BypassedLosesNothing(packages, seen, entry, e);
      }
    }
    if forall e :: InClosure(packages, entry, e) <==> InClosure(Cut(packages, seen), entry, e) {
      forall e, d | InClosure(Cut(packages, seen), entry, e) && DependsOn(packages, e, d)
        ensures InClosure(Cut(packages, seen), entry, d)
      {
        ClosureStep(packages, entry, e, d);
      }
    }
  }

  /** With `a` labelled before the walk, its dependency `b` is missed. */
  lemma StaleLabelHidesDependencies()
    ensures var a := Package("a", None, [Edge("b", [])], map[], map[]);
      var b := Package("b", None, [], map[], map[]);
      var packages := map["a" := a, "b" := b];
      Named(packages, [Edge("a", [])], "b") && !Named(Cut(packages, {"a"}), [Edge("a", [])], "b")
  {
    var a := Package("a", None, [Edge("b", [])], map[], map[]);
    var b := Package("b", None, [], map[], map[]);
    var packages := map["a" := a, "b" := b];
    var entry := [Edge("a", [])];
    assert Opens(packages, Edge("a", []), Edge("b", []));
    assert InClosure(packages, entry, Edge("b", []));
    assert Closed(Cut(packages, {"a"}), entry, {Edge("a", [])});
  }

  ghost predicate Distinct(points: seq<(string, seq<Edge>)>) {
    forall i, j :: 0 <= i < j < |points| ==> points[i].0 != points[j].0
  }

  /** Yield the entry points, the extras and groups in whatever order a dictionary holds them. */
  method EntryPoints(root: Package) returns (points: seq<(string, seq<Edge>)>)
    ensures forall i :: 0 <= i < |points| ==> Entry(root, points[i].0, points[i].1)
    ensures forall l, edges :: Entry(root, l, edges) ==> (l, edges) in points
    ensures Distinct(points)
  {
    var shipped := ExtraPoints(root);
    var groups := GroupPoints(root);
    points := shipped + groups;
    forall p | GroupPoint(root, p) ensures p.0 == GROUP + p.0[|GROUP|..] && Entry(root, p.0, p.1) {}
  }

  /** The entry points that ship: the runtime dependencies, then every extra. */
  method ExtraPoints(root: Package) returns (points: seq<(string, seq<Edge>)>)
    ensures forall i :: 0 <= i < |points| ==>
      points[i] == (RUNTIME, root.dependencies) ||
      exists x :: x in root.optional && points[i] == (EXTRA + x, root.optional[x])
    ensures (RUNTIME, root.dependencies) in points
    ensures forall x :: x in root.optional ==> (EXTRA + x, root.optional[x]) in points
    ensures Distinct(points) && forall i :: 0 <= i < |points| ==> !(GROUP <= points[i].0)
  {
    Labels("", "");
    points := [(RUNTIME, root.dependencies)];
    var extras := root.optional.Keys;
    while extras != {}
      invariant extras <= root.optional.Keys
      invariant forall i :: 0 <= i < |points| ==>
        points[i] == (RUNTIME, root.dependencies) ||
        exists x :: x in root.optional && x !in extras && points[i] == (EXTRA + x, root.optional[x])
      invariant (RUNTIME, root.dependencies) in points
      invariant forall x :: x in root.optional && x !in extras ==> (EXTRA + x, root.optional[x]) in points
      invariant Distinct(points) && forall i :: 0 <= i < |points| ==> !(GROUP <= points[i].0)
    {
      var x :| x in extras;
      forall y ensures !(GROUP <= EXTRA + x) && EXTRA + x != RUNTIME && (EXTRA + x == EXTRA + y ==> x == y) {
        Labels(x, y);
      }
      points := points + [(EXTRA + x, root.optional[x])];
      extras := extras - {x};
    }
  }

  predicate GroupPoint(root: Package, point: (string, seq<Edge>)) {
    GROUP <= point.0 && point.0[|GROUP|..] in root.dev && point.1 == root.dev[point.0[|GROUP|..]]
  }

  method GroupPoints(root: Package) returns (points: seq<(string, seq<Edge>)>)
    ensures forall i :: 0 <= i < |points| ==> GroupPoint(root, points[i])
    ensures forall g :: g in root.dev ==> (GROUP + g, root.dev[g]) in points
    ensures Distinct(points)
  {
    points := [];
    var groups := root.dev.Keys;
    while groups != {}
      invariant groups <= root.dev.Keys
      invariant forall i :: 0 <= i < |points| ==> GroupPoint(root, points[i]) && points[i].0[|GROUP|..] !in groups
      invariant forall g :: g in root.dev && g !in groups ==> (GROUP + g, root.dev[g]) in points
      invariant Distinct(points)
    {
      var g :| g in groups;
      assert (GROUP + g)[|GROUP|..] == g;
      points := points + [(GROUP + g, root.dev[g])];
      groups := groups - {g};
    }
  }

  /** The table after the walks of `points`: each label's closure, side by side. */
  ghost predicate Joined(packages: Packages, points: seq<(string, seq<Edge>)>, reach: map<string, set<string>>) {
    (forall p, e :: p in points && InClosure(packages, p.1, e) ==> !Broken(packages, e)) &&
    (forall n :: n in reach ==> reach[n] != {}) &&
    forall n, l :: Has(reach, n, l) <==> exists p :: p in points && p.0 == l && Named(packages, p.1, n)
  }

  lemma Joins(
    packages: Packages, points: seq<(string, seq<Edge>)>, point: (string, seq<Edge>),
    before: map<string, set<string>>, after: map<string, set<string>>, outcome: Outcome<LockfileError>)
    requires Joined(packages, points, before) && forall p :: p in points ==> p.0 != point.0
    requires OnlyLabel(point.0, before, after) && Walked(packages, point.1, point.0, before, after, outcome)
    ensures outcome.Pass? ==> Joined(packages, points + [point], after)
    ensures outcome.Fail? ==> exists e :: InClosure(packages, point.1, e) && Explains(packages, e, outcome.error)
  {
    assert Labelled(before, point.0) == {};
    assert Cut(packages, {}) == packages;
    if outcome.Pass? {
      forall n | n in after ensures after[n] != {} {
        if n in before {
          var l :| l in before[n];
          assert Has(before, n, l);
          assert Has(after, n, l);
        } else {
          assert Has(after, n, point.0);
        }
      }
      forall n, l
        ensures Has(after, n, l) <==> exists p :: p in points + [point] && p.0 == l && Named(packages, p.1, n)
      {
        if l == point.0 {
          assert point in points + [point];
        } else {
          assert Has(after, n, l) == Has(before, n, l);
          forall p | p in points + [point] && p.0 == l ensures p in points {}
        }
      }
    }
  }

  method FromLock(lock: seq<Package>, root: string) returns (r: Result<Graph, LockfileError>)
    ensures var packages := ByName(lock);
      r.Ok? <==> root in packages && Answered(packages, packages[root])
    ensures r.Ok? ==> GraphOf(ByName(lock), root, r.value)
    ensures r.Err? ==> var packages := ByName(lock);
      if root !in packages then r.error == RootAbsent(root)
      else exists l, edges, e ::
        Entry(packages[root], l, edges) && InClosure(packages, edges, e) && Explains(packages, e, r.error)
  {
    var packages := ByName(lock);
    if root !in packages {
      return Err(RootAbsent(root));
    }
    var table := new ReachTable();
    var points := EntryPoints(packages[root]);
    for i := 0 to |points|
      invariant Joined(packages, points[..i], table.reach)
    {
      var (l, edges) := points[i];
      ghost var before := table.reach;
      var outcome := Walk(packages, edges, l, table);
      assert points[..i + 1] == points[..i] + [points[i]];
      Joins(packages, points[..i], points[i], before, table.reach, outcome);
      if outcome.Fail? {
        return Err(outcome.error);
      }
    }
    assert points[..|points|] == points;
    return Ok(Graph(Versions(packages, root), table.reach));
  }

  // ---------------------------------------------------------------- who receives a package

  const NOT_IN_LOCK := " is not in the lock"
  const EVERY_CONSUMER := "every consumer"
  const NOT_SHIPPED := "development only, not shipped to consumers"

  /** The extras among a package's labels, without their prefix. */
  function Extras(labels: set<string>): set<string> {
    set l | l in labels && EXTRA <= l :: l[|EXTRA|..]
  }

  function BlastRadius(g: Graph, package: string): string {
    if package !in g.reach then package + NOT_IN_LOCK
    else if RUNTIME in g.reach[package] then EVERY_CONSUMER
    else
      var extras := Ordering.SortSet(Extras(g.reach[package]));
      if extras != [] then "consumers of the " + Text.Join(", ", extras) + " extra" else NOT_SHIPPED
  }

  /** The three kinds of answer can be told apart by their text, whatever the package is called. */
  lemma BlastRadiusTells(g: Graph, package: string)
    ensures BlastRadius(g, package) == package + " is not in the lock" <==> package !in g.reach
    ensures BlastRadius(g, package) == NOT_SHIPPED <==>
      package in g.reach && RUNTIME !in g.reach[package] && forall l :: l in g.reach[package] ==> !(EXTRA <= l)
  {
    var radius := BlastRadius(g, package);
    var absent := package + NOT_IN_LOCK;
    assert absent[|absent| - 1] == 'k';
    assert EVERY_CONSUMER[13] == 'r' && NOT_SHIPPED[41] == 's' && NOT_SHIPPED[0] == 'd';
    if package in g.reach && RUNTIME !in g.reach[package] {
      var extras := Ordering.SortSet(Extras(g.reach[package]));
      forall l | l in g.reach[package] && EXTRA <= l ensures l[|EXTRA|..] in extras {}
      if extras != [] {
        assert radius[0] == 'c' && radius[|radius| - 1] == 'a';
        var l :| l in g.reach[package] && EXTRA <= l && l[|EXTRA|..] == extras[0];
      }
    }
  }

  /** "Every consumer" is said exactly of what the runtime dependencies reach. */
  lemma EveryConsumerTells(g: Graph, package: string)
    ensures BlastRadius(g, package) == "every consumer" <==> package in g.reach && RUNTIME in g.reach[package]
  {
    var radius, absent := BlastRadius(g, package), package + NOT_IN_LOCK;
    assert absent[|absent| - 1] == 'k' && EVERY_CONSUMER[13] == 'r';
    assert EVERY_CONSUMER[0] == 'e' && NOT_SHIPPED[0] == 'd';
    if package in g.reach && RUNTIME !in g.reach[package] {
      assert Ordering.SortSet(Extras(g.reach[package])) != [] ==> radius[0] == 'c';
    }
  }

  /** Of what only extras reach, their names are said, in order. */
  lemma ExtraConsumersTold(g: Graph, package: string)
    requires package in g.reach && RUNTIME !in g.reach[package] && exists l :: l in g.reach[package] && EXTRA <= l
    ensures exists names: seq<string> ::
      BlastRadius(g, package) == "consumers of the " + Text.Join(", ", names) + " extra" &&
      Ordering.Ascending(names) && forall x :: x in names <==> EXTRA + x in g.reach[package]
  {
    var names := Ordering.SortSet(Extras(g.reach[package]));
    forall x ensures x in names <==> EXTRA + x in g.reach[package] {
      if EXTRA + x in g.reach[package] {
        assert (EXTRA + x)[|EXTRA|..] == x;
      }
      if x in names {
        var l :| l in g.reach[package] && EXTRA <= l && l[|EXTRA|..] == x;
        assert l == EXTRA + x;
      }
    }
    var l :| l in g.reach[package] && EXTRA <= l;
    assert l[|EXTRA|..] in names;
  }

  /** The version of a package is that of its last entry in the lock; the project itself has none. */
  lemma VersionsAreLocked(lock: seq<Package>, root: string, n: string)
    ensures n in Versions(ByName(lock), root) ==> n != root && exists i :: 0 <= i < |lock| && lock[i].name == n
    ensures forall i :: 0 <= i < |lock| && lock[i].name == n && (forall j :: i < j < |lock| ==> lock[j].name != n) ==>
      (n in Versions(ByName(lock), root) <==> n != root && lock[i].version.Some?) &&
      (n in Versions(ByName(lock), root) ==> Some(Versions(ByName(lock), root)[n]) == lock[i].version)
  {
    LastEntryWins(lock, n);
  }

  lemma LabelsHaveKinds(packages: Packages, root: string, g: Graph, n: string, l: string)
    requires root in packages && GraphOf(packages, root, g) && Has(g.reach, n, l)
    ensures l == "runtime" || "extra:" <= l || "group:" <= l
    ensures GROUP <= l <==> !(l == RUNTIME || EXTRA <= l)
  {
    var edges :| Entry(packages[root], l, edges) && Named(packages, edges, n);
    forall x ensures EXTRA <= EXTRA + x && GROUP <= GROUP + x && !(EXTRA <= GROUP + x) && !(GROUP <= EXTRA + x) {
      Labels(x, x);
    }
    Labels("", "");
  }
}
