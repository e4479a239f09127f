/** The next version number, derived from fragments and the surface diff (tools/release.py). */
module Planner {
  import opened Wrappers
  import Ordering
  import opened ReleaseNumbers

  datatype Fragment = Fragment(id: string, kind: string, migration: Option<string>)

  datatype Diff = Diff(added: seq<string>, removed: seq<string>, changed: seq<string>)

  datatype Bump = PATCH | SURFACE | BREAKING

  datatype Reason =
    | BreakingFragment(fragment: Fragment)
    | SurfaceFragment(fragment: Fragment)
    | OtherFragment(fragment: Fragment)
    | Disappeared(name: string)
    | ChangedShape(name: string)
    | NewNames(count: nat)

  datatype ReleaseError =
    | NoMigration(fragment: Fragment)
    | NoRelease(current: string)

  const FIRST_RELEASE := Release(0, 1, 0)
  const BREAKING_KINDS := {"breaking", "removed"}
  const SURFACE_KINDS := {"added", "deprecated"}

  function Rank(b: Bump): nat {
    match b case PATCH => 0 case SURFACE => 1 case BREAKING => 2
  }

  function FragmentBump(f: Fragment): Bump {
    if f.kind in BREAKING_KINDS then BREAKING else if f.kind in SURFACE_KINDS then SURFACE else PATCH
  }

  function FragmentReason(f: Fragment): Reason {
    match FragmentBump(f)
    case BREAKING => BreakingFragment(f)
    case SURFACE => SurfaceFragment(f)
    case PATCH => OtherFragment(f)
  }

  /** What the public API says changed between two surfaces. */
  function SurfaceDiff(baseline: map<string, string>, current: map<string, string>): Diff {
    Diff(Ordering.SortSet(current.Keys - baseline.Keys),
         Ordering.SortSet(baseline.Keys - current.Keys),
         Ordering.SortSet(set k | k in baseline && k in current && baseline[k] != current[k]))
  }

  /** Does anything pending demand this bump? */
  predicate Demands(b: Bump, fragments: seq<Fragment>, diff: Diff) {
    (exists f :: f in fragments && FragmentBump(f) == b) ||
    (b == BREAKING && (diff.removed != [] || diff.changed != [])) ||
    (b == SURFACE && diff.added != [])
  }

  /** The largest demand, or a patch when nothing is pending. */
  function Largest(fragments: seq<Fragment>, diff: Diff): Bump {
    if Demands(BREAKING, fragments, diff) then BREAKING
    else if Demands(SURFACE, fragments, diff) then SURFACE
    else PATCH
  }

  /** The reasons a bump is demanded for, in the order the source finds them. */
  function Reasons(b: Bump, fragments: seq<Fragment>, diff: Diff): seq<Reason> {
    FragmentReasons(b, fragments) + Extra(b, diff.removed, false) + Extra(b, diff.changed, true) +
    (if b == SURFACE && diff.added != [] then [NewNames(|diff.added|)] else [])
  }

  function FragmentReasons(b: Bump, fragments: seq<Fragment>): seq<Reason> {
    if fragments == [] then []
    else
      var last := fragments[|fragments| - 1];
      FragmentReasons(b, fragments[..|fragments| - 1]) + if FragmentBump(last) == b then [FragmentReason(last)] else []
  }

  function Named(names: seq<string>, changed: bool): seq<Reason> {
    if names == [] then []
    else
      Named(names[..|names| - 1], changed) +
      [if changed then ChangedShape(names[|names| - 1]) else Disappeared(names[|names| - 1])]
  }

  /** `reasons.setdefault(b, []).append(reason)`. */
  function Appended(reasons: map<Bump, seq<Reason>>, b: Bump, reason: Reason): map<Bump, seq<Reason>> {
    reasons[b := (if b in reasons then reasons[b] else []) + [reason]]
  }

  /** The reasons listed under a bump, none when the bump is no key. */
  function Listed(reasons: map<Bump, seq<Reason>>, b: Bump): seq<Reason> {
    if b in reasons then reasons[b] else []
  }

  predicate NoEmptyList(reasons: map<Bump, seq<Reason>>) {
    forall b :: b in reasons ==> reasons[b] != []
  }

  method Why(fragments: seq<Fragment>, diff: Diff) returns (reasons: map<Bump, seq<Reason>>)
    ensures forall b :: Listed(reasons, b) == Reasons(b, fragments, diff)
    ensures forall b :: b in reasons <==> Demands(b, fragments, diff)
  {
    reasons := FromFragments(fragments);
    ghost var first := reasons;
    reasons := AppendNames(reasons, diff.removed, false);
    reasons := AppendNames(reasons, diff.changed, true);
    ghost var named := reasons;
    if diff.added != [] {
      reasons := Appended(reasons, SURFACE, NewNames(|diff.added|));
    }
    forall b ensures Listed(reasons, b) == Reasons(b, fragments, diff) {
      assert Listed(first, b) == FragmentReasons(b, fragments);
      assert Listed(named, b) ==
        Listed(first, b) + Extra(b, diff.removed, false) + Extra(b, diff.changed, true);
      assert Listed(named, b) + [] == Listed(named, b);
    }
    KeysAreDemands(reasons, fragments, diff);
  }

  lemma KeysAreDemands(reasons: map<Bump, seq<Reason>>, fragments: seq<Fragment>, diff: Diff)
    requires NoEmptyList(reasons) && forall b :: Listed(reasons, b) == Reasons(b, fragments, diff)
    ensures forall b :: b in reasons <==> Demands(b, fragments, diff)
  {
    forall b ensures b in reasons <==> Demands(b, fragments, diff) {
      ReasonsIffDemanded(b, fragments, diff);
    }
  }

  method FromFragments(fragments: seq<Fragment>) returns (reasons: map<Bump, seq<Reason>>)
    ensures NoEmptyList(reasons)
    ensures forall b :: Listed(reasons, b) == FragmentReasons(b, fragments)
  {
    reasons := map[];
    for i := 0 to |fragments|
      invariant NoEmptyList(reasons)
      invariant forall b :: Listed(reasons, b) == FragmentReasons(b, fragments[..i])
    {
      var fragment := fragments[i];
      assert fragments[..i + 1][..i] == fragments[..i];
      if fragment.kind in BREAKING_KINDS {
        reasons := Appended(reasons, BREAKING, BreakingFragment(fragment));
      } else if fragment.kind in SURFACE_KINDS {
        reasons := Appended(reasons, SURFACE, SurfaceFragment(fragment));
      } else {
        reasons := Appended(reasons, PATCH, OtherFragment(fragment));
      }
    }
    assert fragments[..|fragments|] == fragments;
  }

  /** What a loop over names adds to a bump's list. */
  function Extra(b: Bump, names: seq<string>, changed: bool): seq<Reason> {
    if b == BREAKING then Named(names, changed) else []
  }

  method AppendNames(before: map<Bump, seq<Reason>>, names: seq<string>, changed: bool)
    returns (reasons: map<Bump, seq<Reason>>)
    requires NoEmptyList(before)
    ensures NoEmptyList(reasons)
    ensures forall b :: Listed(reasons, b) == Listed(before, b) + Extra(b, names, changed)
  {
    reasons := before;
    for i := 0 to |names|
      invariant NoEmptyList(reasons)
      invariant forall b :: Listed(reasons, b) == Listed(before, b) + Extra(b, names[..i], changed)
    {
      ExtraMore(names, i, changed);
      reasons := Appended(reasons, BREAKING, if changed then ChangedShape(names[i]) else Disappeared(names[i]));
    }
    assert names[..|names|] == names;
  }

  lemma ExtraMore(names: seq<string>, i: nat, changed: bool)
    requires i < |names|
    ensures var reason := if changed then ChangedShape(names[i]) else Disappeared(names[i]);
      forall b ::
        Extra(b, names[..i + 1], changed) == Extra(b, names[..i], changed) + if b == BREAKING then [reason] else []
  {
    assert names[..i + 1][..i] == names[..i];
  }

  /** A bump has a reason exactly when something demands it. */
  lemma ReasonsIffDemanded(b: Bump, fragments: seq<Fragment>, diff: Diff)
    ensures Reasons(b, fragments, diff) != [] <==> Demands(b, fragments, diff)
  {
    SomeReason(b, fragments);
  }

  lemma {:induction false} SomeReason(b: Bump, fragments: seq<Fragment>)
    ensures FragmentReasons(b, fragments) != [] <==> exists f :: f in fragments && FragmentBump(f) == b
  {
    if fragments != [] {
      var front, last := fragments[..|fragments| - 1], fragments[|fragments| - 1];
      SomeReason(b, front);
      assert fragments == front + [last];
      assert last in fragments;
    }
  }

  function Bumped(v: Release, bump: Bump): Release {
    if bump == BREAKING && v.major == 0 then Release(0, v.minor + 1, 0)
    else if bump == BREAKING then Release(v.major + 1, 0, 0)
    else if bump == SURFACE then Release(v.major, v.minor + 1, 0)
    else Release(v.major, v.minor, v.patch + 1)
  }

  predicate Unmigrated(f: Fragment) {
    f.kind in BREAKING_KINDS && (f.migration.None? || f.migration.value == "")
  }

  /** What the planner must answer. */
  ghost predicate Planned(
    current: Option<string>, fragments: seq<Fragment>, diff: Diff, r: Result<string, ReleaseError>)
  {
    if exists f :: f in fragments && Unmigrated(f) then
      exists i :: 0 <= i < |fragments| && r == Err(NoMigration(fragments[i])) &&
        Unmigrated(fragments[i]) && forall j :: 0 <= j < i ==> !Unmigrated(fragments[j])
    else match current
      case None => r == Ok(Show(FIRST_RELEASE))
      case Some(v) =>
        match Parts(v)
        case None => r == Err(NoRelease(v))
        case Some(was) => r == Ok(Show(Bumped(was, Largest(fragments, diff))))
  }

  method NextVersion(current: Option<string>, fragments: seq<Fragment>, diff: Diff)
    returns (r: Result<string, ReleaseError>)
    ensures Planned(current, fragments, diff, r)
  {
    for i := 0 to |fragments|
      invariant forall f :: f in fragments[..i] ==> !Unmigrated(f)
    {
      assert fragments[..i + 1] == fragments[..i] + [fragments[i]];
      if Unmigrated(fragments[i]) {
        return Err(NoMigration(fragments[i]));
      }
    }
    assert fragments[..|fragments|] == fragments;
    if current.None? {
      return Ok(Show(FIRST_RELEASE));
    }
    var found := Parts(current.value);
    if found.None? {
      return Err(NoRelease(current.value));
    }
    var was := found.value;
    var reasons := Why(fragments, diff);
    var bump := PATCH;
    if BREAKING in reasons {
      bump := BREAKING;
    } else if SURFACE in reasons {
      bump := SURFACE;
    }
    if bump == BREAKING && was.major == 0 {
      return Ok(Show(Release(0, was.minor + 1, 0)));
    }
    if bump == BREAKING {
      return Ok(Show(Release(was.major + 1, 0, 0)));
    }
    if bump == SURFACE {
      return Ok(Show(Release(was.major, was.minor + 1, 0)));
    }
    return Ok(Show(Release(was.major, was.minor, was.patch + 1)));
  }

  // ---------------------------------------------------------------- what a planned number promises

  /** A larger bump never yields a smaller number, and every bump yields a larger one. */
  lemma BumpedIsMonotone(v: Release, a: Bump, b: Bump)
    requires Rank(a) <= Rank(b)
    ensures Less(v, Bumped(v, a)) && AtMost(Bumped(v, a), Bumped(v, b))
  {
  }

  /** Documenting more, or finding more in the diff, never lowers the number. */
  lemma MorePendingNeverLowers(v: Release, fragments: seq<Fragment>, diff: Diff, fragments': seq<Fragment>, diff': Diff)
    requires forall f :: f in fragments ==> f in fragments'
    requires diff.added != [] ==> diff'.added != []
    requires diff.removed != [] ==> diff'.removed != [] || diff'.changed != []
    requires diff.changed != [] ==> diff'.removed != [] || diff'.changed != []
    ensures AtMost(Bumped(v, Largest(fragments, diff)), Bumped(v, Largest(fragments', diff')))
  {
    forall b | b != PATCH && Demands(b, fragments, diff) ensures Demands(b, fragments', diff') {}
    BumpedIsMonotone(v, Largest(fragments, diff), Largest(fragments', diff'));
  }

  // ---------------------------------------------------------------- in the words of fragments and surfaces

  /** Something pending breaks a consumer. */
  predicate Breaks(fragments: seq<Fragment>, diff: Diff) {
    (exists f :: f in fragments && (f.kind == "breaking" || f.kind == "removed")) ||
    diff.removed != [] || diff.changed != []
  }

  /** Something pending adds surface. */
  predicate Adds(fragments: seq<Fragment>, diff: Diff) {
    (exists f :: f in fragments && (f.kind == "added" || f.kind == "deprecated")) || diff.added != []
  }

  /** Which digit of the printed version moves, and that those after it start again. */
  lemma PlannedDigits(current: string, fragments: seq<Fragment>, diff: Diff, r: Result<string, ReleaseError>)
    requires Planned(Some(current), fragments, diff, r) && r.Ok?
    ensures Parts(current).Some? && Parts(r.value).Some?
    ensures var was, now := Parts(current).value, Parts(r.value).value;
      now ==
        if Breaks(fragments, diff) then
          if was.major == 0 then Release(0, was.minor + 1, 0) else Release(was.major + 1, 0, 0)
        else if Adds(fragments, diff) then Release(was.major, was.minor + 1, 0)
        else Release(was.major, was.minor, was.patch + 1)
  {
    var was := Parts(current).value;
    assert Demands(BREAKING, fragments, diff) <==> Breaks(fragments, diff);
    assert Demands(SURFACE, fragments, diff) <==> Adds(fragments, diff);
    ShowReadsBack(Bumped(was, Largest(fragments, diff)));
  }

  /** What stops a release: a breaking entry without a migration note, or a current version that is none. */
  lemma PlanRefused(current: Option<string>, fragments: seq<Fragment>, diff: Diff, r: Result<string, ReleaseError>)
    requires Planned(current, fragments, diff, r)
    ensures r.Err? && r.error.NoMigration? <==>
      exists f :: f in fragments && (f.kind == "breaking" || f.kind == "removed") && f.migration in {None, Some("")}
    ensures r.Err? && r.error.NoRelease? ==> current == Some(r.error.current) && Parts(r.error.current) == None
    ensures r.Ok? && current == None ==> Parts(r.value) == Some(Release(0, 1, 0))
  {
    forall f
      ensures Unmigrated(f) <==> (f.kind == "breaking" || f.kind == "removed") && f.migration in {None, Some("")}
    {
    }
    ShowReadsBack(FIRST_RELEASE);
  }

  /** The reasons in the plan name exactly what demands the bump they are listed under. */
  lemma ReasonsSay(b: Bump, fragments: seq<Fragment>, diff: Diff, p: Reason)
    ensures p in Reasons(b, fragments, diff) <==>
      match p
      case BreakingFragment(f) => b == BREAKING && f in fragments && (f.kind == "breaking" || f.kind == "removed")
      case SurfaceFragment(f) => b == SURFACE && f in fragments && (f.kind == "added" || f.kind == "deprecated")
      case OtherFragment(f) => b == PATCH && f in fragments &&
        f.kind != "breaking" && f.kind != "removed" && f.kind != "added" && f.kind != "deprecated"
      case Disappeared(n) => b == BREAKING && n in diff.removed
      case ChangedShape(n) => b == BREAKING && n in diff.changed
      case NewNames(count) => b == SURFACE && diff.added != [] && count == |diff.added|
  {
    FragmentReasonsSay(b, fragments, p);
    NamedSay(diff.removed, false, p);
    NamedSay(diff.changed, true, p);
  }

  lemma {:induction false} FragmentReasonsSay(b: Bump, fragments: seq<Fragment>, p: Reason)
    ensures p in FragmentReasons(b, fragments) <==>
      exists f :: f in fragments && FragmentBump(f) == b && p == FragmentReason(f)
  {
    if fragments != [] {
      var front, last := fragments[..|fragments| - 1], fragments[|fragments| - 1];
      assert fragments == front + [last];
      FragmentReasonsSay(b, front, p);
    }
  }

  lemma {:induction false} NamedSay(names: seq<string>, changed: bool, p: Reason)
    ensures p in Named(names, changed) <==>
      if changed then p.ChangedShape? && p.name in names else p.Disappeared? && p.name in names
  {
    if names != [] {
      assert names == names[..|names| - 1] + [names[|names| - 1]];
      NamedSay(names[..|names| - 1], changed, p);
    }
  }

  /** The diff between two snapshots, list by list. */
  lemma DiffHolds(baseline: map<string, string>, current: map<string, string>, n: string)
    ensures var d := SurfaceDiff(baseline, current);
      (n in d.added <==> n !in baseline && n in current) && (n in d.removed <==> n in baseline && n !in current) &&
      (n in d.changed <==> n in baseline && n in current && baseline[n] != current[n]) &&
      Ordering.Ascending(d.added) && Ordering.Ascending(d.removed) && Ordering.Ascending(d.changed)
  {
  }
}
