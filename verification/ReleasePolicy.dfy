/**
 The planner and the gate are two implementations of one versioning policy. Here they are compared
 release by release, and over whole runs of releases.
 */
module ReleasePolicy {
  import opened Wrappers
  import Ordering
  import Text
  import opened ReleaseNumbers
  import opened Surface
  import Planner
  import Gate
  import opened Deprecations

  type Names = map<string, string>

  function Plan(was: Release, fragments: seq<Planner.Fragment>, baseline: Names, current: Names): Release {
    Planner.Bumped(was, Planner.Largest(fragments, Planner.SurfaceDiff(baseline, current)))
  }

  /** What the gate needs a release to be, from the two surfaces alone. */
  function Required(baseline: Names, current: Names): Planner.Bump {
    if Gate.AnyBreaking(baseline, current) then Planner.BREAKING
    else if Gate.AnyAdded(baseline, current) then Planner.SURFACE
    else Planner.PATCH
  }

  lemma DiffSeesEverything(baseline: Names, current: Names)
    ensures var d := Planner.SurfaceDiff(baseline, current);
      (d.removed != [] <==> Gate.Removed(baseline, current) != {}) &&
      (d.changed != [] <==> Gate.Changed(baseline, current) != {}) &&
      (d.added != [] <==> current.Keys - baseline.Keys != {})
  {
    Ordering.SortedEmpty(current.Keys - baseline.Keys);
    Ordering.SortedEmpty(baseline.Keys - current.Keys);
    Ordering.SortedEmpty(set k | k in baseline && k in current && baseline[k] != current[k]);
  }

  /** The planner never plans less than the gate needs. */
  lemma PlannedCoversRequired(fragments: seq<Planner.Fragment>, baseline: Names, current: Names)
    ensures Planner.Rank(Required(baseline, current)) <=
      Planner.Rank(Planner.Largest(fragments, Planner.SurfaceDiff(baseline, current)))
  {
    DiffSeesEverything(baseline, current);
    if k :| k in Gate.Reshaped(baseline, current) + Gate.Grew(baseline, current) {
      assert k in Gate.Changed(baseline, current);
    }
  }

  /** The number the planner derives trips none of the gate's version rules. */
  lemma PlannerSatisfiesGate(was: Release, fragments: seq<Planner.Fragment>, baseline: Names, current: Names)
    ensures Less(was, Plan(was, fragments, baseline, current))
    ensures Gate.VersionProblems(baseline, current, was, Plan(was, fragments, baseline, current)) == []
  {
    PlannedCoversRequired(fragments, baseline, current);
  }

  /** From version text to verdict: after a planned release, only deprecation records are left to fix. */
  lemma PlannedReleaseNeedsOnlyRecords(
    current: string, fragments: seq<Planner.Fragment>, before: Names, after: Names, records: seq<Record>,
    r: Result<string, Planner.ReleaseError>)
    requires Planner.Planned(Some(current), fragments, Planner.SurfaceDiff(before, after), r) && r.Ok?
    ensures Parts(current).Some? && Parts(r.value).Some?
    ensures var was, now := Parts(current).value, Parts(r.value).value;
      now == Plan(was, fragments, before, after) &&
      Gate.Verdict(before, after, records, was, now) ==
        Gate.RecordProblems(Gate.Scheduled(records), now, Gate.BreakingNames(before, after))
  {
    var was := Parts(current).value;
    var now := Plan(was, fragments, before, after);
    ShowReadsBack(now);
    PlannerSatisfiesGate(was, fragments, before, after);
    var more := Gate.RecordProblems(Gate.Scheduled(records), now, Gate.BreakingNames(before, after));
    if more.Ok? {
      assert [] + more.value == more.value;
    }
  }

  // ---------------------------------------------------------------- minimality

  predicate Acceptable(was: Release, baseline: Names, current: Names, now: Release) {
    Less(was, now) && Gate.VersionProblems(baseline, current, was, now) == []
  }

  ghost predicate IsLeast(was: Release, baseline: Names, current: Names, now: Release) {
    Acceptable(was, baseline, current, now) &&
    forall other :: Acceptable(was, baseline, current, other) ==> AtMost(now, other)
  }

  /** The least acceptable number is the one the required bump gives. */
  lemma RequiredIsLeast(was: Release, baseline: Names, current: Names)
    ensures IsLeast(was, baseline, current, Planner.Bumped(was, Required(baseline, current)))
  {
    forall other | Acceptable(was, baseline, current, other)
      ensures AtMost(Planner.Bumped(was, Required(baseline, current)), other)
    {
      var breaking, added := Gate.AnyBreaking(baseline, current), Gate.AnyAdded(baseline, current);
      assert Gate.NumberProblems(breaking, added, was, other) == [];
      assert breaking ==> Gate.BreakingRelease(was, other);
      assert added ==> other.major > was.major || other.minor > was.minor;
    }
  }

  /**
   The planner counts every changed name as breaking and takes the fragments at their word, so it
   is minimal exactly when that adds nothing to what the gate requires, or when the difference is
   between the two bumps that move the same digit before 1.0.
   */
  lemma PlannerIsMinimal(was: Release, fragments: seq<Planner.Fragment>, baseline: Names, current: Names)
    ensures var planned, required :=
        Planner.Largest(fragments, Planner.SurfaceDiff(baseline, current)), Required(baseline, current);
      IsLeast(was, baseline, current, Plan(was, fragments, baseline, current)) <==>
      planned == required || (was.major == 0 && required != Planner.PATCH)
  {
    PlannedCoversRequired(fragments, baseline, current);
    RequiredIsLeast(was, baseline, current);
    var now, least := Plan(was, fragments, baseline, current), Planner.Bumped(was, Required(baseline, current));
    PlannerSatisfiesGate(was, fragments, baseline, current);
    if IsLeast(was, baseline, current, now) {
      assert AtMost(now, least) && AtMost(least, now);
    }
  }

  /** When nothing broke but some class grew, a major is planned although a minor is the least the gate takes. */
  lemma GrowthIsOverplanned(was: Release, baseline: Names, current: Names)
    requires was.major >= 1 && !Gate.AnyBreaking(baseline, current) && Gate.Grew(baseline, current) != {}
    ensures Plan(was, [], baseline, current) == Release(was.major + 1, 0, 0)
    ensures IsLeast(was, baseline, current, Release(was.major, was.minor + 1, 0))
  {
    GrowthPlansBreaking(baseline, current);
    GrowthNeedsMinor(was, baseline, current);
    RequiredIsLeast(was, baseline, current);
  }

  lemma GrowthNeedsMinor(was: Release, baseline: Names, current: Names)
    requires !Gate.AnyBreaking(baseline, current) && Gate.Grew(baseline, current) != {}
    ensures Planner.Bumped(was, Required(baseline, current)) == Release(was.major, was.minor + 1, 0)
  {
  }

  lemma GrowthPlansBreaking(baseline: Names, current: Names)
    requires Gate.Grew(baseline, current) != {}
    ensures Planner.Largest([], Planner.SurfaceDiff(baseline, current)) == Planner.BREAKING
  {
    var k :| k in Gate.Grew(baseline, current);
    assert k in Gate.Changed(baseline, current);
    DiffSeesEverything(baseline, current);
  }

  const SMALL := Class("C", ["object"], ["run"])
  const LARGE := Class("C", ["object"], ["run", "stop"])

  lemma LargeHeader()
    ensures !Text.Contains(Header(LARGE), OPEN) && !Text.Contains(Header(LARGE), PROTOCOL)
  {
    Text.LacksAt(Header(LARGE), OPEN, 1);
    Text.LacksAt(Header(LARGE), PROTOCOL, 1);
  }

  lemma LargeIsSplittable()
    ensures Splittable(LARGE)
  {
    LargeHeader();
    Text.LacksAt(LARGE.members[0], SEP, 0);
    Text.LacksAt(LARGE.members[1], SEP, 0);
  }

  lemma SmallGrows()
    ensures OnlyGrew(Describe(SMALL), Describe(LARGE)) && Describe(SMALL) != Describe(LARGE)
  {
    LargeHeader();
    LargeIsSplittable();
    assert Header(SMALL) == Header(LARGE) && SMALL.members[0] == LARGE.members[0];
    assert Splittable(SMALL);
    OnlyGrewOnClasses(SMALL, LARGE);
    MembersUndoesDescribe(SMALL);
    MembersUndoesDescribe(LARGE);
    assert |SMALL.members| != |LARGE.members|;
  }

  lemma OneNameGrew(baseline: Names, current: Names, name: string)
    requires baseline.Keys == {name} && current.Keys == {name}
    requires baseline[name] != current[name] && OnlyGrew(baseline[name], current[name])
    ensures !Gate.AnyBreaking(baseline, current) && Gate.Grew(baseline, current) != {}
  {
    assert name in Gate.Grew(baseline, current);
  }

  /** `class C(object)` gains a second method after 1.0.0: 2.0.0 is planned, 1.1.0 would do. */
  lemma GrownClassPlannedAsMajor()
    ensures var before, after: Names := map["m.C" := Describe(SMALL)], map["m.C" := Describe(LARGE)];
      Plan(Release(1, 0, 0), [], before, after) == Release(2, 0, 0) &&
      IsLeast(Release(1, 0, 0), before, after, Release(1, 1, 0))
  {
    SmallGrows();
    var before, after: Names := map["m.C" := Describe(SMALL)], map["m.C" := Describe(LARGE)];
    OneNameGrew(before, after, "m.C");
    GrowthIsOverplanned(Release(1, 0, 0), before, after);
  }

  /** Nothing merely grew, and no fragment claims more than the snapshot shows: then nothing is added. */
  lemma NoExcessMeansMinimal(was: Release, fragments: seq<Planner.Fragment>, baseline: Names, current: Names)
    requires Gate.Grew(baseline, current) == {}
    requires forall f :: f in fragments ==>
      Planner.Rank(Planner.FragmentBump(f)) <= Planner.Rank(Required(baseline, current))
    ensures IsLeast(was, baseline, current, Plan(was, fragments, baseline, current))
  {
    DiffSeesEverything(baseline, current);
    PlannerIsMinimal(was, fragments, baseline, current);
    if k :| k in Gate.Changed(baseline, current) {
      assert k in Gate.Reshaped(baseline, current) || k in Gate.Grew(baseline, current);
    }
  }

  // ---------------------------------------------------------------- whole runs

  datatype Published = Published(version: Release, surface: Names, records: seq<Record>)

  /** Each release got past the gate's version rules, and no release went back in number. */
  predicate Gated(run: seq<Published>) {
    forall i :: 0 <= i < |run| - 1 ==>
      AtMost(run[i].version, run[i + 1].version) &&
      Gate.VersionProblems(run[i].surface, run[i + 1].surface, run[i].version, run[i + 1].version) == []
  }

  /** The digits a consumer pins: the minor before 1.0, the major after it. */
  function Channel(v: Release): (nat, nat) {
    if v.major == 0 then (0, v.minor) else (v.major, 0)
  }

  /**
   Going up, a release is a breaking one exactly when it is the first of another channel. Going down,
   one from before 1.0 can still pass for breaking, where its minor is the higher.
   */
  lemma BreakingOpensChannel(was: Release, now: Release)
    ensures Less(was, now) ==>
      (Gate.BreakingRelease(was, now) <==>
        Channel(was) != Channel(now) && forall v :: Channel(v) == Channel(now) ==> AtMost(now, v))
    ensures !Less(was, now) ==>
      (Gate.BreakingRelease(was, now) <==>
        now.major == 0 && was.major >= 1 && now.minor > was.minor && now.patch == 0)
  {
    var first := if now.major == 0 then Release(0, now.minor, 0) else Release(now.major, 0, 0);
    assert Channel(first) == Channel(now);
  }

  /** The name is still there, unchanged or as a class that only gained members. */
  predicate Kept(before: Names, after: Names, name: string) {
    name in before && name in after && (before[name] == after[name] || OnlyGrew(before[name], after[name]))
  }

  lemma KeptIsTransitive(a: Names, b: Names, c: Names, name: string)
    requires Kept(a, b, name) && Kept(b, c, name)
    ensures Kept(a, c, name)
  {
    if a[name] != b[name] && b[name] != c[name] {
      OnlyGrewIsTransitive(a[name], b[name], c[name]);
    }
  }

  lemma BreakingIsNotKept(a: Names, b: Names, name: string)
    requires name in a
    ensures !Kept(a, b, name) <==> name in Gate.Removed(a, b) + Gate.Reshaped(a, b)
  {
  }

  lemma {:induction false} RunRises(run: seq<Published>, i: nat, j: nat)
    requires Gated(run) && i <= j < |run|
    ensures AtMost(run[i].version, run[j].version)
    decreases j - i
  {
    if i < j {
      RunRises(run, i, j - 1);
      assert AtMost(run[j - 1].version, run[j - 1 + 1].version);
    }
  }

  /** The gate had nothing at all to say about releasing `b` after `a`. */
  predicate CleanStep(a: Published, b: Published) {
    Gate.Verdict(a.surface, b.surface, a.records, a.version, b.version) == Ok([])
  }

  predicate CleanAt(run: seq<Published>, i: nat)
    requires i + 1 < |run|
  {
    CleanStep(run[i], run[i + 1])
  }

  predicate FullyChecked(run: seq<Published>) {
    forall i :: 0 <= i < |run| - 1 ==> CleanAt(run, i)
  }

  /** A promise, published with `run[k]`, that `name` may go by the next release. */
  predicate Promised(run: seq<Published>, k: nat, name: string)
    requires k + 1 < |run|
  {
    var scheduled := Gate.Scheduled(run[k].records);
    name in scheduled && Parts(scheduled[name].removal).Some? &&
    AtMost(Parts(scheduled[name].removal).value, run[k + 1].version) &&
    Less(run[k].version, run[k + 1].version) && Gate.BreakingRelease(run[k].version, run[k + 1].version)
  }

  lemma {:induction false} NoProblemMeansDue(
    scheduled: map<string, Record>, now: Release, names: seq<string>, name: string)
    requires Gate.RecordProblems(scheduled, now, names) == Ok([]) && name in names
    ensures name in scheduled && Parts(scheduled[name].removal).Some? &&
      AtMost(Parts(scheduled[name].removal).value, now)
  {
    var front, last := names[..|names| - 1], names[|names| - 1];
    assert names == front + [last];
    var before := Gate.RecordProblems(scheduled, now, front);
    var more := Gate.RecordProblem(scheduled, now, last);
    assert before.value + more.value == [];
    if name != last {
      NoProblemMeansDue(scheduled, now, front, name);
    }
  }

  lemma StepIsPromised(run: seq<Published>, k: nat, name: string)
    requires FullyChecked(run) && k + 1 < |run|
    requires name in run[k].surface && !Kept(run[k].surface, run[k + 1].surface, name)
    ensures Promised(run, k, name)
  {
    var a, b := run[k], run[k + 1];
    var names := Gate.BreakingNames(a.surface, b.surface);
    BreakingIsNotKept(a.surface, b.surface, name);
    var more := Gate.RecordProblems(Gate.Scheduled(a.records), b.version, names);
    assert CleanAt(run, k);
    assert Gate.VersionProblems(a.surface, b.surface, a.version, b.version) + more.value == [];
    assert Gate.AnyBreaking(a.surface, b.surface);
    assert Gate.VersionProblems(a.surface, b.surface, a.version, b.version) == [];
    NoProblemMeansDue(Gate.Scheduled(a.records), b.version, names, name);
  }

  /** A name that is not kept from `i` to `j` is lost at some single step, having been kept up to it. */
  lemma {:induction false} FindLoss(run: seq<Published>, i: nat, j: nat, name: string) returns (k: nat)
    requires i <= j < |run| && name in run[i].surface && !Kept(run[i].surface, run[j].surface, name)
    ensures i <= k < j && Kept(run[i].surface, run[k].surface, name) && !Kept(run[k].surface, run[k + 1].surface, name)
    decreases j - i
  {
    if Kept(run[i].surface, run[j - 1].surface, name) {
      k := j - 1;
      if Kept(run[j - 1].surface, run[j].surface, name) {
        KeptIsTransitive(run[i].surface, run[j - 1].surface, run[j].surface, name);
        assert false;
      }
    } else {
      k := FindLoss(run, i, j - 1, name);
    }
  }

  // ---------------------------------------------------------------- the pinned consumer

  /** The release after `k` got past the gate's version rules. */
  predicate NumbersPass(run: seq<Published>, k: nat)
    requires k + 1 < |run|
  {
    Gate.VersionProblems(run[k].surface, run[k + 1].surface, run[k].version, run[k + 1].version) == []
  }

  lemma CleanPassesNumbers(run: seq<Published>, k: nat)
    requires k + 1 < |run| && CleanAt(run, k)
    ensures NumbersPass(run, k)
  {
    var a, b := run[k], run[k + 1];
    var more := Gate.RecordProblems(
      Gate.Scheduled(a.records), b.version, Gate.BreakingNames(a.surface, b.surface));
    assert Gate.VersionProblems(a.surface, b.surface, a.version, b.version) + more.value == [];
  }

  /** A name is lost only in a release that rises and may break. */
  lemma LossRises(run: seq<Published>, k: nat, name: string)
    requires k + 1 < |run| && NumbersPass(run, k)
    requires name in run[k].surface && !Kept(run[k].surface, run[k + 1].surface, name)
    ensures Rises(run[k].version, run[k + 1].version)
  {
    BreakingIsNotKept(run[k].surface, run[k + 1].surface, name);
    assert Gate.AnyBreaking(run[k].surface, run[k + 1].surface);
  }

  /** A higher number that the gate takes for a breaking release. */
  predicate Rises(was: Release, now: Release) {
    Less(was, now) && Gate.BreakingRelease(was, now)
  }

  function VersionsOf(run: seq<Published>): (v: seq<Release>)
    ensures |v| == |run| && forall i :: 0 <= i < |v| ==> v[i] == run[i].version
  {
    seq(|run|, i requires 0 <= i < |run| => run[i].version)
  }

  /** Between two releases of one channel, the release after `k` is a breaking one. */
  predicate BreaksInside(v: seq<Release>, i: nat, k: nat, j: nat) {
    i <= k < j < |v| && Channel(v[i]) == Channel(v[j]) && Rises(v[k], v[k + 1])
  }

  /** Whatever release of a channel a consumer starts from, every later one of it still has the name. */
  predicate KeepsPinned(run: seq<Published>, i: nat, j: nat, name: string) {
    i <= j < |run| && Channel(run[i].version) == Channel(run[j].version) && name in run[i].surface ==>
      Kept(run[i].surface, run[j].surface, name)
  }

  lemma KeptUnlessBrokenInside(run: seq<Published>, i: nat, j: nat, name: string)
    requires forall k :: 0 <= k < |run| - 1 ==> NumbersPass(run, k)
    requires forall k :: !BreaksInside(VersionsOf(run), i, k, j)
    ensures KeepsPinned(run, i, j, name)
  {
    if !KeepsPinned(run, i, j, name) {
      var k := FindLoss(run, i, j, name);
      LossRises(run, k, name);
      assert BreaksInside(VersionsOf(run), i, k, j);
      assert false;
    }
  }

  /** One name, there up to `k` and then gone, on record all along as due with the release that drops it. */
  function DroppingRun(v: seq<Release>, k: nat, surface: Names, record: Record): (run: seq<Published>)
    ensures |run| == |v|
    ensures forall i :: 0 <= i < |v| ==>
      run[i] == (if i <= k then Published(v[i], surface, [record]) else Published(v[i], map[], []))
  {
    seq(|v|, i requires 0 <= i < |v| =>
      if i <= k then Published(v[i], surface, [record]) else Published(v[i], map[], []))
  }

  lemma DroppingRunIsClean(v: seq<Release>, k: nat, surface: Names, record: Record, i: nat)
    requires k + 1 < |v| && Rises(v[k], v[k + 1]) && surface.Keys == {record.name}
    requires Parts(record.removal) == Some(v[k + 1]) && i + 1 < |v|
    ensures CleanAt(DroppingRun(v, k, surface, record), i)
  {
    if i < k {
      NothingChangedNothingChecked(surface, [record], v[i], v[i + 1]);
    } else if i == k {
      OneRemovalVerdict(surface, record.name, record, v[k], v[k + 1]);
    } else {
      NothingChangedNothingChecked(map[], [], v[i], v[i + 1]);
    }
  }

  lemma BreakInsideLosesName(v: seq<Release>, i: nat, k: nat, j: nat) returns (run: seq<Published>)
    requires BreaksInside(v, i, k, j)
    ensures FullyChecked(run) && VersionsOf(run) == v && !KeepsPinned(run, i, j, "m.f")
  {
    var record := Record("m.f", "", Show(v[k + 1]), "", None);
    var surface: Names := map["m.f" := "def f()"];
    ShowReadsBack(v[k + 1]);
    run := DroppingRun(v, k, surface, record);
    forall l | 0 <= l < |run| - 1 ensures CleanAt(run, l) {
      DroppingRunIsClean(v, k, surface, record, l);
    }
  }

  /**
   The promise of docs/versioning.md to a consumer who pins a channel, for any sequence of tags: over
   every run with those versions and no problem reported it is kept, exactly when no release between
   two of one channel is a breaking one. Only going back in number and up again makes one.
   */
  lemma PinIsSafeExactly(v: seq<Release>)
    ensures (forall run, i, j, name :: FullyChecked(run) && VersionsOf(run) == v ==> KeepsPinned(run, i, j, name)) <==>
      !exists i, k, j :: BreaksInside(v, i, k, j)
  {
    if !exists i, k, j :: BreaksInside(v, i, k, j) {
      forall run, i, j, name | FullyChecked(run) && VersionsOf(run) == v ensures KeepsPinned(run, i, j, name) {
        forall k | 0 <= k < |run| - 1 ensures NumbersPass(run, k) {
          assert CleanAt(run, k);
          CleanPassesNumbers(run, k);
        }
        KeptUnlessBrokenInside(run, i, j, name);
      }
    }
    if i, k, j :| BreaksInside(v, i, k, j) {
      var run := BreakInsideLosesName(v, i, k, j);
    }
  }

  /** So a run that never goes back in number keeps the promise. */
  lemma PinnedConsumerKeepsSurface(run: seq<Published>, i: nat, j: nat, name: string)
    requires Gated(run) && i <= j < |run| && Channel(run[i].version) == Channel(run[j].version)
    requires name in run[i].surface
    ensures Kept(run[i].surface, run[j].surface, name)
  {
    forall k | 0 <= k < |run| - 1 ensures NumbersPass(run, k) {
      assert AtMost(run[k].version, run[k + 1].version);
    }
    forall k: nat ensures !BreaksInside(VersionsOf(run), i, k, j) {
      if i <= k < j {
        RunRises(run, i, k);
        RunRises(run, k + 1, j);
        RisingStaysInside(run[i].version, run[k].version, run[k + 1].version, run[j].version);
      }
    }
    KeptUnlessBrokenInside(run, i, j, name);
  }

  lemma RisingStaysInside(a: Release, b: Release, c: Release, d: Release)
    requires AtMost(a, b) && AtMost(c, d) && Channel(a) == Channel(d)
    ensures !Rises(b, c)
  {
  }

  /** No surprise over a whole run: a name that is not kept was promised for removal, and the promise had come due. */
  lemma LostNameWasPromised(run: seq<Published>, i: nat, j: nat, name: string)
    requires FullyChecked(run) && i <= j < |run| && name in run[i].surface
    requires !Kept(run[i].surface, run[j].surface, name)
    ensures exists k :: i <= k < j && Promised(run, k, name)
  {
    var k := FindLoss(run, i, j, name);
    StepIsPromised(run, k, name);
  }

  /** A release that changes no name may carry any number, lower ones included. */
  lemma NothingChangedNothingChecked(surface: Names, records: seq<Record>, was: Release, now: Release)
    ensures Gate.Verdict(surface, surface, records, was, now) == Ok([])
  {
    assert Gate.Changed(surface, surface) == {} && Gate.Removed(surface, surface) == {};
    Gate.NamesOf(surface, surface);
  }

  /** The gate makes the number go up exactly when the surface differs at all. */
  lemma GateForcesIncrease(baseline: Names, current: Names)
    ensures (forall was, now :: Gate.VersionProblems(baseline, current, was, now) == [] ==> Less(was, now)) <==>
      baseline != current
  {
    Gate.AnyChangeIsSeen(baseline, current);
    if baseline != current {
      forall was, now | Gate.VersionProblems(baseline, current, was, now) == [] ensures Less(was, now) {
        assert !AtMost(now, was);
      }
    } else {
      var any := Planner.FIRST_RELEASE;
      assert Gate.VersionProblems(baseline, current, any, any) == [] && !Less(any, any);
    }
  }

  /**
   A tag's suffix is dropped before numbers are compared, so a release is refused after its own
   candidate, as already released, exactly when the surface has changed since.
   */
  lemma CandidateBlocksItsRelease(baseline: Names, current: Names, v: Release, suffix: string)
    requires suffix != "" ==> !Text.IsDigit(suffix[0])
    ensures Parts(Show(v) + suffix) == Some(v) && Parts(Show(v)) == Some(v)
    ensures Gate.MustIncrease in Gate.VersionProblems(baseline, current, v, v) <==> baseline != current
  {
    PartsShow(v, suffix);
    ShowReadsBack(v);
    Gate.AnyChangeIsSeen(baseline, current);
  }

  lemma OneRemovalVerdict(surface: Names, name: string, record: Record, was: Release, now: Release)
    requires surface.Keys == {name} && record.name == name
    requires Rises(was, now) && Parts(record.removal).Some? && AtMost(Parts(record.removal).value, now)
    ensures Gate.Verdict(surface, map[], [record], was, now) == Ok([])
  {
    var empty: Names := map[];
    assert Gate.Removed(surface, empty) == {name} && Gate.Changed(surface, empty) == {};
    Gate.NamesOf(surface, empty);
    var names := Gate.BreakingNames(surface, empty);
    forall n | n in names ensures n == name {}
    var scheduled := Gate.Scheduled([record]);
    assert scheduled[name] == record;
    NoRecordProblems(scheduled, now, names);
  }

  lemma {:induction false} NoRecordProblems(scheduled: map<string, Record>, now: Release, names: seq<string>)
    requires forall n :: n in names ==> Gate.RecordProblem(scheduled, now, n) == Ok([])
    ensures Gate.RecordProblems(scheduled, now, names) == Ok([])
  {
    if names != [] {
      NoRecordProblems(scheduled, now, names[..|names| - 1]);
      assert names[|names| - 1] in names;
      var none: seq<Gate.Problem> := [];
      assert none + none == none;
    }
  }

  /** The gate alone does not stop a number from going back when nothing changed, and then a channel can be reused. */
  lemma GateLetsNumbersGoBack(surface: Names, name: string, record: Record, a: Published, b: Published, c: Published)
    requires surface.Keys == {name} && record.name == name && record.removal == Show(Release(0, 2, 0))
    requires a == Published(Release(0, 2, 0), surface, [record])
    requires b == Published(Release(0, 1, 0), surface, [record])
    requires c == Published(Release(0, 2, 0), map[], [])
    ensures CleanStep(a, b) && CleanStep(b, c) && a.version == c.version
    ensures name in a.surface && name !in c.surface
  {
    NothingChangedNothingChecked(surface, [record], a.version, b.version);
    ShowReadsBack(Release(0, 2, 0));
    OneRemovalVerdict(surface, name, record, b.version, c.version);
  }

  // ---------------------------------------------------------------- runs of planned releases

  /** Each version is the one the planner derives from the surface it follows and its pending fragments. */
  predicate PlannedRun(run: seq<Published>, pending: seq<seq<Planner.Fragment>>) {
    |pending| == |run| &&
    forall i :: 0 <= i < |run| - 1 ==>
      run[i + 1].version == Plan(run[i].version, pending[i], run[i].surface, run[i + 1].surface)
  }

  lemma PlannedRunIsGated(run: seq<Published>, pending: seq<seq<Planner.Fragment>>)
    requires PlannedRun(run, pending)
    ensures Gated(run)
  {
    forall i | 0 <= i < |run| - 1
      ensures AtMost(run[i].version, run[i + 1].version)
      ensures Gate.VersionProblems(run[i].surface, run[i + 1].surface, run[i].version, run[i + 1].version) == []
    {
      PlannerSatisfiesGate(run[i].version, pending[i], run[i].surface, run[i + 1].surface);
    }
  }

  /** Versions strictly increase, so none is ever used twice. */
  lemma {:induction false} PlannedVersionsIncrease(
    run: seq<Published>, pending: seq<seq<Planner.Fragment>>, i: nat, j: nat)
    requires PlannedRun(run, pending) && i < j < |run|
    ensures Less(run[i].version, run[j].version)
    decreases j - i
  {
    PlannerSatisfiesGate(run[j - 1].version, pending[j - 1], run[j - 1].surface, run[j - 1 + 1].surface);
    if i < j - 1 {
      PlannedVersionsIncrease(run, pending, i, j - 1);
    }
  }

  /** From the first release on, nothing derived ever leaves the alpha channel. */
  lemma {:induction false} DerivedMajorStaysZero(run: seq<Published>, pending: seq<seq<Planner.Fragment>>, i: nat)
    requires PlannedRun(run, pending) && i < |run| && run[0].version == Planner.FIRST_RELEASE
    ensures run[i].version.major == 0
  {
    if i > 0 {
      DerivedMajorStaysZero(run, pending, i - 1);
      var k := i - 1;
      assert run[k + 1].version == Plan(run[k].version, pending[k], run[k].surface, run[k + 1].surface);
    }
  }

  /** Did something between release `k` and the next demand a breaking bump? */
  predicate BreakingStep(run: seq<Published>, pending: seq<seq<Planner.Fragment>>, k: nat)
    requires PlannedRun(run, pending) && k + 1 < |run|
  {
    Planner.Demands(Planner.BREAKING, pending[k], Planner.SurfaceDiff(run[k].surface, run[k + 1].surface))
  }

  lemma MajorStep(run: seq<Published>, pending: seq<seq<Planner.Fragment>>, k: nat)
    requires PlannedRun(run, pending) && k + 1 < |run| && run[k].version.major >= 1
    ensures run[k + 1].version.major == run[k].version.major + if BreakingStep(run, pending, k) then 1 else 0
  {
    assert run[k + 1].version == Plan(run[k].version, pending[k], run[k].surface, run[k + 1].surface);
  }

  /** From 1.0 on, the major moves only for a breaking reason somewhere in between, and then it does move. */
  lemma {:induction false} MajorMovesOnlyOnBreaking(
    run: seq<Published>, pending: seq<seq<Planner.Fragment>>, i: nat, j: nat)
    requires PlannedRun(run, pending) && i <= j < |run| && run[i].version.major >= 1
    ensures run[i].version.major <= run[j].version.major
    ensures run[i].version.major < run[j].version.major <==> exists k :: i <= k < j && BreakingStep(run, pending, k)
    decreases j - i
  {
    if i < j {
      MajorMovesOnlyOnBreaking(run, pending, i, j - 1);
      MajorStep(run, pending, j - 1);
    }
  }

  // ---------------------------------------------------------------- deprecation dates

  /**
   A removal date the decorator accepts is one the gate lets the removal ship on, whatever the
   release before it, exactly when the announcement was made after 1.0 or the date is before it.
   Before 1.0 the decorator also accepts `1.7.0`, which the gate never takes for a breaking release.
   */
  lemma WindowMeetsGate(announced: Release, scheduled: Release, was: Release)
    requires CheckWindow(announced, scheduled) == Pass
    requires AtMost(announced, was) && Less(was, scheduled)
    ensures Gate.BreakingRelease(was, scheduled) <==> announced.major >= 1 || scheduled.major == 0
  {
  }

  /** Announced in 0.1.0, the removal in 1.7.0 is accepted, and no release before it makes 1.7.0 a breaking one. */
  lemma LateMinorPassesWindow(was: Release)
    ensures CheckWindow(Release(0, 1, 0), Release(1, 7, 0)) == Pass
    ensures !Gate.BreakingRelease(was, Release(1, 7, 0))
  {
  }

  /**
   A date on which the gate would let the removal ship is accepted exactly when it was announced
   after 1.0, or lies before 1.0 and two minors on: no major release is ever accepted from before 1.0.
   */
  lemma GateMeetsWindow(announced: Release, scheduled: Release, was: Release)
    requires AtMost(announced, was) && Less(was, scheduled) && Gate.BreakingRelease(was, scheduled)
    ensures CheckWindow(announced, scheduled) == Pass <==>
      announced.major >= 1 || (scheduled.major == 0 && scheduled.minor >= announced.minor + 2)
  {
  }

  /** So from anywhere before 1.0 the first major, which the gate takes, is refused as too little notice. */
  lemma FirstMajorIsRefused(announced: Release, was: Release)
    requires announced.major == 0 && was.major == 0
    ensures CheckWindow(announced, Release(1, 0, 0)) == Fail(TooShort)
    ensures Gate.BreakingRelease(was, Release(1, 0, 0))
  {
  }

  // ---------------------------------------------------------------- notice

  /** The record was accepted by the decorator, and both its dates are releases. */
  predicate Accepted(r: Record) {
    Parts(r.since).Some? && Parts(r.removal).Some? && CheckWindow(Parts(r.since).value, Parts(r.removal).value) == Pass
  }

  /** Two minor releases on before 1.0, the next major after it. */
  predicate Notice(announced: Release, gone: Release) {
    if announced.major == 0 then gone.major > 0 || gone.minor >= announced.minor + 2 else gone.major > announced.major
  }

  /** Some release up to `k` announced the removal, and `gone` is two minors or a major after it. */
  ghost predicate NoticeGiven(run: seq<Published>, k: nat, name: string, gone: Release)
    requires k < |run|
  {
    exists m, r :: 0 <= m <= k && r in run[m].records && r.name == name && Notice(run[m].version, gone)
  }

  lemma {:induction false} ScheduledIsRecorded(records: seq<Record>, name: string)
    requires name in Gate.Scheduled(records)
    ensures Gate.Scheduled(records)[name] in records && Gate.Scheduled(records)[name].name == name
  {
    var front, last := records[..|records| - 1], records[|records| - 1];
    assert records == front + [last];
    if last.name != name {
      ScheduledIsRecorded(front, name);
    }
  }

  /**
   When a record is on a page, the removal date on it tells whether there will be notice, whatever
   the date it claims to be from: every breaking release that it may be removed in leaves notice,
   exactly when the page is of a release after 1.0 or the removal date itself leaves it.
   */
  lemma PublicationIsNotice(v: Release, since: Release, removal: Release)
    requires CheckWindow(since, removal) == Pass
    ensures (forall was, gone :: AtMost(v, was) && Rises(was, gone) && AtMost(removal, gone) ==> Notice(v, gone)) <==>
      v.major >= 1 || Notice(v, removal)
  {
    if v.major == 0 && !Notice(v, removal) {
      assert AtMost(v, v) && Rises(v, Release(0, v.minor + 1, 0));
    }
  }

  /** The release `m` publishes the record, early enough for its removal date. */
  predicate Ahead(run: seq<Published>, m: nat, k: nat, r: Record)
    requires m <= k < |run| && Parts(r.removal).Some?
  {
    r in run[m].records &&
    (Notice(run[m].version, Parts(r.removal).value) ||
     (run[m].version.major >= 1 && AtMost(run[m].version, run[k].version)))
  }

  predicate SeenAhead(run: seq<Published>, k: nat, r: Record)
    requires k < |run|
  {
    Parts(r.removal).Some? && exists m :: 0 <= m <= k && Ahead(run, m, k, r)
  }

  /** Every record on any page has a removal date, and was published early enough for it. */
  ghost predicate PublishedAhead(run: seq<Published>) {
    forall k, r :: 0 <= k < |run| && r in run[k].records ==> SeenAhead(run, k, r)
  }

  lemma AheadIsNotice(v: Release, was: Release, removal: Release, gone: Release)
    requires Notice(v, removal) || (v.major >= 1 && AtMost(v, was))
    requires Rises(was, gone) && AtMost(removal, gone)
    ensures Notice(v, gone)
  {
  }

  lemma PromiseIsNotice(run: seq<Published>, k: nat, name: string)
    requires PublishedAhead(run) && k + 1 < |run| && Promised(run, k, name)
    ensures NoticeGiven(run, k, name, run[k + 1].version)
  {
    ScheduledIsRecorded(run[k].records, name);
    var r := Gate.Scheduled(run[k].records)[name];
    assert SeenAhead(run, k, r);
    var m :| 0 <= m <= k && Ahead(run, m, k, r);
    AheadIsNotice(run[m].version, run[k].version, Parts(r.removal).value, run[k + 1].version);
  }

  /** The step after `k` lost the name, with the notice due. */
  ghost predicate LostWithNotice(run: seq<Published>, k: nat, name: string)
    requires k + 1 < |run|
  {
    !Kept(run[k].surface, run[k + 1].surface, name) && NoticeGiven(run, k, name, run[k + 1].version)
  }

  /**
   The two minors of notice that docs/versioning.md promises: over any run with no problem reported
   in which every record was published early enough for its removal date, a name that is not kept
   was announced that long before the release that lost it.
   */
  lemma LostNameHadNotice(run: seq<Published>, i: nat, j: nat, name: string)
    requires FullyChecked(run) && PublishedAhead(run) && i <= j < |run| && name in run[i].surface
    requires !Kept(run[i].surface, run[j].surface, name)
    ensures exists k :: i <= k < j && LostWithNotice(run, k, name)
  {
    var k := FindLoss(run, i, j, name);
    StepHadNotice(run, k, name);
  }

  lemma StepHadNotice(run: seq<Published>, k: nat, name: string)
    requires FullyChecked(run) && PublishedAhead(run) && k + 1 < |run|
    requires name in run[k].surface && !Kept(run[k].surface, run[k + 1].surface, name)
    ensures LostWithNotice(run, k, name)
  {
    StepIsPromised(run, k, name);
    PromiseIsNotice(run, k, name);
  }

  /** The release `m` already publishes the record, and is no later than the record says. */
  predicate InTime(run: seq<Published>, m: nat, r: Record)
    requires m < |run| && Parts(r.since).Some?
  {
    r in run[m].records && AtMost(run[m].version, Parts(r.since).value)
  }

  /** An accepted record that is published by the release it is dated to is early enough. */
  lemma DatedInTimeIsAhead(run: seq<Published>, m: nat, k: nat, r: Record)
    requires m <= k < |run| && Accepted(r) && InTime(run, m, r)
    ensures SeenAhead(run, k, r)
  {
    WindowIsNotice(run[m].version, Parts(r.since).value, Parts(r.removal).value);
    assert Ahead(run, m, k, r);
  }

  lemma WindowIsNotice(v: Release, since: Release, removal: Release)
    requires AtMost(v, since) && CheckWindow(since, removal) == Pass
    ensures Notice(v, removal)
  {
  }

  /** And a record that is published too late for its removal date can be followed, without a problem, by no notice. */
  lemma LateRecordGivesNoNotice(v: Release, surface: Names, record: Record, run: seq<Published>)
    requires Accepted(record) && v.major == 0 && !Notice(v, Parts(record.removal).value)
    requires surface.Keys == {record.name}
    requires run == [Published(v, surface, [record]), Published(Release(0, v.minor + 1, 0), map[], [])]
    ensures CleanAt(run, 0) && record.name !in run[1].surface && !NoticeGiven(run, 0, record.name, run[1].version)
  {
    var gone := Release(0, v.minor + 1, 0);
    NextMinorIsDue(v, Parts(record.since).value, Parts(record.removal).value);
    OneRemovalVerdict(surface, record.name, record, v, gone);
    assert run[0].version == v && run[0].records == [record];
  }

  lemma NextMinorIsDue(v: Release, since: Release, removal: Release)
    requires CheckWindow(since, removal) == Pass && v.major == 0 && !Notice(v, removal)
    ensures AtMost(removal, Release(0, v.minor + 1, 0)) && Rises(v, Release(0, v.minor + 1, 0))
  {
  }

  /** A record dated back passes decorator and gate, and leaves no notice at all. */
  lemma BackdatedRecordGivesNoNotice(surface: Names, name: string, record: Record, run: seq<Published>)
    requires surface.Keys == {name} && record.name == name && |run| == 3
    requires record.since == Show(Release(0, 1, 0)) && record.removal == Show(Release(0, 3, 0))
    requires run[0] == Published(Release(0, 2, 0), surface, [])
    requires run[1] == Published(Release(0, 2, 1), surface, [record])
    requires run[2] == Published(Release(0, 3, 0), map[], [])
    ensures CleanAt(run, 0) && CleanAt(run, 1) && Accepted(record)
    ensures name in run[1].surface && name !in run[2].surface && !NoticeGiven(run, 1, name, run[2].version)
  {
    BackdatedIsAccepted(record);
    BackdatedSteps(surface, name, record, run);
    TooLateForNotice(run, name);
  }

  lemma BackdatedSteps(surface: Names, name: string, record: Record, run: seq<Published>)
    requires surface.Keys == {name} && record.name == name && |run| == 3 && run[0].surface == run[1].surface == surface
    requires run[0].records == [] && run[1].records == [record] && run[2].surface == map[]
    requires Parts(record.removal) == Some(run[2].version)
    requires Gate.BreakingRelease(run[1].version, run[2].version) && Less(run[1].version, run[2].version)
    ensures CleanAt(run, 0) && CleanAt(run, 1)
  {
    NothingChangedNothingChecked(surface, [], run[0].version, run[1].version);
    OneRemovalVerdict(surface, name, record, run[1].version, run[2].version);
  }

  lemma TooLateForNotice(run: seq<Published>, name: string)
    requires |run| == 3 && run[0].records == [] && !Notice(run[1].version, run[2].version)
    ensures !NoticeGiven(run, 1, name, run[2].version)
  {
  }

  lemma BackdatedIsAccepted(record: Record)
    requires record.since == Show(Release(0, 1, 0)) && record.removal == Show(Release(0, 3, 0))
    ensures Parts(record.removal) == Some(Release(0, 3, 0)) && Accepted(record)
  {
    ShowReadsBack(Release(0, 1, 0));
    ShowReadsBack(Release(0, 3, 0));
  }

  // ---------------------------------------------------------------- the gate on committed files

  /**
   The gate reads the released surface and records back from the files they were printed to; for
   printable ones its verdict is the verdict on what was released.
   */
  lemma GateReadsWhatWasReleased(
    baseline: Names, current: Names, records: seq<Record>, was: Release, now: Release)
    requires Printable(baseline) && forall i :: 0 <= i < |records| ==> WellFormed(records[i])
    ensures Read(Deprecations.Render(records)).Ok?
    ensures var surface := ParseSurface(Surface.Render(baseline));
      Gate.Verdict(surface, current, Read(Deprecations.Render(records)).value, was, now) ==
      Gate.Verdict(baseline, current, records, was, now)
  {
    ParseUndoesRender(baseline);
    ReadUndoesRender(records);
  }
}
