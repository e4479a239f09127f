/** Numbering the alpha that main publishes, and retiring old ones (tools/alpha.py). */
module Alpha {
  import opened Wrappers
  import opened Ordering
  import opened ReleaseNumbers

  datatype Phase = A | B | RC

  datatype Pre = Pre(phase: Phase, number: nat)

  /** A normalised version of epoch 0 with three release numbers and no local part. */
  datatype Version = Version(release: Release, pre: Option<Pre>, post: Option<nat>, dev: Option<nat>)

  const FIRST_RELEASE := Release(0, 1, 0)

  // ---------------------------------------------------------------- the order of PEP 440

  /** A development release of nothing sorts before every pre-release, a final or post release after. */
  function PreKey(v: Version): (int, int) {
    match v.pre
    case Some(Pre(A, n)) => (0, n)
    case Some(Pre(B, n)) => (1, n)
    case Some(Pre(RC, n)) => (2, n)
    case None => if v.post.None? && v.dev.Some? then (-1, 0) else (3, 0)
  }

  function PostKey(v: Version): int {
    if v.post.Some? then v.post.value else -1
  }

  function DevKey(v: Version): (int, int) {
    if v.dev.Some? then (0, v.dev.value) else (1, 0)
  }

  predicate PairLess(a: (int, int), b: (int, int)) {
    a.0 < b.0 || (a.0 == b.0 && a.1 < b.1)
  }

  predicate VersionLeq(a: Version, b: Version) {
    if a.release != b.release then Less(a.release, b.release)
    else if PreKey(a) != PreKey(b) then PairLess(PreKey(a), PreKey(b))
    else if PostKey(a) != PostKey(b) then PostKey(a) < PostKey(b)
    else DevKey(a) == DevKey(b) || PairLess(DevKey(a), DevKey(b))
  }

  predicate Below(a: Version, b: Version) {
    VersionLeq(a, b) && a != b
  }

  lemma VersionsAreOrdered()
    ensures Preorder(VersionLeq)
    ensures forall a, b :: VersionLeq(a, b) && VersionLeq(b, a) ==> a == b
  {
    forall a, b | VersionLeq(a, b) && VersionLeq(b, a) ensures a == b {
      assert PreKey(a) == PreKey(b) && PostKey(a) == PostKey(b) && DevKey(a) == DevKey(b);
    }
  }

  /**
   The phases of one release, in the order of PEP 440: development releases of it, then alphas, betas
   and candidates, then the release, then post releases; a later number beats any suffix but a
   phase, and a development release comes right before what it develops.
   */
  lemma PhasesInOrder(r: Release, d: nat, a: nat, b: nat, c: nat, p: nat)
    ensures Below(Version(r, None, None, Some(d)), Version(r, Some(Pre(A, a)), None, Some(d)))
    ensures Below(Version(r, Some(Pre(A, a)), None, Some(d)), Version(r, Some(Pre(A, a)), None, None))
    ensures Below(Version(r, Some(Pre(A, a)), None, None), Version(r, Some(Pre(A, a)), Some(p), Some(d)))
    ensures Below(Version(r, Some(Pre(A, a)), Some(p), Some(d)), Version(r, Some(Pre(A, a)), Some(p), None))
    ensures Below(Version(r, Some(Pre(A, a)), Some(p), None), Version(r, Some(Pre(A, a + 1)), None, Some(d)))
    ensures Below(Version(r, Some(Pre(A, a)), Some(p), None), Version(r, Some(Pre(B, b)), None, Some(d)))
    ensures Below(Version(r, Some(Pre(B, b)), Some(p), None), Version(r, Some(Pre(RC, c)), None, Some(d)))
    ensures Below(Version(r, Some(Pre(RC, c)), Some(p), None), Final(r))
    ensures Below(Final(r), Version(r, None, Some(p), Some(d)))
    ensures Below(Version(r, None, Some(p), Some(d)), Version(r, None, Some(p), None))
    ensures Below(Version(r, None, Some(p), None), Version(r, None, Some(p + 1), Some(d)))
    ensures Below(Version(r, None, Some(p), Some(d)), Version(r, None, Some(p), Some(d + 1)))
  {
  }

  /** Every version of a lower release comes first, whatever its suffixes. */
  lemma ReleaseDecides(v: Version, w: Version)
    ensures Less(v.release, w.release) ==> Below(v, w)
  {
  }

  /** Post releases count as stable, development releases do not. */
  lemma WhatIsStable(versions: seq<Version>, v: Version)
    ensures v in Stable(versions) <==> v in versions && v.pre == None && v.dev == None
    ensures v in Alphas(versions) <==> v in versions && v.pre.Some? && v.pre.value.phase == A
    ensures v.release in ShippedBases(versions) <==>
      exists w :: w in versions && w.release == v.release && w.pre == None && w.dev == None
  {
    InAlphas(versions, v);
  }

  predicate IsPrerelease(v: Version) {
    v.pre.Some? || v.dev.Some?
  }

  predicate IsAlpha(v: Version) {
    v.pre.Some? && v.pre.value.phase == A
  }

  function Final(r: Release): Version {
    Version(r, None, None, None)
  }

  // ---------------------------------------------------------------- reading the index

  function Parsed(raw: seq<Option<Version>>): (r: seq<Version>)
    ensures forall v :: v in r <==> Some(v) in raw
  {
    if raw == [] then []
    else
      var last := raw[|raw| - 1];
      assert raw == raw[..|raw| - 1] + [last];
      Parsed(raw[..|raw| - 1]) + if last.Some? then [last.value] else []
  }

  /** `None` is an entry that is not a version: it is ignored. */
  method Versions(raw: seq<Option<Version>>) returns (parsed: seq<Version>)
    ensures parsed == Parsed(raw)
  {
    parsed := [];
    for i := 0 to |raw|
      invariant parsed == Parsed(raw[..i])
    {
      assert raw[..i + 1][..i] == raw[..i];
      if raw[i].None? {
        continue;
      }
      parsed := parsed + [raw[i].value];
    }
    assert raw[..|raw|] == raw;
  }

  // ---------------------------------------------------------------- the next alpha

  datatype AlphaError = AlreadyReleased(base: Release)

  /** The highest alpha number of the base, 0 when there is none. */
  function HighestAlpha(versions: seq<Version>, base: Release): (n: nat)
    ensures forall v :: v in versions && IsAlpha(v) && v.release == base ==> v.pre.value.number <= n
    ensures n == 0 || exists v :: v in versions && IsAlpha(v) && v.release == base && v.pre.value.number == n
  {
    if versions == [] then 0
    else
      var front, last := versions[..|versions| - 1], versions[|versions| - 1];
      var n := HighestAlpha(front, base);
      assert versions == front + [last];
      if IsAlpha(last) && last.release == base && last.pre.value.number > n then last.pre.value.number else n
  }

  function NextAlpha(base: Release, versions: seq<Version>): Result<Version, AlphaError> {
    if Final(base) in versions then Err(AlreadyReleased(base))
    else Ok(Version(base, Some(Pre(A, HighestAlpha(versions, base) + 1)), None, None))
  }

  function Latest(versions: seq<Version>): (v: Version)
    requires versions != []
    ensures v in versions && forall w :: w in versions ==> VersionLeq(w, v)
  {
    VersionsAreOrdered();
    var front, last := versions[..|versions| - 1], versions[|versions| - 1];
    assert versions == front + [last];
    if front == [] then last
    else
      var best := Latest(front);
      if VersionLeq(best, last) then last else best
  }

  function Stable(versions: seq<Version>): seq<Version> {
    Filter(versions, (v: Version) => !IsPrerelease(v))
  }

  function NextBase(versions: seq<Version>): Release {
    if Stable(versions) == [] then FIRST_RELEASE
    else
      var latest := Latest(Stable(versions)).release;
      Release(latest.major, latest.minor + 1, 0)
  }

  /** The base main is heading for is above everything stable, so it has not shipped. */
  lemma NextBaseIsAhead(versions: seq<Version>, v: Version)
    requires v in versions && !IsPrerelease(v)
    ensures Less(v.release, NextBase(versions))
  {
    assert v in Stable(versions);
    assert VersionLeq(v, Latest(Stable(versions)));
  }

  /** And it is the nearest: no other release that opens a minor lies above every stable release and below it. */
  lemma NextBaseIsNearest(versions: seq<Version>, base: Release)
    requires base.patch == 0 && forall v :: v in versions && !IsPrerelease(v) ==> Less(v.release, base)
    ensures NextBase(versions).patch == 0
    ensures Stable(versions) != [] ==> AtMost(NextBase(versions), base)
    ensures Stable(versions) == [] ==> NextBase(versions) == FIRST_RELEASE
  {
    if Stable(versions) != [] {
      assert Latest(Stable(versions)) in versions;
    }
  }

  /** Numbers follow on: no smaller positive number is above every alpha of the base. */
  lemma NextAlphaIsNearest(base: Release, versions: seq<Version>, n: nat)
    requires NextAlpha(base, versions).Ok? && n >= 1
    requires forall v :: v in versions && IsAlpha(v) && v.release == base ==> v.pre.value.number < n
    ensures NextAlpha(base, versions).value.pre.Some? && NextAlpha(base, versions).value.pre.value.number <= n
  {
  }

  /**
   The alpha main publishes next can always be numbered, is new, is newer than every stable version
   and every alpha of its own base, and is older than the release it leads to.
   */
  lemma NextAlphaAdvances(versions: seq<Version>)
    ensures var base := NextBase(versions);
      NextAlpha(base, versions).Ok? &&
      var next := NextAlpha(base, versions).value;
      next !in versions && Below(next, Final(base)) &&
      (forall v :: v in versions && !IsPrerelease(v) ==> Below(v, next)) &&
      forall v :: v in versions && IsAlpha(v) && v.release == base ==> Below(v, next)
  {
    var base := NextBase(versions);
    forall v | v in versions && !IsPrerelease(v) ensures Less(v.release, base) {
      NextBaseIsAhead(versions, v);
    }
  }

  /** What main publishes next, from whatever the index holds. */
  method PublishNext(raw: seq<Option<Version>>) returns (r: Result<Version, AlphaError>)
    ensures r.Ok? && Some(r.value) !in raw && Below(r.value, Final(r.value.release))
    ensures forall v :: Some(v) in raw && (!IsPrerelease(v) || (IsAlpha(v) && v.release == r.value.release)) ==>
      Below(v, r.value)
  {
    var versions := Versions(raw);
    NextAlphaAdvances(versions);
    r := NextAlpha(NextBase(versions), versions);
  }

  /** An alpha is refused exactly for a base that has shipped as that very version. */
  lemma AlphaRefusedOnceShipped(base: Release, versions: seq<Version>)
    ensures NextAlpha(base, versions).Err? <==>
      exists v :: v in versions && v.release == base && !IsPrerelease(v) && v.post.None?
  {
    if v :| v in versions && v.release == base && !IsPrerelease(v) && v.post.None? {
      assert v == Final(base);
    }
  }

  // ---------------------------------------------------------------- retention

  /** The bases that have shipped. */
  function ShippedBases(versions: seq<Version>): set<Release> {
    set v | v in versions && !IsPrerelease(v) :: v.release
  }

  function Alphas(versions: seq<Version>): seq<Version> {
    Sort(Filter(versions, IsAlpha), VersionLeq)
  }

  function Obsolete(versions: seq<Version>): seq<Version> {
    var shipped := ShippedBases(versions);
    Filter(Alphas(versions), (v: Version) => v.release in shipped)
  }

  /** The open alphas, oldest first. */
  function Open(versions: seq<Version>): seq<Version> {
    var shipped := ShippedBases(versions);
    Filter(Alphas(versions), (v: Version) => v.release !in shipped)
  }

  /** How many open alphas are dropped: `live[: max(len(live) - keep, 0)]`. */
  function Excess(count: nat, keep: int): (n: nat)
    ensures n <= count
  {
    if keep < 0 then count else if count <= keep then 0 else count - keep
  }

  function Stale(versions: seq<Version>, keep: int): seq<Version> {
    var live := Open(versions);
    Obsolete(versions) + live[..Excess(|live|, keep)]
  }

  /** What is left once every stale version has been removed by name. */
  function After(versions: seq<Version>, keep: int): seq<Version> {
    var stale := Stale(versions, keep);
    Filter(versions, (v: Version) => v !in stale)
  }

  lemma InAlphas(versions: seq<Version>, v: Version)
    ensures v in Alphas(versions) <==> v in versions && IsAlpha(v)
    ensures v in Obsolete(versions) <==> v in versions && IsAlpha(v) && v.release in ShippedBases(versions)
    ensures v in Open(versions) <==> v in versions && IsAlpha(v) && v.release !in ShippedBases(versions)
  {
    SameElements(Alphas(versions), Filter(versions, IsAlpha), v);
  }

  lemma AlphasAreSorted(versions: seq<Version>)
    ensures SortedBy(Alphas(versions), VersionLeq) && SortedBy(Obsolete(versions), VersionLeq) &&
      SortedBy(Open(versions), VersionLeq)
  {
    VersionsAreOrdered();
    SortIsSorted(Filter(versions, IsAlpha), VersionLeq);
    var shipped := ShippedBases(versions);
    FilterKeepsSorted(Alphas(versions), (v: Version) => v.release in shipped, VersionLeq);
    FilterKeepsSorted(Alphas(versions), (v: Version) => v.release !in shipped, VersionLeq);
  }

  /** Retention names only alphas the index holds, every one whose base has shipped, in two sorted runs. */
  lemma StaleNamesOnlyAlphas(versions: seq<Version>, keep: int)
    ensures forall v :: v in Stale(versions, keep) ==> v in versions && IsAlpha(v)
    ensures forall v ::
      v in versions && IsAlpha(v) && v.release in ShippedBases(versions) ==> v in Stale(versions, keep)
    ensures var cut := |Obsolete(versions)|;
      cut <= |Stale(versions, keep)| && SortedBy(Stale(versions, keep)[..cut], VersionLeq) &&
      SortedBy(Stale(versions, keep)[cut..], VersionLeq)
  {
    forall v
      ensures v in Stale(versions, keep) ==> v in versions && IsAlpha(v)
      ensures v in versions && IsAlpha(v) && v.release in ShippedBases(versions) ==> v in Stale(versions, keep)
    {
      InAlphas(versions, v);
    }
    AlphasAreSorted(versions);
    var live := Open(versions);
    var dropped := live[..Excess(|live|, keep)];
    assert Stale(versions, keep)[..|Obsolete(versions)|] == Obsolete(versions);
    assert Stale(versions, keep)[|Obsolete(versions)|..] == dropped;
    assert forall i :: 0 <= i < |dropped| ==> dropped[i] == live[i];
  }

  // ---------------------------------------------------------------- what retention leaves

  lemma StableNeverStale(versions: seq<Version>, keep: int, v: Version)
    requires !IsAlpha(v)
    ensures v !in Stale(versions, keep)
  {
    StaleNamesOnlyAlphas(versions, keep);
  }

  /** Releases are untouched, so what has shipped and where main is heading stay the same. */
  lemma AfterKeepsReleases(versions: seq<Version>, keep: int)
    ensures Stable(After(versions, keep)) == Stable(versions)
    ensures NextBase(After(versions, keep)) == NextBase(versions)
    ensures ShippedBases(After(versions, keep)) == ShippedBases(versions)
  {
    var stale := Stale(versions, keep);
    forall v | v in versions && !IsPrerelease(v) ensures v !in stale {
      StableNeverStale(versions, keep, v);
    }
    FilterSkips(versions, (v: Version) => v !in stale, (v: Version) => !IsPrerelease(v));
    var after := After(versions, keep);
    assert forall v :: v in after && !IsPrerelease(v) <==> v in versions && !IsPrerelease(v);
  }

  lemma OpenCounts(versions: seq<Version>, v: Version)
    ensures multiset(Open(versions))[v] ==
      if IsAlpha(v) && v.release !in ShippedBases(versions) then multiset(versions)[v] else 0
  {
    var shipped := ShippedBases(versions);
    FilterCounts(Alphas(versions), (v: Version) => v.release !in shipped, v);
    FilterCounts(versions, IsAlpha, v);
  }

  lemma OpenAfter(versions: seq<Version>, keep: int)
    ensures var stale := Stale(versions, keep);
      Open(After(versions, keep)) == Filter(Open(versions), (v: Version) => v !in stale)
  {
    var stale, after := Stale(versions, keep), After(versions, keep);
    var spared := (v: Version) => v !in stale;
    var a, b := Open(after), Filter(Open(versions), spared);
    AfterKeepsReleases(versions, keep);
    forall v ensures multiset(a)[v] == multiset(b)[v] {
      OpenCounts(after, v);
      OpenCounts(versions, v);
      FilterCounts(versions, spared, v);
      FilterCounts(Open(versions), spared, v);
    }
    assert multiset(a) == multiset(b);
    AlphasAreSorted(after);
    AlphasAreSorted(versions);
    FilterKeepsSorted(Open(versions), spared, VersionLeq);
    VersionsAreOrdered();
    SortedIsUnique(a, b, VersionLeq);
  }

  /** Where the kept run of open alphas starts. */
  function Cut(versions: seq<Version>, keep: int): nat {
    Excess(|Open(versions)|, keep)
  }

  lemma StaleIsDropped(versions: seq<Version>, keep: int, v: Version)
    requires v in Open(versions)
    ensures v in Stale(versions, keep) <==> v in Open(versions)[..Cut(versions, keep)]
  {
    InAlphas(versions, v);
  }

  lemma OpenAfterIsTail(versions: seq<Version>, keep: int)
    ensures var stale, n := Stale(versions, keep), Cut(versions, keep);
      n <= |Open(versions)| &&
      Open(After(versions, keep)) == Filter(Open(versions)[n..], (v: Version) => v !in stale)
  {
    var live, stale, n := Open(versions), Stale(versions, keep), Cut(versions, keep);
    var spared := (v: Version) => v !in stale;
    OpenAfter(versions, keep);
    assert live == live[..n] + live[n..];
    FilterAppend(live[..n], live[n..], spared);
    FilterAll(live[..n], spared);
  }

  /** At most `keep` open alphas are left, and none that was dropped is newer than one that was kept. */
  lemma RetentionKeepsNewest(versions: seq<Version>, keep: int)
    ensures keep >= 0 ==> |Open(After(versions, keep))| <= keep
    ensures forall v, w :: v in Open(After(versions, keep)) && w in Open(versions) && w in Stale(versions, keep) ==>
      VersionLeq(w, v)
  {
    OpenAfterIsTail(versions, keep);
    AlphasAreSorted(versions);
    forall v, w | v in Open(After(versions, keep)) && w in Open(versions) && w in Stale(versions, keep)
      ensures VersionLeq(w, v)
    {
      StaleIsDropped(versions, keep, w);
      TailIsNewer(Open(versions), Cut(versions, keep), w, v);
    }
  }

  lemma TailIsNewer(live: seq<Version>, n: nat, w: Version, v: Version)
    requires SortedBy(live, VersionLeq) && n <= |live| && w in live[..n] && v in live[n..]
    ensures VersionLeq(w, v)
  {
    var a :| 0 <= a < n && live[..n][a] == w;
    var c :| 0 <= c < |live| - n && live[n..][c] == v;
    assert live[a] == w && live[n + c] == v;
  }

  /**
   Removal is by name, so a version that is listed twice around the cut is dropped with its copy.
   Exactly when there is none, what is left is the newest `keep`, or all when there are no more.
   */
  lemma RetentionKeepsEnough(versions: seq<Version>, keep: int)
    ensures var live, n := Open(versions), Cut(versions, keep);
      n <= |live| && |live[n..]| == (if keep < 0 then 0 else if |live| < keep then |live| else keep) &&
      (Open(After(versions, keep)) == live[n..] <==> n == 0 || n == |live| || live[n - 1] != live[n])
  {
    OpenAfterIsTail(versions, keep);
    CutIsStale(versions, keep);
    SparedTail(Open(versions), Cut(versions, keep), Stale(versions, keep));
  }

  lemma CutIsStale(versions: seq<Version>, keep: int)
    ensures var live, n := Open(versions), Cut(versions, keep);
      SortedBy(live, VersionLeq) && n <= |live| &&
      forall v :: v in live ==> (v in Stale(versions, keep) <==> v in live[..n])
  {
    AlphasAreSorted(versions);
    forall v | v in Open(versions)
      ensures v in Stale(versions, keep) <==> v in Open(versions)[..Cut(versions, keep)]
    {
      StaleIsDropped(versions, keep, v);
    }
  }

  lemma SparedTail(live: seq<Version>, n: nat, stale: seq<Version>)
    requires SortedBy(live, VersionLeq) && n <= |live| && forall v :: v in live ==> (v in stale <==> v in live[..n])
    ensures Filter(live[n..], (v: Version) => v !in stale) == live[n..] <==>
      n == 0 || n == |live| || live[n - 1] != live[n]
  {
    assert forall v :: v in live[n..] ==> v in live;
    if n == 0 || n == |live| || live[n - 1] != live[n] {
      forall v | v in live[n..] ensures v !in live[..n] {
        OneSideOfCut(live, n, v);
      }
      FilterAll(live[n..], (v: Version) => v !in stale);
    } else {
      assert live[..n][n - 1] == live[n] && live[n..][0] == live[n];
      assert live[n] in live[n..] && live[n] in stale;
    }
  }

  lemma OneSideOfCut(live: seq<Version>, n: nat, v: Version)
    requires SortedBy(live, VersionLeq) && n <= |live| && (n == 0 || n == |live| || live[n - 1] != live[n])
    requires v in live[n..]
    ensures v !in live[..n]
  {
    if v in live[..n] {
      TailIsNewer(live, n, live[n - 1], v);
      var a :| 0 <= a < n && live[..n][a] == v;
      var c :| 0 <= c < |live| - n && live[n..][c] == v;
      assert live[a] == v && live[n + c] == v;
      assert c > 0 ==> VersionLeq(live[n], v);
      assert a < n - 1 ==> VersionLeq(v, live[n - 1]);
      assert VersionLeq(live[n - 1], live[n]);
      VersionsAreOrdered();
    }
  }

  lemma NothingObsoleteLeft(versions: seq<Version>, keep: int)
    ensures Obsolete(After(versions, keep)) == []
  {
    var after := After(versions, keep);
    AfterKeepsReleases(versions, keep);
    StaleNamesOnlyAlphas(versions, keep);
    forall v ensures v !in Obsolete(after) {
      InAlphas(after, v);
    }
    var first := if Obsolete(after) == [] then Final(FIRST_RELEASE) else Obsolete(after)[0];
    assert Obsolete(after) != [] ==> first in Obsolete(after);
  }

  /** A second run of the same retention finds nothing to name. */
  lemma RetentionSettles(versions: seq<Version>, keep: int)
    ensures Stale(After(versions, keep), keep) == []
  {
    NothingObsoleteLeft(versions, keep);
    RetentionKeepsNewest(versions, keep);
    OpenAfterIsTail(versions, keep);
    assert Cut(After(versions, keep), keep) == 0;
  }

  // ---------------------------------------------------------------- retention and numbering

  /** The newest alpha of the base, if it has any. */
  function Newest(versions: seq<Version>, base: Release): (v: Version)
    ensures (exists w :: w in versions && IsAlpha(w) && w.release == base) ==>
      v in versions && IsAlpha(v) && v.release == base
    ensures forall w :: w in versions && IsAlpha(w) && w.release == base ==> VersionLeq(w, v)
  {
    var own := Filter(versions, (v: Version) => IsAlpha(v) && v.release == base);
    if own == [] then
      assert forall w :: w in versions && IsAlpha(w) && w.release == base ==> w in own;
      Final(base)
    else Latest(own)
  }

  function FromOn(s: seq<Version>, v: Version): seq<Version> {
    Filter(s, (w: Version) => VersionLeq(v, w))
  }

  /** Open alphas that are no older than this one, itself and its copies included. */
  function NoOlder(versions: seq<Version>, v: Version): nat {
    |FromOn(Open(versions), v)|
  }

  /** Sorted versions split at one: those older than it, then the others. */
  lemma {:induction false} SplitAtVersion(s: seq<Version>, v: Version) returns (f: nat)
    requires SortedBy(s, VersionLeq)
    ensures f <= |s| && |FromOn(s, v)| == |s| - f
    ensures forall i :: 0 <= i < f ==> !VersionLeq(v, s[i])
    ensures forall i :: f <= i < |s| ==> VersionLeq(v, s[i])
  {
    f := |s|;
    if s != [] {
      FromOnLast(s, v);
      if VersionLeq(v, s[|s| - 1]) {
        f := SplitAtVersion(s[..|s| - 1], v);
      } else {
        AllOlder(s, v);
      }
    }
  }

  lemma FromOnLast(s: seq<Version>, v: Version)
    requires s != []
    ensures FromOn(s, v) ==
      FromOn(s[..|s| - 1], v) + if VersionLeq(v, s[|s| - 1]) then [s[|s| - 1]] else []
  {
  }

  lemma AllOlder(s: seq<Version>, v: Version)
    requires SortedBy(s, VersionLeq) && s != [] && !VersionLeq(v, s[|s| - 1])
    ensures FromOn(s, v) == [] && forall i :: 0 <= i < |s| ==> !VersionLeq(v, s[i])
  {
    VersionsAreOrdered();
    forall i | 0 <= i < |s| ensures !VersionLeq(v, s[i]) {
      assert i < |s| - 1 ==> VersionLeq(s[i], s[|s| - 1]);
    }
    FilterAll(s, (w: Version) => VersionLeq(v, w));
  }

  /** Sorted, the first that is no older than a version on the list is that version. */
  lemma FirstCopy(s: seq<Version>, v: Version, f: nat, n: nat)
    requires SortedBy(s, VersionLeq) && v in s && f <= |s| && n <= |s|
    requires forall i :: 0 <= i < f ==> !VersionLeq(v, s[i])
    requires forall i :: f <= i < |s| ==> VersionLeq(v, s[i])
    ensures f < |s| && s[f] == v && (v in s[..n] <==> f < n)
  {
    VersionsAreOrdered();
    var p :| 0 <= p < |s| && s[p] == v;
    assert f < p ==> VersionLeq(s[f], s[p]);
    assert f < n ==> s[..n][f] == v;
    if v in s[..n] {
      var a :| 0 <= a < n && s[..n][a] == v;
      assert s[a] == v;
    }
  }

  /** What is older than a dropped version is dropped. */
  lemma OlderIsDropped(s: seq<Version>, v: Version, w: Version, n: nat)
    requires SortedBy(s, VersionLeq) && n <= |s| && v in s[..n] && w in s && VersionLeq(w, v)
    ensures w in s[..n]
  {
    var a :| 0 <= a < n && s[..n][a] == v;
    var b :| 0 <= b < |s| && s[b] == w;
    assert s[a] == v;
    if b < n {
      assert s[..n][b] == w;
    } else {
      VersionsAreOrdered();
      assert VersionLeq(s[a], s[b]);
    }
  }

  /**
   Removing what retention names leaves the next alpha number alone exactly when no alpha of the
   base has a number above zero, or at most `keep` open alphas are no older than the newest alpha of
   the base: else that alpha is dropped and its number is given out again.
   */
  lemma RetentionKeepsNumbering(versions: seq<Version>, keep: int)
    ensures var base := NextBase(versions);
      NextAlpha(NextBase(After(versions, keep)), After(versions, keep)) == NextAlpha(base, versions) <==>
      HighestAlpha(versions, base) == 0 || NoOlder(versions, Newest(versions, base)) <= keep
  {
    var base, after := NextBase(versions), After(versions, keep);
    AfterKeepsReleases(versions, keep);
    BaseIsOpen(versions);
    SameNumber(base, versions, after);
    if HighestAlpha(versions, base) != 0 {
      NumberSurvives(versions, keep);
    }
  }

  lemma SameNumber(base: Release, versions: seq<Version>, fewer: seq<Version>)
    requires Final(base) !in versions && forall v :: v in fewer ==> v in versions
    ensures NextAlpha(base, fewer) == NextAlpha(base, versions) <==>
      HighestAlpha(fewer, base) == HighestAlpha(versions, base)
    ensures HighestAlpha(fewer, base) <= HighestAlpha(versions, base)
  {
  }

  lemma NewestIsHighest(versions: seq<Version>, base: Release)
    requires HighestAlpha(versions, base) != 0
    ensures var v := Newest(versions, base);
      v in versions && IsAlpha(v) && v.release == base && v.pre.value.number == HighestAlpha(versions, base)
  {
    var top :|
      top in versions && IsAlpha(top) && top.release == base && top.pre.value.number == HighestAlpha(versions, base);
    assert VersionLeq(top, Newest(versions, base));
  }

  lemma NewestIsDropped(versions: seq<Version>, keep: int)
    requires HighestAlpha(versions, NextBase(versions)) != 0
    ensures var v := Newest(versions, NextBase(versions));
      v in Open(versions) && (v in Stale(versions, keep) <==> NoOlder(versions, v) > keep)
  {
    var live, v := Open(versions), Newest(versions, NextBase(versions));
    NewestIsHighest(versions, NextBase(versions));
    BaseIsOpen(versions);
    InAlphas(versions, v);
    AlphasAreSorted(versions);
    var f := SplitAtVersion(live, v);
    FirstCopy(live, v, f, Cut(versions, keep));
    StaleIsDropped(versions, keep, v);
  }

  lemma NumberSurvives(versions: seq<Version>, keep: int)
    requires HighestAlpha(versions, NextBase(versions)) != 0
    ensures var base := NextBase(versions);
      HighestAlpha(After(versions, keep), base) == HighestAlpha(versions, base) <==>
      NoOlder(versions, Newest(versions, base)) <= keep
  {
    var base, after := NextBase(versions), After(versions, keep);
    var newest := Newest(versions, base);
    NewestIsHighest(versions, base);
    NewestIsDropped(versions, keep);
    if newest in Stale(versions, keep) {
      forall v | v in versions && IsAlpha(v) && v.release == base ensures v in Stale(versions, keep) {
        OlderIsStale(versions, keep, newest, v);
      }
    } else {
      assert newest in after;
    }
  }

  lemma OlderIsStale(versions: seq<Version>, keep: int, newest: Version, v: Version)
    requires newest in Open(versions) && newest in Stale(versions, keep) && v.release == newest.release
    requires v in versions && IsAlpha(v) && VersionLeq(v, newest)
    ensures v in Stale(versions, keep)
  {
    InAlphas(versions, newest);
    InAlphas(versions, v);
    AlphasAreSorted(versions);
    StaleIsDropped(versions, keep, newest);
    StaleIsDropped(versions, keep, v);
    OlderIsDropped(Open(versions), newest, v, Cut(versions, keep));
  }

  lemma OnlyAlphaIsDropped(v: Version)
    requires IsAlpha(v)
    ensures After([v], 0) == []
  {
    assert v in [v];
    InAlphas([v], v);
    assert Open([v])[..|Open([v])|] == Open([v]);
    StaleIsDropped([v], 0, v);
    FilterAll([v], (w: Version) => w !in Stale([v], 0));
  }

  /** Keeping none, the only alpha of 0.1.0 is dropped, and the next one is numbered the same. */
  lemma DroppedAlphaIsRenumbered()
    ensures var v := Version(Release(0, 1, 0), Some(Pre(A, 1)), None, None);
      NextAlpha(NextBase([v]), [v]) == Ok(v.(pre := Some(Pre(A, 2)))) &&
      After([v], 0) == [] && NextAlpha(NextBase([]), []) == Ok(v)
  {
    var v := Version(Release(0, 1, 0), Some(Pre(A, 1)), None, None);
    OnlyAlphaIsDropped(v);
    assert [v][..0] == [];
    assert Stable([v]) == [];
  }

  lemma BaseIsOpen(versions: seq<Version>)
    ensures NextBase(versions) !in ShippedBases(versions)
  {
    forall v | v in versions && !IsPrerelease(v) ensures v.release != NextBase(versions) {
      NextBaseIsAhead(versions, v);
    }
  }
}
