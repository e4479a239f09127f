/** The verdict over scanner findings: graph, severity and suppressions (tools/audit.py). */
module Audit {
  import opened Wrappers
  import Ordering
  import Lockfile

  datatype Finding = Finding(package: string, version: string, id: string, fixed: Option<string>, severity: string)

  /** Dates are day numbers. */
  datatype Suppression = Suppression(id: string, kind: string, owner: string, expires: int)

  type Policy = seq<Suppression>

  datatype State = Suppressed(owner: string) | Blocks | Tracked

  datatype Line =
    | Reported(finding: Finding, radius: string, state: State)
    | Expired(entry: Suppression)
    | NoAdvisories

  datatype Verdict = Verdict(blocking: bool, tracked: seq<Finding>, report: seq<Line>)

  const ADVISORY := "advisory"
  const BLOCKING := {"critical", "high", "unknown"}

  predicate Live(entry: Suppression, today: int) {
    today <= entry.expires
  }

  predicate Grants(entry: Suppression, id: string, today: int) {
    entry.id == id && entry.kind == ADVISORY && Live(entry, today)
  }

  predicate Suppresses(policy: Policy, id: string, today: int) {
    exists i :: 0 <= i < |policy| && Grants(policy[i], id, today)
  }

  /** `str.lower` on ASCII. */
  function Lower(s: string): string {
    seq(|s|, i requires 0 <= i < |s| => if 'A' <= s[i] <= 'Z' then (s[i] as int + 32) as char else s[i])
  }

  predicate BlockingSeverity(severity: string) {
    Lower(severity) in BLOCKING
  }

  /** Nobody's kit contains it: the lock has the package, and only development groups reach it. */
  predicate DevelopmentOnly(g: Lockfile.Graph, package: string) {
    package in g.reach && Lockfile.RUNTIME !in g.reach[package] &&
    forall l :: l in g.reach[package] ==> !(Lockfile.EXTRA <= l)
  }

  predicate Stops(g: Lockfile.Graph, policy: Policy, today: int, f: Finding) {
    !Suppresses(policy, f.id, today) && !DevelopmentOnly(g, f.package) && BlockingSeverity(f.severity)
  }

  predicate Tracks(g: Lockfile.Graph, policy: Policy, today: int, f: Finding) {
    !Suppresses(policy, f.id, today) && !Stops(g, policy, today, f)
  }

  /** `(finding.package, finding.id)` as a sort key. */
  predicate ByKey(f: Finding, g: Finding) {
    if f.package == g.package then Ordering.Leq(f.id, g.id) else Ordering.Leq(f.package, g.package)
  }

  lemma ByKeyIsPreorder()
    ensures Ordering.Preorder(ByKey)
  {
    forall f: Finding, g: Finding ensures ByKey(f, g) || ByKey(g, f) {
      Ordering.LeqTotal(f.package, g.package);
      Ordering.LeqTotal(f.id, g.id);
    }
    forall f: Finding, g: Finding, h: Finding | ByKey(f, g) && ByKey(g, h) ensures ByKey(f, h) {
      if f.package == g.package == h.package {
        Ordering.LeqTransitive(f.id, g.id, h.id);
      } else if f.package != g.package && g.package != h.package {
        Ordering.LeqTransitive(f.package, g.package, h.package);
        Ordering.LeqTotal(f.package, g.package);
      }
    }
  }

  /** The entry whose owner is printed: the first with the id, whatever its kind or date. */
  function OwnerOf(policy: Policy, id: string): (owner: string)
    requires exists i :: 0 <= i < |policy| && policy[i].id == id
  {
    if policy[0].id == id then policy[0].owner else OwnerOf(policy[1..], id)
  }

  /** The first entry with the id. */
  predicate First(policy: Policy, id: string, f: nat) {
    f < |policy| && policy[f].id == id && forall i :: 0 <= i < f ==> policy[i].id != id
  }

  lemma {:induction false} OwnerIsFirst(policy: Policy, id: string, f: nat)
    requires First(policy, id, f)
    ensures OwnerOf(policy, id) == policy[f].owner
  {
    if f > 0 {
      assert policy[0].id != id && policy[f] == policy[1..][f - 1];
      assert forall i :: 0 <= i < f - 1 ==> policy[1..][i] == policy[i + 1];
      OwnerIsFirst(policy[1..], id, f - 1);
    }
  }

  /** Somebody of this name granted the suppression that is in force. */
  predicate Granted(policy: Policy, id: string, today: int, owner: string) {
    exists i :: 0 <= i < |policy| && Grants(policy[i], id, today) && policy[i].owner == owner
  }

  /**
   The owner printed beside a suppressed finding granted it exactly when the first entry with its id
   is of such an owner, whatever that entry is for and however long it has run out.
   */
  lemma PrintedOwnerGranted(policy: Policy, id: string, today: int, f: nat)
    requires Suppresses(policy, id, today) && First(policy, id, f)
    ensures Granted(policy, id, today, OwnerOf(policy, id)) <==>
      Grants(policy[f], id, today) ||
      exists i :: f < i < |policy| && Grants(policy[i], id, today) && policy[i].owner == policy[f].owner
  {
    OwnerIsFirst(policy, id, f);
  }

  /** A secret of the same id, listed first, has its owner printed for an advisory that somebody else suppressed. */
  lemma SecretOwnerPrinted()
    ensures var policy := [Suppression("X-1", "secret", "ann", 0), Suppression("X-1", ADVISORY, "bob", 9)];
      Suppresses(policy, "X-1", 5) && OwnerOf(policy, "X-1") == "ann" && !Granted(policy, "X-1", 5, "ann")
  {
    var policy := [Suppression("X-1", "secret", "ann", 0), Suppression("X-1", ADVISORY, "bob", 9)];
    assert Grants(policy[1], "X-1", 5);
    assert "bob"[0] != "ann"[0];
  }

  function StateOf(g: Lockfile.Graph, policy: Policy, today: int, f: Finding): State {
    if Suppresses(policy, f.id, today) then Suppressed(OwnerOf(policy, f.id))
    else if Stops(g, policy, today, f) then Blocks
    else Tracked
  }

  function LineOf(g: Lockfile.Graph, policy: Policy, today: int, f: Finding): Line {
    Reported(f, Lockfile.BlastRadius(g, f.package), StateOf(g, policy, today, f))
  }

  function FindingLines(g: Lockfile.Graph, policy: Policy, today: int, found: seq<Finding>): (lines: seq<Line>)
    ensures |lines| == |found|
    ensures forall i :: 0 <= i < |found| ==> lines[i] == LineOf(g, policy, today, found[i])
  {
    if found == [] then []
    else FindingLines(g, policy, today, found[..|found| - 1]) + [LineOf(g, policy, today, found[|found| - 1])]
  }

  function ExpiredLines(expired: seq<Suppression>): (lines: seq<Line>)
    ensures |lines| == |expired|
    ensures forall i :: 0 <= i < |expired| ==> lines[i] == Expired(expired[i])
  {
    if expired == [] then []
    else ExpiredLines(expired[..|expired| - 1]) + [Expired(expired[|expired| - 1])]
  }

  predicate AnyStops(found: seq<Finding>, g: Lockfile.Graph, policy: Policy, today: int) {
    exists f :: f in found && Stops(g, policy, today, f)
  }

  predicate AnyExpired(policy: Policy, today: int) {
    exists entry :: entry in policy && !Live(entry, today)
  }

  function TrackedOf(found: seq<Finding>, g: Lockfile.Graph, policy: Policy, today: int): seq<Finding> {
    Ordering.Filter(found, (f: Finding) => Tracks(g, policy, today, f))
  }

  function ExpiredOf(policy: Policy, today: int): seq<Suppression> {
    Ordering.Filter(policy, (s: Suppression) => !Live(s, today))
  }

  lemma OneMore(found: seq<Finding>, i: nat, g: Lockfile.Graph, policy: Policy, today: int)
    requires i < |found|
    ensures FindingLines(g, policy, today, found[..i + 1]) ==
      FindingLines(g, policy, today, found[..i]) + [LineOf(g, policy, today, found[i])]
    ensures TrackedOf(found[..i + 1], g, policy, today) ==
      TrackedOf(found[..i], g, policy, today) + if Tracks(g, policy, today, found[i]) then [found[i]] else []
    ensures AnyStops(found[..i + 1], g, policy, today) <==>
      AnyStops(found[..i], g, policy, today) || Stops(g, policy, today, found[i])
  {
    var longer := found[..i + 1];
    assert longer[..i] == found[..i] && longer == found[..i] + [found[i]];
  }

  /** One line per finding in sorted order, then one per expired suppression. */
  function ReportOf(found: seq<Finding>, g: Lockfile.Graph, policy: Policy, today: int): seq<Line> {
    var lines := FindingLines(g, policy, today, Ordering.Sort(found, ByKey)) + ExpiredLines(ExpiredOf(policy, today));
    if lines == [] then [NoAdvisories] else lines
  }

  method Assess(found: seq<Finding>, g: Lockfile.Graph, policy: Policy, today: int) returns (verdict: Verdict)
    ensures verdict.blocking <==> AnyExpired(policy, today) || AnyStops(found, g, policy, today)
    ensures verdict.tracked == TrackedOf(Ordering.Sort(found, ByKey), g, policy, today)
    ensures verdict.report == ReportOf(found, g, policy, today)
  {
    var lines, tracked, blocking := ReportFindings(Ordering.Sort(found, ByKey), g, policy, today);
    SortedStops(found, g, policy, today);
    ExpiredListed(policy, today);
    var overdue, reminders := ReportExpired(ExpiredOf(policy, today));
    blocking, lines := blocking || overdue, lines + reminders;
    if lines == [] {
      lines := [NoAdvisories];
    }
    return Verdict(blocking, tracked, lines);
  }

  method ReportFindings(sorted: seq<Finding>, g: Lockfile.Graph, policy: Policy, today: int)
    returns (lines: seq<Line>, tracked: seq<Finding>, blocking: bool)
    ensures lines == FindingLines(g, policy, today, sorted)
    ensures tracked == TrackedOf(sorted, g, policy, today)
    ensures blocking <==> AnyStops(sorted, g, policy, today)
  {
    lines, tracked, blocking := [], [], false;
    for i := 0 to |sorted|
      invariant lines == FindingLines(g, policy, today, sorted[..i])
      invariant tracked == TrackedOf(sorted[..i], g, policy, today)
      invariant blocking <==> AnyStops(sorted[..i], g, policy, today)
    {
      var item := sorted[i];
      OneMore(sorted, i, g, policy, today);
      var state := Judge(g, policy, today, item);
      if state.Blocks? {
        blocking := true;
      }
      if state.Tracked? {
        tracked := tracked + [item];
      }
      lines := lines + [Reported(item, Lockfile.BlastRadius(g, item.package), state)];
    }
    assert sorted[..|sorted|] == sorted;
  }

  method ReportExpired(expired: seq<Suppression>) returns (blocking: bool, lines: seq<Line>)
    ensures blocking <==> expired != []
    ensures lines == ExpiredLines(expired)
  {
    blocking, lines := false, [];
    for i := 0 to |expired|
      invariant lines == ExpiredLines(expired[..i])
      invariant blocking <==> i > 0
    {
      assert expired[..i + 1][..i] == expired[..i];
      blocking := true;
      lines := lines + [Expired(expired[i])];
    }
    assert expired[..|expired|] == expired;
  }

  lemma ExpiredListed(policy: Policy, today: int)
    ensures ExpiredOf(policy, today) != [] <==> AnyExpired(policy, today)
  {
    var expired := ExpiredOf(policy, today);
    if expired != [] {
      assert expired[0] in expired;
    }
  }

  lemma SortedStops(found: seq<Finding>, g: Lockfile.Graph, policy: Policy, today: int)
    ensures AnyStops(Ordering.Sort(found, ByKey), g, policy, today) == AnyStops(found, g, policy, today)
  {
    forall f ensures f in found <==> f in Ordering.Sort(found, ByKey) {
      Ordering.SameElements(found, Ordering.Sort(found, ByKey), f);
    }
  }

  /** The branch a finding takes, decided on the text of its blast radius. */
  method Judge(g: Lockfile.Graph, policy: Policy, today: int, item: Finding) returns (state: State)
    ensures state == StateOf(g, policy, today, item)
    ensures state.Blocks? <==> Stops(g, policy, today, item)
    ensures state.Tracked? <==> Tracks(g, policy, today, item)
  {
    var radius := Lockfile.BlastRadius(g, item.package);
    Lockfile.BlastRadiusTells(g, item.package);
    if Suppresses(policy, item.id, today) {
      return Suppressed(OwnerOf(policy, item.id));
    } else if radius != Lockfile.NOT_SHIPPED && BlockingSeverity(item.severity) {
      return Blocks;
    } else {
      return Tracked;
    }
  }

  /** The order the scanner reports in changes nothing that decides a merge. */
  lemma FindingOrderIsIrrelevant(
    found: seq<Finding>, found': seq<Finding>, g: Lockfile.Graph, policy: Policy, today: int)
    requires multiset(found) == multiset(found')
    ensures AnyStops(found, g, policy, today) == AnyStops(found', g, policy, today)
    ensures multiset(TrackedOf(Ordering.Sort(found, ByKey), g, policy, today)) ==
      multiset(TrackedOf(Ordering.Sort(found', ByKey), g, policy, today))
  {
    forall f ensures f in found <==> f in found' {
      Ordering.SameElements(found, found', f);
    }
    var a, b := Ordering.Sort(found, ByKey), Ordering.Sort(found', ByKey);
    Ordering.FilterPermutes(a, b, (f: Finding) => Tracks(g, policy, today, f));
  }

  predicate SameKey(f: Finding, h: Finding) {
    f.package == h.package && f.id == h.id
  }

  /** No two different findings share package and advisory. */
  predicate Keyed(found: seq<Finding>) {
    forall f, h :: f in found && h in found && SameKey(f, h) ==> f == h
  }

  lemma SameKeyIsTie(f: Finding, h: Finding)
    ensures ByKey(f, h) && ByKey(h, f) <==> SameKey(f, h)
  {
    Ordering.LeqTotal(f.package, h.package);
    Ordering.LeqTotal(f.id, h.id);
  }

  lemma KeyedSortsAlike(found: seq<Finding>, found': seq<Finding>)
    requires multiset(found) == multiset(found') && Keyed(found)
    ensures Ordering.Sort(found, ByKey) == Ordering.Sort(found', ByKey)
  {
    var a, b := Ordering.Sort(found, ByKey), Ordering.Sort(found', ByKey);
    ByKeyIsPreorder();
    Ordering.SortIsSorted(found, ByKey);
    Ordering.SortIsSorted(found', ByKey);
    forall f, h | f in a && h in a && ByKey(f, h) && ByKey(h, f) ensures f == h {
      Ordering.SameElements(a, found, f);
      Ordering.SameElements(a, found, h);
      SameKeyIsTie(f, h);
    }
    Ordering.SortedIsUnique(a, b, ByKey);
  }

  lemma InsertedPast(f: Finding, h: Finding, s: seq<Finding>)
    requires s != [] && !ByKey(f, s[0]) && !ByKey(h, s[0])
    ensures Ordering.Insert(f, Ordering.Insert(h, s, ByKey), ByKey)[1..] ==
      Ordering.Insert(f, Ordering.Insert(h, s[1..], ByKey), ByKey)
  {
    var once := Ordering.Insert(h, s, ByKey);
    assert once[0] == s[0] && once[1..] == Ordering.Insert(h, s[1..], ByKey);
  }

  /** Different findings of one key come out in the order they went in. */
  lemma {:induction false} TiesKeepOrder(f: Finding, h: Finding, s: seq<Finding>)
    requires SameKey(f, h) && f != h
    ensures Ordering.Insert(f, Ordering.Insert(h, s, ByKey), ByKey) !=
      Ordering.Insert(h, Ordering.Insert(f, s, ByKey), ByKey)
  {
    SameKeyIsTie(f, h);
    if s == [] || ByKey(f, s[0]) {
      assert Ordering.Insert(h, s, ByKey)[0] == h && Ordering.Insert(f, s, ByKey)[0] == f;
      assert Ordering.Insert(f, Ordering.Insert(h, s, ByKey), ByKey)[0] == f;
      assert Ordering.Insert(h, Ordering.Insert(f, s, ByKey), ByKey)[0] == h;
    } else {
      TiesKeepOrder(f, h, s[1..]);
      InsertedPast(f, h, s);
      InsertedPast(h, f, s);
    }
  }

  /** The findings with `f` and `h` brought to the front, in either order. */
  lemma BroughtForward(found: seq<Finding>, f: Finding, h: Finding) returns (a: seq<Finding>, b: seq<Finding>)
    requires f in found && h in found && SameKey(f, h) && f != h
    ensures multiset(a) == multiset(found) && multiset(b) == multiset(found)
    ensures Ordering.Sort(a, ByKey) != Ordering.Sort(b, ByKey)
  {
    var rest := SplitOff(found, f, h);
    a, b := [f] + ([h] + rest), [h] + ([f] + rest);
    SortedFromFront(f, h, rest);
    SortedFromFront(h, f, rest);
    TiesKeepOrder(f, h, Ordering.Sort(rest, ByKey));
  }

  lemma SplitOff(found: seq<Finding>, f: Finding, h: Finding) returns (rest: seq<Finding>)
    requires f in found && h in found && f != h
    ensures multiset([f] + ([h] + rest)) == multiset(found) && multiset([h] + ([f] + rest)) == multiset(found)
  {
    assert h in multiset(found);
    assert multiset(Without(found, f))[h] > 0;
    rest := Without(Without(found, f), h);
  }

  lemma SortedFromFront(f: Finding, h: Finding, rest: seq<Finding>)
    ensures Ordering.Sort([f] + ([h] + rest), ByKey) ==
      Ordering.Insert(f, Ordering.Insert(h, Ordering.Sort(rest, ByKey), ByKey), ByKey)
  {
    assert ([f] + ([h] + rest))[1..] == [h] + rest && ([h] + rest)[1..] == rest;
  }

  /** One occurrence less. */
  function Without(s: seq<Finding>, f: Finding): (r: seq<Finding>)
    requires f in s
    ensures multiset(s) == multiset{f} + multiset(r)
  {
    assert s == [s[0]] + s[1..];
    if s[0] == f then s[1..] else [s[0]] + Without(s[1..], f)
  }

  /** A report shows the findings in the order they were sorted into. */
  lemma ReportShowsOrder(
    found: seq<Finding>, found': seq<Finding>, g: Lockfile.Graph, policy: Policy, today: int)
    requires multiset(found) == multiset(found')
    ensures ReportOf(found, g, policy, today) == ReportOf(found', g, policy, today) <==>
      Ordering.Sort(found, ByKey) == Ordering.Sort(found', ByKey)
  {
    var a, b := Ordering.Sort(found, ByKey), Ordering.Sort(found', ByKey);
    assert |multiset(found)| == |found| && |multiset(found')| == |found'|;
    if a != b {
      var i :| 0 <= i < |a| && a[i] != b[i];
      LineInReport(found, g, policy, today, i);
      LineInReport(found', g, policy, today, i);
    }
  }

  lemma LineInReport(found: seq<Finding>, g: Lockfile.Graph, policy: Policy, today: int, i: nat)
    requires i < |found|
    ensures var r := ReportOf(found, g, policy, today);
      i < |r| && r[i] == LineOf(g, policy, today, Ordering.Sort(found, ByKey)[i])
  {
    assert FindingLines(g, policy, today, Ordering.Sort(found, ByKey)) != [];
  }

  /** The report is the same under every permutation exactly when package and advisory tell the findings apart. */
  lemma ReportIgnoresOrder(found: seq<Finding>, g: Lockfile.Graph, policy: Policy, today: int)
    ensures (forall found' :: multiset(found) == multiset(found') ==>
      ReportOf(found, g, policy, today) == ReportOf(found', g, policy, today)) <==> Keyed(found)
  {
    forall found' | multiset(found) == multiset(found')
      ensures Keyed(found) ==> ReportOf(found, g, policy, today) == ReportOf(found', g, policy, today)
    {
      ReportShowsOrder(found, found', g, policy, today);
      if Keyed(found) {
        KeyedSortsAlike(found, found');
      }
    }
    if f, h :| f in found && h in found && SameKey(f, h) && f != h {
      var a, b := BroughtForward(found, f, h);
      ReportShowsOrder(found, a, g, policy, today);
      ReportShowsOrder(found, b, g, policy, today);
    }
  }

  // ---------------------------------------------------------------- in the words of the policy

  /** The text is the word, in whatever case. */
  predicate SpelledLike(s: string, word: string) {
    |s| == |word| && forall i :: 0 <= i < |s| ==> s[i] == word[i] || s[i] as int + 32 == word[i] as int
  }

  predicate SmallLetters(word: string) {
    forall i :: 0 <= i < |word| ==> 'a' <= word[i] <= 'z'
  }

  lemma LowerIsWord(s: string, word: string)
    requires SmallLetters(word)
    ensures Lower(s) == word <==> SpelledLike(s, word)
  {
    if SpelledLike(s, word) {
      forall i | 0 <= i < |s| ensures Lower(s)[i] == word[i] {}
    }
    if Lower(s) == word {
      forall i | 0 <= i < |s| ensures s[i] == word[i] || s[i] as int + 32 == word[i] as int {
        assert Lower(s)[i] == word[i];
      }
    }
  }

  /** Critical and high findings block, and those that nobody has rated. */
  lemma WhatBlocks(severity: string)
    ensures BlockingSeverity(severity) <==>
      SpelledLike(severity, "critical") || SpelledLike(severity, "high") || SpelledLike(severity, "unknown")
  {
    LowerIsWord(severity, "critical");
    LowerIsWord(severity, "high");
    LowerIsWord(severity, "unknown");
  }

  /** An advisory entry for this id that runs at least to the end of today. */
  predicate InForce(entry: Suppression, id: string, today: int) {
    entry.id == id && entry.kind == "advisory" && entry.expires >= today
  }

  /**
   The build fails exactly when some entry ran out before today, of whatever kind, or some finding
   of those severities has no entry in force and is not for developers alone.
   */
  lemma WhatFailsTheBuild(found: seq<Finding>, g: Lockfile.Graph, policy: Policy, today: int)
    ensures AnyExpired(policy, today) || AnyStops(found, g, policy, today) <==>
      (exists entry :: entry in policy && entry.expires < today) ||
      exists f :: f in found && BlockingSeverity(f.severity) &&
        Lockfile.BlastRadius(g, f.package) != "development only, not shipped to consumers" &&
        forall entry :: entry in policy ==> !InForce(entry, f.id, today)
  {
    forall f: Finding | f in found
      ensures Stops(g, policy, today, f) <==>
        BlockingSeverity(f.severity) && Lockfile.BlastRadius(g, f.package) != Lockfile.NOT_SHIPPED &&
        forall entry :: entry in policy ==> !InForce(entry, f.id, today)
    {
      Lockfile.BlastRadiusTells(g, f.package);
      SuppressedByEntry(policy, f.id, today);
    }
    forall entry ensures !Live(entry, today) <==> entry.expires < today {}
  }

  lemma SuppressedByEntry(policy: Policy, id: string, today: int)
    ensures Suppresses(policy, id, today) <==> exists entry :: entry in policy && InForce(entry, id, today)
  {
    if entry :| entry in policy && InForce(entry, id, today) {
      var i :| 0 <= i < |policy| && policy[i] == entry;
      assert Grants(policy[i], id, today);
    }
    if i :| 0 <= i < |policy| && Grants(policy[i], id, today) {
      assert policy[i] in policy && InForce(policy[i], id, today);
    }
  }

  /** The report goes by package, and by advisory within one. */
  lemma ReportIsInOrder(found: seq<Finding>, g: Lockfile.Graph, policy: Policy, today: int, i: nat, j: nat)
    requires i < j < |found|
    ensures var r := ReportOf(found, g, policy, today);
      j < |r| && r[i].Reported? && r[j].Reported? && r[i].finding in found && r[j].finding in found &&
      Ordering.Leq(r[i].finding.package, r[j].finding.package) &&
      (r[i].finding.package == r[j].finding.package ==> Ordering.Leq(r[i].finding.id, r[j].finding.id))
  {
    var sorted := Ordering.Sort(found, ByKey);
    LineInReport(found, g, policy, today, i);
    LineInReport(found, g, policy, today, j);
    ByKeyIsPreorder();
    Ordering.SortIsSorted(found, ByKey);
    Ordering.SameElements(sorted, found, sorted[i]);
    Ordering.SameElements(sorted, found, sorted[j]);
    Ordering.LeqTotal(sorted[i].package, sorted[i].package);
  }
}
