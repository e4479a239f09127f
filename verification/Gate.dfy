/** The release gate: what a version may not do to the published surface (tools/release_check.py). */
module Gate {
  import opened Wrappers
  import Ordering
  import opened ReleaseNumbers
  import opened Surface
  import opened Deprecations

  datatype Problem =
    | MustIncrease
    | NeedsBreakingRelease
    | NeedsMinorRelease
    | NoRecord(name: string)
    | TooEarly(name: string, removal: string)

  /** `parts` raised on this string. */
  datatype VersionError = NotARelease(version: string)

  /** The problems found, or the version string that could not be read. */
  type Listing = Result<seq<Problem>, VersionError>

  predicate BreakingRelease(was: Release, now: Release) {
    if now.major == 0 then now.minor > was.minor && now.patch == 0
    else now.major > was.major && now.minor == 0 && now.patch == 0
  }

  function Removed(baseline: map<string, string>, current: map<string, string>): set<string> {
    baseline.Keys - current.Keys
  }

  function Changed(baseline: map<string, string>, current: map<string, string>): set<string> {
    set k | k in baseline && k in current && baseline[k] != current[k]
  }

  function Reshaped(baseline: map<string, string>, current: map<string, string>): set<string> {
    set k | k in Changed(baseline, current) && !OnlyGrew(baseline[k], current[k])
  }

  function Grew(baseline: map<string, string>, current: map<string, string>): set<string> {
    set k | k in Changed(baseline, current) && OnlyGrew(baseline[k], current[k])
  }

  predicate AnyBreaking(baseline: map<string, string>, current: map<string, string>) {
    Removed(baseline, current) + Reshaped(baseline, current) != {}
  }

  predicate AnyAdded(baseline: map<string, string>, current: map<string, string>) {
    (current.Keys - baseline.Keys) + Grew(baseline, current) != {}
  }

  /** The names that need a deprecation record, removals first, each part sorted. */
  function BreakingNames(baseline: map<string, string>, current: map<string, string>): seq<string> {
    Ordering.SortSet(Removed(baseline, current)) + Ordering.SortSet(Reshaped(baseline, current))
  }

  /** The three version-number rules, in the order they are reported. */
  function NumberProblems(breaking: bool, added: bool, was: Release, now: Release): seq<Problem> {
    (if (breaking || added) && AtMost(now, was) then [MustIncrease] else []) +
    (if breaking && !BreakingRelease(was, now) then [NeedsBreakingRelease] else []) +
    (if added && !(now.major > was.major || now.minor > was.minor) then [NeedsMinorRelease] else [])
  }

  function VersionProblems(
    baseline: map<string, string>, current: map<string, string>, was: Release, now: Release): seq<Problem>
  {
    NumberProblems(AnyBreaking(baseline, current), AnyAdded(baseline, current), was, now)
  }

  /** The records by name: of several about one name, the last. */
  function Scheduled(records: seq<Record>): map<string, Record> {
    if records == [] then map[]
    else Scheduled(records[..|records| - 1])[records[|records| - 1].name := records[|records| - 1]]
  }

  function RecordProblem(scheduled: map<string, Record>, now: Release, name: string): Listing {
    if name !in scheduled then Ok([NoRecord(name)])
    else
      var removal := scheduled[name].removal;
      match Parts(removal)
      case None => Err(NotARelease(removal))
      case Some(due) => Ok(if Less(now, due) then [TooEarly(name, removal)] else [])
  }

  /** The record problems of every breaking name in turn, or the first date that cannot be read. */
  function RecordProblems(scheduled: map<string, Record>, now: Release, names: seq<string>): Listing {
    if names == [] then Ok([])
    else
      var front := RecordProblems(scheduled, now, names[..|names| - 1]);
      if front.Err? then front
      else
        match RecordProblem(scheduled, now, names[|names| - 1])
        case Err(e) => Err(e)
        case Ok(more) => Ok(front.value + more)
  }

  /** Everything the gate says about a release. */
  function Verdict(
    baseline: map<string, string>, current: map<string, string>, records: seq<Record>, was: Release, now: Release)
    : Listing
  {
    match RecordProblems(Scheduled(records), now, BreakingNames(baseline, current))
    case Err(e) => Err(e)
    case Ok(more) => Ok(VersionProblems(baseline, current, was, now) + more)
  }

  method Check(
    baseline: map<string, string>, current: map<string, string>, records: seq<Record>,
    baselineVersion: string, version: string)
    returns (r: Result<seq<Problem>, VersionError>)
    ensures match (Parts(baselineVersion), Parts(version))
      case (None, _) => r == Err(NotARelease(baselineVersion))
      case (Some(_), None) => r == Err(NotARelease(version))
      case (Some(was), Some(now)) => r == Verdict(baseline, current, records, was, now)
  {
    var breaking := BreakingNames(baseline, current);
    var added := Ordering.SortSet(current.Keys - baseline.Keys) + Ordering.SortSet(Grew(baseline, current));
    NamesOf(baseline, current);
    var parsedOld, parsedNew := Parts(baselineVersion), Parts(version);
    if parsedOld.None? {
      return Err(NotARelease(baselineVersion));
    }
    if parsedNew.None? {
      return Err(NotARelease(version));
    }
    var was, now := parsedOld.value, parsedNew.value;
    var problems := CheckNumbers(breaking != [], added != [], was, now);
    var more := CheckRecords(Scheduled(records), now, breaking);
    if more.Err? {
      return more;
    }
    return Ok(problems + more.value);
  }

  method CheckNumbers(breaking: bool, added: bool, was: Release, now: Release) returns (problems: seq<Problem>)
    ensures problems == NumberProblems(breaking, added, was, now)
  {
    problems := [];
    if (breaking || added) && AtMost(now, was) {
      problems := problems + [MustIncrease];
    }
    if breaking && !BreakingRelease(was, now) {
      problems := problems + [NeedsBreakingRelease];
    }
    if added && !(now.major > was.major || now.minor > was.minor) {
      problems := problems + [NeedsMinorRelease];
    }
  }

  method CheckRecords(scheduled: map<string, Record>, now: Release, breaking: seq<string>)
    returns (r: Result<seq<Problem>, VersionError>)
    ensures r == RecordProblems(scheduled, now, breaking)
  {
    var problems: seq<Problem> := [];
    for i := 0 to |breaking|
      invariant RecordProblems(scheduled, now, breaking[..i]) == Ok(problems)
    {
      var name := breaking[i];
      assert breaking[..i + 1][..i] == breaking[..i] && breaking[..i + 1][i] == name;
      assert problems + [] == problems;
      if name !in scheduled {
        problems := problems + [NoRecord(name)];
      } else {
        var due := Parts(scheduled[name].removal);
        if due.None? {
          Stuck(scheduled, now, breaking, i + 1);
          return Err(NotARelease(scheduled[name].removal));
        }
        if Less(now, due.value) {
          problems := problems + [TooEarly(name, scheduled[name].removal)];
        }
      }
    }
    assert breaking[..|breaking|] == breaking;
    return Ok(problems);
  }

  lemma NamesOf(baseline: map<string, string>, current: map<string, string>)
    ensures BreakingNames(baseline, current) != [] <==> AnyBreaking(baseline, current)
    ensures Ordering.SortSet(current.Keys - baseline.Keys) + Ordering.SortSet(Grew(baseline, current)) != [] <==>
      AnyAdded(baseline, current)
  {
    Ordering.SortedEmpty(Removed(baseline, current));
    Ordering.SortedEmpty(Reshaped(baseline, current));
    Ordering.SortedEmpty(current.Keys - baseline.Keys);
    Ordering.SortedEmpty(Grew(baseline, current));
  }

  /** The first unreadable removal date is what the whole check raises. */
  lemma {:induction false} Stuck(scheduled: map<string, Record>, now: Release, names: seq<string>, i: nat)
    requires i <= |names| && RecordProblems(scheduled, now, names[..i]).Err?
    ensures RecordProblems(scheduled, now, names) == RecordProblems(scheduled, now, names[..i])
    decreases |names|
  {
    if i == |names| {
      assert names[..i] == names;
    } else {
      assert names[..|names| - 1][..i] == names[..i];
      Stuck(scheduled, now, names[..|names| - 1], i);
    }
  }

  // ---------------------------------------------------------------- what a verdict says

  /** The removal date on record is no release number. */
  predicate Unreadable(scheduled: map<string, Record>, name: string) {
    name in scheduled && Parts(scheduled[name].removal).None?
  }

  /** The promise on record falls due after `now`. */
  predicate DueLater(scheduled: map<string, Record>, now: Release, name: string) {
    name in scheduled && Parts(scheduled[name].removal).Some? && Less(now, Parts(scheduled[name].removal).value)
  }

  /** Removing or changing the name now breaks a promise, or was never announced. */
  predicate Unannounced(scheduled: map<string, Record>, now: Release, name: string) {
    name !in scheduled || DueLater(scheduled, now, name)
  }

  /** The problem is true of one of the names. */
  predicate TrueOf(scheduled: map<string, Record>, now: Release, names: seq<string>, p: Problem) {
    match p
    case NoRecord(n) => n in names && n !in scheduled
    case TooEarly(n, removal) => n in names && DueLater(scheduled, now, n) && scheduled[n].removal == removal
    case _ => false
  }

  function NameOf(p: Problem): string {
    match p case NoRecord(n) => n case TooEarly(n, _) => n case _ => ""
  }

  function NamesIn(problems: seq<Problem>): (names: seq<string>)
    ensures |names| == |problems|
  {
    seq(|problems|, i requires 0 <= i < |problems| => NameOf(problems[i]))
  }

  /** `error` is that of the first name whose date cannot be read. */
  predicate FirstUnreadable(scheduled: map<string, Record>, names: seq<string>, error: VersionError) {
    exists i :: 0 <= i < |names| && Unreadable(scheduled, names[i]) &&
      error == NotARelease(scheduled[names[i]].removal) && forall j :: 0 <= j < i ==> !Unreadable(scheduled, names[j])
  }

  /**
   A verdict on names is reached exactly when every date on record can be read. It lists what is
   true of the names and nothing else, once for each name at fault, in the order of the names.
   */
  predicate Says(scheduled: map<string, Record>, now: Release, names: seq<string>, r: Listing) {
    (r.Ok? <==> forall n :: n in names ==> !Unreadable(scheduled, n)) &&
    (r.Ok? ==> ListsFaults(scheduled, now, names, r.value)) &&
    (r.Err? ==> FirstUnreadable(scheduled, names, r.error))
  }

  predicate ListsFaults(scheduled: map<string, Record>, now: Release, names: seq<string>, problems: seq<Problem>) {
    (forall i :: 0 <= i < |problems| ==> TrueOf(scheduled, now, names, problems[i])) &&
    NamesIn(problems) == Ordering.Filter(names, (n: string) => Unannounced(scheduled, now, n))
  }

  lemma {:induction false} RecordProblemsSay(scheduled: map<string, Record>, now: Release, names: seq<string>)
    ensures Says(scheduled, now, names, RecordProblems(scheduled, now, names))
  {
    if names != [] {
      var front, last := names[..|names| - 1], names[|names| - 1];
      assert names == front + [last];
      RecordProblemsSay(scheduled, now, front);
      var before := RecordProblems(scheduled, now, front);
      if before.Err? {
        StillUnreadable(scheduled, front, last, before.error);
      } else if Unreadable(scheduled, last) {
        NowUnreadable(scheduled, front, last);
      } else {
        OneMoreName(scheduled, now, front, last, before.value, RecordProblem(scheduled, now, last).value);
      }
    }
  }

  lemma StillUnreadable(scheduled: map<string, Record>, front: seq<string>, last: string, error: VersionError)
    requires FirstUnreadable(scheduled, front, error)
    ensures FirstUnreadable(scheduled, front + [last], error)
    ensures exists n :: n in front + [last] && Unreadable(scheduled, n)
  {
    var names := front + [last];
    var i :| 0 <= i < |front| && Unreadable(scheduled, front[i]) &&
      error == NotARelease(scheduled[front[i]].removal) && forall j :: 0 <= j < i ==> !Unreadable(scheduled, front[j]);
    assert names[i] == front[i] && forall j :: 0 <= j < i ==> names[j] == front[j];
    assert names[i] in names;
  }

  lemma NowUnreadable(scheduled: map<string, Record>, front: seq<string>, last: string)
    requires Unreadable(scheduled, last) && forall n :: n in front ==> !Unreadable(scheduled, n)
    ensures FirstUnreadable(scheduled, front + [last], NotARelease(scheduled[last].removal))
    ensures last in front + [last]
  {
    var names := front + [last];
    assert names[|front|] == last && forall j :: 0 <= j < |front| ==> names[j] == front[j] && front[j] in front;
  }

  lemma OneMoreName(
    scheduled: map<string, Record>, now: Release, front: seq<string>, last: string,
    before: seq<Problem>, more: seq<Problem>)
    requires ListsFaults(scheduled, now, front, before) && RecordProblem(scheduled, now, last) == Ok(more)
    ensures ListsFaults(scheduled, now, front + [last], before + more)
  {
    var names, faulty := front + [last], (n: string) => Unannounced(scheduled, now, n);
    assert NamesIn(before + more) == NamesIn(before) + NamesIn(more);
    assert NamesIn(more) == if faulty(last) then [last] else [];
    assert names[..|names| - 1] == front;
    forall i | 0 <= i < |before + more| ensures TrueOf(scheduled, now, names, (before + more)[i]) {
      if i < |before| {
        assert TrueOf(scheduled, now, front, before[i]);
      }
    }
  }

  /** So a problem is listed exactly when it is true of one of the names. */
  lemma ListedIsTrue(
    scheduled: map<string, Record>, now: Release, names: seq<string>, problems: seq<Problem>, p: Problem)
    requires ListsFaults(scheduled, now, names, problems)
    ensures p in problems <==> TrueOf(scheduled, now, names, p)
  {
    if TrueOf(scheduled, now, names, p) {
      assert NameOf(p) in NamesIn(problems);
      var i :| 0 <= i < |problems| && NamesIn(problems)[i] == NameOf(p);
      assert TrueOf(scheduled, now, names, problems[i]);
    }
  }

  /** The problem is true of the release. */
  predicate TrueOfRelease(
    baseline: map<string, string>, current: map<string, string>, records: seq<Record>, was: Release, now: Release,
    p: Problem)
  {
    match p
    case MustIncrease => baseline != current && AtMost(now, was)
    case NeedsBreakingRelease => AnyBreaking(baseline, current) && !BreakingRelease(was, now)
    case NeedsMinorRelease => AnyAdded(baseline, current) && now.major <= was.major && now.minor <= was.minor
    case _ => TrueOf(Scheduled(records), now, BreakingNames(baseline, current), p)
  }

  /** Some name broke or was added exactly when the two surfaces differ. */
  lemma AnyChangeIsSeen(baseline: map<string, string>, current: map<string, string>)
    ensures AnyBreaking(baseline, current) || AnyAdded(baseline, current) <==> baseline != current
  {
    if baseline != current {
      var k :|
        (k in baseline <==> k !in current) || (k in baseline && k in current && baseline[k] != current[k]);
      assert k in baseline && k !in current ==> k in Removed(baseline, current);
      assert k in baseline && k in current ==> k in Reshaped(baseline, current) || k in Grew(baseline, current);
    }
  }

  /** From surfaces and records to the printed list: it holds what is true of the release, and nothing else. */
  lemma VerdictSays(
    baseline: map<string, string>, current: map<string, string>, records: seq<Record>, was: Release, now: Release)
    ensures var scheduled, names := Scheduled(records), BreakingNames(baseline, current);
      var r := Verdict(baseline, current, records, was, now);
      (r.Ok? <==>
        forall n :: n in Removed(baseline, current) + Reshaped(baseline, current) ==> !Unreadable(scheduled, n)) &&
      (r.Ok? ==> forall p :: p in r.value <==> TrueOfRelease(baseline, current, records, was, now, p)) &&
      (r.Err? ==> FirstUnreadable(scheduled, names, r.error))
  {
    var scheduled, names := Scheduled(records), BreakingNames(baseline, current);
    RecordProblemsSay(scheduled, now, names);
    var more := RecordProblems(scheduled, now, names);
    forall p | more.Ok? ensures p in more.value <==> TrueOf(scheduled, now, names, p) {
      ListedIsTrue(scheduled, now, names, more.value, p);
    }
    AnyChangeIsSeen(baseline, current);
    NumberProblemsSay(AnyBreaking(baseline, current), AnyAdded(baseline, current), was, now);
    assert forall n :: n in names <==> n in Removed(baseline, current) + Reshaped(baseline, current);
  }

  lemma NumberProblemsSay(breaking: bool, added: bool, was: Release, now: Release)
    ensures forall p :: p in NumberProblems(breaking, added, was, now) <==>
      match p
      case MustIncrease => (breaking || added) && AtMost(now, was)
      case NeedsBreakingRelease => breaking && !BreakingRelease(was, now)
      case NeedsMinorRelease => added && now.major <= was.major && now.minor <= was.minor
      case _ => false
  {
  }

  // ---------------------------------------------------------------- in the words of the surfaces and the records

  /** The name is gone, or is described otherwise and did not merely grow. */
  predicate Broken(baseline: map<string, string>, current: map<string, string>, n: string) {
    n in baseline && (n in current ==> baseline[n] != current[n] && !OnlyGrew(baseline[n], current[n]))
  }

  /** The name is new, or a class that grew. */
  predicate Appeared(baseline: map<string, string>, current: map<string, string>, n: string) {
    n in current && (n in baseline ==> baseline[n] != current[n] && OnlyGrew(baseline[n], current[n]))
  }

  /** What is broken, what needs a record, and what counts as added. */
  lemma WhatBreaks(baseline: map<string, string>, current: map<string, string>)
    ensures forall n :: n in BreakingNames(baseline, current) <==> Broken(baseline, current, n)
    ensures AnyBreaking(baseline, current) <==> exists n :: Broken(baseline, current, n)
    ensures AnyAdded(baseline, current) <==> exists n :: Appeared(baseline, current, n)
  {
    forall n ensures n in Removed(baseline, current) + Reshaped(baseline, current) <==> Broken(baseline, current, n) {}
    forall n
      ensures n in (current.Keys - baseline.Keys) + Grew(baseline, current) <==> Appeared(baseline, current, n) {}
    if n :| Broken(baseline, current, n) {
      assert n in Removed(baseline, current) + Reshaped(baseline, current);
    }
    if n :| Appeared(baseline, current, n) {
      assert n in (current.Keys - baseline.Keys) + Grew(baseline, current);
    }
  }

  /** The names are listed removals first, and each part is in order. */
  lemma RemovalsComeFirst(baseline: map<string, string>, current: map<string, string>)
    ensures var names, cut := BreakingNames(baseline, current), |Ordering.SortSet(Removed(baseline, current))|;
      cut <= |names| && Ordering.Ascending(names[..cut]) && Ordering.Ascending(names[cut..]) &&
      (forall n :: n in names[..cut] <==> n in baseline && n !in current) &&
      forall n :: n in names[cut..] ==> n in current
  {
    var names, cut := BreakingNames(baseline, current), |Ordering.SortSet(Removed(baseline, current))|;
    assert names[..cut] == Ordering.SortSet(Removed(baseline, current));
    assert names[cut..] == Ordering.SortSet(Reshaped(baseline, current));
  }

  /** The last record about the name. */
  predicate LastAbout(records: seq<Record>, i: nat, n: string) {
    i < |records| && records[i].name == n && forall j :: i < j < |records| ==> records[j].name != n
  }

  /** Every name with a record is scheduled, by its last one, and no other is. */
  lemma {:induction false} LastRecordWins(records: seq<Record>, n: string)
    ensures n in Scheduled(records) <==> exists i :: 0 <= i < |records| && records[i].name == n
    ensures n in Scheduled(records) <==> exists i: nat :: LastAbout(records, i, n)
    ensures forall i: nat :: LastAbout(records, i, n) ==> n in Scheduled(records) && Scheduled(records)[n] == records[i]
  {
    if records != [] {
      var front, last := records[..|records| - 1], records[|records| - 1];
      assert records == front + [last];
      LastRecordWins(front, n);
      if last.name == n {
        assert LastAbout(records, |records| - 1, n);
      } else {
        forall i: nat ensures LastAbout(records, i, n) <==> LastAbout(front, i, n) {
          SameLast(front, last, i, n);
        }
      }
    }
  }

  lemma SameLast(front: seq<Record>, last: Record, i: nat, n: string)
    requires last.name != n
    ensures LastAbout(front + [last], i, n) <==> LastAbout(front, i, n)
  {
    var records := front + [last];
    assert forall j :: 0 <= j < |front| ==> records[j] == front[j];
    if LastAbout(front, i, n) {
      forall j | i < j < |records| ensures records[j].name != n {
        assert j == |front| || records[j] == front[j];
      }
    }
  }

  predicate HasNoRecord(records: seq<Record>, n: string) {
    forall i :: 0 <= i < |records| ==> records[i].name != n
  }

  /** The last record about the name gives this removal date, and it is still to come. */
  predicate StillPromised(records: seq<Record>, now: Release, n: string, removal: string) {
    exists i :: 0 <= i < |records| && LastAbout(records, i, n) && records[i].removal == removal &&
      Parts(removal).Some? && Less(now, Parts(removal).value)
  }

  /** The last record about the name has a date that cannot be read. */
  ghost predicate Illegible(records: seq<Record>, n: string) {
    exists i: nat :: LastAbout(records, i, n) && Parts(records[i].removal).None?
  }

  lemma ScheduledTells(records: seq<Record>, now: Release, n: string, removal: string)
    ensures n !in Scheduled(records) <==> HasNoRecord(records, n)
    ensures Unreadable(Scheduled(records), n) <==> Illegible(records, n)
    ensures DueLater(Scheduled(records), now, n) && Scheduled(records)[n].removal == removal <==>
      StillPromised(records, now, n, removal)
  {
    LastRecordWins(records, n);
    if n in Scheduled(records) {
      var i: nat :| LastAbout(records, i, n);
      assert Scheduled(records)[n] == records[i];
    }
  }

  /**
   The whole verdict in those words. One is reached exactly when every broken name that has a record
   has a readable date on its last one; then each problem is reported exactly when it is there.
   */
  lemma VerdictOnRelease(
    baseline: map<string, string>, current: map<string, string>, records: seq<Record>, was: Release, now: Release,
    p: Problem)
    ensures Verdict(baseline, current, records, was, now).Ok? <==>
      forall n :: Broken(baseline, current, n) ==> !Illegible(records, n)
    ensures var r := Verdict(baseline, current, records, was, now);
      r.Ok? ==> (p in r.value <==>
        match p
        case MustIncrease => baseline != current && AtMost(now, was)
        case NeedsBreakingRelease => (exists n :: Broken(baseline, current, n)) && !BreakingRelease(was, now)
        case NeedsMinorRelease =>
          (exists n :: Appeared(baseline, current, n)) && now.major <= was.major && now.minor <= was.minor
        case NoRecord(n) => Broken(baseline, current, n) && HasNoRecord(records, n)
        case TooEarly(n, removal) => Broken(baseline, current, n) && StillPromised(records, now, n, removal))
  {
    VerdictSays(baseline, current, records, was, now);
    WhatBreaks(baseline, current);
    forall n ensures Unreadable(Scheduled(records), n) <==> Illegible(records, n) {
      ScheduledTells(records, now, n, "");
    }
    assert forall n :: n in Removed(baseline, current) + Reshaped(baseline, current) <==> Broken(baseline, current, n);
    if p.NoRecord? || p.TooEarly? {
      ScheduledTells(records, now, p.name, if p.TooEarly? then p.removal else "");
    }
  }

  /** A changed name that is no class, before or after, needs a breaking release and a record. */
  lemma ChangedFunctionBreaks(
    baseline: map<string, string>, current: map<string, string>, records: seq<Record>, was: Release, now: Release,
    n: string)
    requires n in baseline && n in current && baseline[n] != current[n]
    requires !("class " <= baseline[n]) || !("class " <= current[n])
    ensures var r := Verdict(baseline, current, records, was, now);
      (r.Ok? ==> (NeedsBreakingRelease in r.value <==> !BreakingRelease(was, now))) &&
      (r.Ok? ==> (NoRecord(n) in r.value <==> HasNoRecord(records, n)))
  {
    if OnlyGrew(baseline[n], current[n]) {
      OnlyClassesGrow(baseline[n], current[n]);
    }
    assert Broken(baseline, current, n);
    VerdictOnRelease(baseline, current, records, was, now, NeedsBreakingRelease);
    VerdictOnRelease(baseline, current, records, was, now, NoRecord(n));
  }
}
