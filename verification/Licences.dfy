/** Licence acceptance: identifiers, recorded decisions and one-off acceptances (tools/licences.py). */
module Licences {
  import opened Wrappers
  import Ordering
  import Text
  import opened Lockfile
  import opened Expressions

  // ---------------------------------------------------------------- identifiers

  function Trim(s: string): string {
    Text.Strip(s, Text.IsSpace)
  }

  const ALIASES := map[
    "3-clause bsd license" := "BSD-3-Clause",
    "bsd-3-clause license" := "BSD-3-Clause",
    "2-clause bsd license" := "BSD-2-Clause",
    "mit license" := "MIT",
    "apache license 2.0" := "Apache-2.0",
    "apache software license" := "Apache-2.0",
    "the unlicense (unlicense)" := "Unlicense"
  ]

  /** Normalise the prose older distributions declare. */
  function Spdx(licence: string): string {
    var key := Fold(Trim(licence));
    if key in ALIASES then ALIASES[key] else Trim(licence)
  }

  lemma {:induction false} FoldStripLeft(s: string)
    ensures Text.StripLeft(Fold(s), Text.IsSpace) == Fold(Text.StripLeft(s, Text.IsSpace))
  {
    if s != "" && Text.IsSpace(s[0]) {
      assert Fold(s)[1..] == Fold(s[1..]);
      FoldStripLeft(s[1..]);
    }
  }

  lemma {:induction false} FoldStripRight(s: string)
    ensures Text.StripRight(Fold(s), Text.IsSpace) == Fold(Text.StripRight(s, Text.IsSpace))
  {
    if s != "" && Text.IsSpace(s[|s| - 1]) {
      assert Fold(s)[..|s| - 1] == Fold(s[..|s| - 1]);
      FoldStripRight(s[..|s| - 1]);
    }
  }

  lemma TrimFold(s: string)
    ensures Trim(Fold(s)) == Fold(Trim(s))
  {
    FoldStripLeft(s);
    FoldStripRight(Text.StripLeft(s, Text.IsSpace));
  }

  // ---------------------------------------------------------------- the policy

  datatype Decision = Decision(package: string, licence: string, owner: string, reason: string)

  datatype Policy = Policy(
    allowed: set<string>, decisions: map<string, Decision>, acceptances: map<string, Decision>)

  predicate Permits(policy: Policy, licence: string, package: string) {
    var wanted := Fold(Spdx(licence));
    wanted in (set entry | entry in policy.allowed :: Fold(entry)) ||
    (package in policy.acceptances && Fold(policy.acceptances[package].licence) == wanted)
  }

  /** A licence is matched regardless of case, prose aliases included. */
  lemma PermitsIgnoresCase(policy: Policy, a: string, b: string, package: string)
    requires Fold(a) == Fold(b)
    ensures Permits(policy, a, package) == Permits(policy, b, package)
  {
    TrimFold(a);
    TrimFold(b);
    assert Fold(Spdx(a)) == Fold(Spdx(b));
  }

  /** As the policy reads a licence: no outer white space, and no prose that stands for an identifier. */
  predicate Normal(licence: string) {
    Text.Trimmed(licence, Text.IsSpace) && Fold(licence) !in ALIASES
  }

  /** A space, not followed by the word `and`. */
  predicate FirstGap(key: string, p: nat) {
    p + 1 < |key| && key[p] == ' ' && key[p + 1] != 'a' && forall j :: 0 <= j < p ==> key[j] != ' '
  }

  lemma FamilyGaps()
    ensures FirstGap("3-clause bsd license", 8) && FirstGap("2-clause bsd license", 8)
    ensures FirstGap("bsd-3-clause license", 12) && FirstGap("mit license", 3)
  {
  }

  lemma AliasesHaveGaps()
    ensures forall key :: key in ALIASES ==> exists p: nat :: FirstGap(key, p)
  {
    FamilyGaps();
    assert FirstGap("apache license 2.0", 6) && FirstGap("apache software license", 6);
    assert FirstGap("the unlicense (unlicense)", 3);
  }

  lemma SolidIsNormal(s: string)
    requires Solid(s)
    ensures Normal(s)
  {
    AliasesHaveGaps();
    SolidHasNoGap(s);
  }

  lemma SolidHasNoGap(s: string)
    requires Solid(s)
    ensures forall p: nat :: !FirstGap(Fold(s), p)
  {
    forall p: nat | p < |s| ensures Fold(s)[p] != ' ' {
      assert Fold(s)[p] == FoldChar(s[p]);
    }
  }

  lemma AliasesAreSolid()
    ensures forall key :: key in ALIASES ==> Solid(ALIASES[key])
  {
  }

  /** Whatever is asked about, it is asked about in normal form. */
  lemma SpdxIsNormal(licence: string)
    ensures Normal(Spdx(licence))
  {
    if Fold(Trim(licence)) in ALIASES {
      AliasesAreSolid();
      SolidIsNormal(Spdx(licence));
    } else {
      Text.StripTrims(licence, Text.IsSpace);
    }
  }

  lemma NormalIgnoresCase(a: string, b: string)
    requires Fold(a) == Fold(b)
    ensures Normal(a) == Normal(b)
  {
    assert |a| == |Fold(a)| && |b| == |Fold(b)|;
    if a != "" {
      assert FoldChar(a[0]) == Fold(a)[0] == FoldChar(b[0]);
      assert FoldChar(a[|a| - 1]) == Fold(a)[|a| - 1] == FoldChar(b[|a| - 1]);
    }
  }

  /**
   An acceptance is compared as written, while the licence asked about is normalised. So a record in
   normal form permits the licence it names, and any other record permits nothing whatever.
   */
  lemma AcceptanceMustBeNormal(policy: Policy, package: string)
    requires package in policy.acceptances
    ensures var named := policy.acceptances[package].licence;
      (Normal(named) ==> Permits(policy, named, package)) &&
      (!Normal(named) ==> forall licence ::
        Permits(policy, licence, package) <==> Permits(policy.(acceptances := map[]), licence, package))
  {
    var named := policy.acceptances[package].licence;
    if Normal(named) {
      Text.StripFixed(named, Text.IsSpace);
    } else {
      forall licence ensures Fold(named) != Fold(Spdx(licence)) {
        SpdxIsNormal(licence);
        if Fold(named) == Fold(Spdx(licence)) {
          NormalIgnoresCase(named, Spdx(licence));
        }
      }
    }
  }

  /** Accepted for `p` as "MIT License", MIT is not permitted for it under either name. */
  lemma ProseAcceptanceIsIgnored()
    ensures var policy := Policy({"ISC"}, map[], map["p" := Decision("p", "MIT License", "o", "r")]);
      !Permits(policy, "MIT License", "p") && !Permits(policy, "MIT", "p")
  {
    assert Text.Trimmed("MIT License", Text.IsSpace) && Text.Trimmed("MIT", Text.IsSpace);
    Text.StripFixed("MIT License", Text.IsSpace);
    Text.StripFixed("MIT", Text.IsSpace);
    assert Fold("MIT License") == "mit license";
    assert Fold("MIT") == "mit" && Fold("ISC") == "isc";
    assert "mit" !in ALIASES;
  }

  // ---------------------------------------------------------------- loading

  datatype LicenceError =
    | NoneAllowed
    | Missing(fields: set<string>)
    | Unknown(fields: set<string>)
    | Forbidden(package: string, licence: string)

  type Table = map<string, string>

  const REQUIRED := {"package", "licence", "owner", "reason"}

  function MissingFields(entry: Table): set<string> {
    set f | f in REQUIRED && (f !in entry || entry[f] == "")
  }

  predicate Complete(entry: Table) {
    MissingFields(entry) == {} && entry.Keys <= REQUIRED
  }

  function AsDecision(entry: Table): Decision
    requires Complete(entry)
  {
    CompleteHasAll(entry);
    Decision(entry["package"], entry["licence"], entry["owner"], entry["reason"])
  }

  lemma CompleteHasAll(entry: Table)
    requires Complete(entry)
    ensures REQUIRED <= entry.Keys
  {
    forall f | f in REQUIRED ensures f in entry {
      assert f !in MissingFields(entry);
    }
  }

  function ReadDecision(entry: Table): Result<Decision, LicenceError> {
    if MissingFields(entry) != {} then Err(Missing(MissingFields(entry)))
    else if entry.Keys - REQUIRED != {} then Err(Unknown(entry.Keys - REQUIRED))
    else Ok(AsDecision(entry))
  }

  /** Records keyed by package: the last one about a package is the one kept. */
  function ByPackage(entries: seq<Table>): map<string, Decision>
    requires AllComplete(entries)
  {
    if entries == [] then map[]
    else
      var last := AsDecision(entries[|entries| - 1]);
      ByPackage(entries[..|entries| - 1])[last.package := last]
  }

  method Load(allowed: set<string>, acceptance: seq<Table>, decision: seq<Table>)
    returns (r: Result<Policy, LicenceError>)
    ensures r.Ok? <==>
      allowed != {} && AllComplete(acceptance) && AllComplete(decision) &&
      AllPermitted(Policy(allowed, map[], ByPackage(acceptance)), decision)
    ensures r.Ok? ==> r.value == Policy(allowed, ByPackage(decision), ByPackage(acceptance)) && Coherent(r.value)
    ensures r.Ok? ==> Keeps(r.value.acceptances, acceptance) && Keeps(r.value.decisions, decision)
    ensures allowed == {} ==> r == Err(NoneAllowed)
    ensures r.Err? && allowed != {} && !AllComplete(acceptance) ==> exists i :: Malformed(acceptance, i, r.error)
    ensures r.Err? && allowed != {} && AllComplete(acceptance) ==>
      exists i :: Refused(Policy(allowed, map[], ByPackage(acceptance)), decision, i, r.error)
  {
    if allowed == {} {
      return Err(NoneAllowed);
    }
    var policy := Policy(allowed, map[], map[]);
    // A decision can rest on an acceptance, so those are all read before the first decision.
    for i := 0 to |acceptance|
      invariant AllComplete(acceptance[..i])
      invariant policy == Policy(allowed, map[], ByPackage(acceptance[..i]))
    {
      CompleteMore(acceptance, i);
      var accepted := ReadDecision(acceptance[i]);
      if accepted.Err? {
        assert Malformed(acceptance, i, accepted.error);
        return Err(accepted.error);
      }
      policy := policy.(acceptances := policy.acceptances[accepted.value.package := accepted.value]);
    }
    assert acceptance[..|acceptance|] == acceptance;
    r := TakeDecisions(policy, decision);
    ByPackageKeeps(acceptance);
    if r.Ok? {
      ByPackageKeeps(decision);
    }
  }

  /** The table has the four fields of a record, none of them empty, and no other. */
  predicate Filled(entry: Table) {
    entry.Keys == {"package", "licence", "owner", "reason"} &&
    entry["package"] != "" && entry["licence"] != "" && entry["owner"] != "" && entry["reason"] != ""
  }

  /** The record holds what the table holds under its four names. */
  predicate Records(d: Decision, entry: Table) {
    Filled(entry) && d.package == entry["package"] && d.licence == entry["licence"] &&
    d.owner == entry["owner"] && d.reason == entry["reason"]
  }

  lemma CompleteIsFilled(entry: Table)
    ensures Complete(entry) <==> Filled(entry)
    ensures Complete(entry) ==> Records(AsDecision(entry), entry)
  {
    if Complete(entry) {
      CompleteHasAll(entry);
      assert forall f :: f in REQUIRED ==> f !in MissingFields(entry);
    }
    if Filled(entry) {
      assert MissingFields(entry) == {};
    }
  }

  /** A table that is no record is refused for the fields it lacks, or else for those it has too many. */
  lemma RecordFaults(entry: Table)
    ensures var fields := {"package", "licence", "owner", "reason"};
      var missing := set f | f in fields && (f !in entry || entry[f] == "");
      match ReadDecision(entry)
      case Ok(d) => Records(d, entry)
      case Err(e) => !Filled(entry) && e == if missing != {} then Missing(missing) else Unknown(entry.Keys - fields)
  {
    CompleteIsFilled(entry);
  }

  /** What the policy must permit is the licence of each table, for its package. */
  lemma PermittedByTable(policy: Policy, entries: seq<Table>)
    ensures AllComplete(entries) <==> forall i :: 0 <= i < |entries| ==> Filled(entries[i])
    ensures AllComplete(entries) ==>
      (AllPermitted(policy, entries) <==> forall i :: 0 <= i < |entries| ==>
        "licence" in entries[i] && "package" in entries[i] &&
        Permits(policy, entries[i]["licence"], entries[i]["package"]))
  {
    forall i | 0 <= i < |entries|
      ensures Complete(entries[i]) <==> Filled(entries[i])
      ensures Complete(entries[i]) ==> Records(AsDecision(entries[i]), entries[i])
    {
      CompleteIsFilled(entries[i]);
    }
  }

  predicate About(entry: Table, package: string) {
    "package" in entry && entry["package"] == package
  }

  /** No later table is about the same package. */
  predicate LastTable(entries: seq<Table>, i: nat, package: string) {
    i < |entries| && About(entries[i], package) && forall j :: i < j < |entries| ==> !About(entries[j], package)
  }

  /** Each package has the record that its last table gives, and no other package has one. */
  ghost predicate Keeps(kept: map<string, Decision>, entries: seq<Table>) {
    (forall p :: p in kept <==> exists i :: 0 <= i < |entries| && About(entries[i], p)) &&
    forall p, i: nat :: LastTable(entries, i, p) ==> p in kept && Records(kept[p], entries[i])
  }

  lemma {:induction false} ByPackageKeeps(entries: seq<Table>)
    requires AllComplete(entries)
    ensures Keeps(ByPackage(entries), entries)
  {
    if entries != [] {
      var front, last := entries[..|entries| - 1], entries[|entries| - 1];
      assert entries == front + [last];
      ByPackageKeeps(front);
      CompleteIsFilled(last);
      KeepsMore(ByPackage(front), front, last, AsDecision(last));
    }
  }

  lemma KeepsMore(kept: map<string, Decision>, front: seq<Table>, last: Table, d: Decision)
    requires Keeps(kept, front) && Records(d, last)
    ensures Keeps(kept[d.package := d], front + [last])
  {
    var entries, more := front + [last], kept[d.package := d];
    assert forall i :: 0 <= i < |front| ==> entries[i] == front[i];
    forall p ensures p in more <==> exists i :: 0 <= i < |entries| && About(entries[i], p) {
      if p == d.package {
        assert About(entries[|front|], p);
      } else if i :| 0 <= i < |entries| && About(entries[i], p) {
        assert About(front[i], p);
      }
    }
    forall p, i: nat | LastTable(entries, i, p) ensures p in more && Records(more[p], entries[i]) {
      if p == d.package {
        assert About(entries[|front|], p);
      } else {
        assert LastTable(front, i, p);
      }
    }
  }

  /** The first entry that is not a record, and what is wrong with it. */
  predicate Malformed(entries: seq<Table>, i: nat, error: LicenceError) {
    i < |entries| && AllComplete(entries[..i]) && ReadDecision(entries[i]) == Err(error)
  }

  /** The first entry that is not a record or takes a licence its package may not have. */
  predicate Refused(policy: Policy, entries: seq<Table>, i: nat, error: LicenceError) {
    i < |entries| && AllComplete(entries[..i]) && AllPermitted(policy, entries[..i]) &&
    (ReadDecision(entries[i]) == Err(error) ||
     (Complete(entries[i]) && Barred(policy, AsDecision(entries[i])) &&
      error == Forbidden(AsDecision(entries[i]).package, AsDecision(entries[i]).licence)))
  }

  predicate Barred(policy: Policy, d: Decision) {
    !Permits(policy, d.licence, d.package)
  }

  method TakeDecisions(accepting: Policy, decision: seq<Table>) returns (r: Result<Policy, LicenceError>)
    requires accepting.decisions == map[]
    ensures r.Ok? <==> AllComplete(decision) && AllPermitted(accepting, decision)
    ensures r.Ok? ==> r.value == accepting.(decisions := ByPackage(decision)) && Coherent(r.value)
    ensures r.Err? ==> exists i :: Refused(accepting, decision, i, r.error)
  {
    var policy := accepting;
    for i := 0 to |decision|
      invariant TakenSoFar(accepting, decision, i, policy)
    {
      TakeMore(accepting, decision, i, policy);
      var taken := ReadDecision(decision[i]);
      if taken.Err? {
        return Err(taken.error);
      }
      if !Permits(policy, taken.value.licence, taken.value.package) {
        return Err(Forbidden(taken.value.package, taken.value.licence));
      }
      policy := policy.(decisions := policy.decisions[taken.value.package := taken.value]);
    }
    assert decision[..|decision|] == decision;
    return Ok(policy);
  }

  predicate TakenSoFar(accepting: Policy, decision: seq<Table>, i: nat, policy: Policy) {
    i <= |decision| && AllComplete(decision[..i]) && AllPermitted(accepting, decision[..i]) &&
    policy == accepting.(decisions := ByPackage(decision[..i])) && Coherent(policy)
  }

  lemma TakeMore(accepting: Policy, decision: seq<Table>, i: nat, policy: Policy)
    requires i < |decision| && TakenSoFar(accepting, decision, i, policy)
    ensures ReadDecision(decision[i]).Err? ==>
      !AllComplete(decision) && Refused(accepting, decision, i, ReadDecision(decision[i]).error)
    ensures ReadDecision(decision[i]).Ok? ==>
      var taken := ReadDecision(decision[i]).value;
      (Permits(policy, taken.licence, taken.package) ==>
        TakenSoFar(accepting, decision, i + 1, policy.(decisions := policy.decisions[taken.package := taken]))) &&
      (!Permits(policy, taken.licence, taken.package) ==>
        (AllComplete(decision) ==> !AllPermitted(accepting, decision)) &&
        Refused(accepting, decision, i, Forbidden(taken.package, taken.licence)))
  {
    CompleteMore(decision, i);
    if ReadDecision(decision[i]).Ok? {
      PermittedMore(accepting, decision, i);
      SamePermits(accepting, policy);
      var taken := ReadDecision(decision[i]).value;
      if Permits(policy, taken.licence, taken.package) {
        CoherentMore(policy, taken);
      }
    }
  }

  /** What a policy permits does not depend on the decisions taken so far. */
  lemma SamePermits(policy: Policy, other: Policy)
    requires policy.allowed == other.allowed && policy.acceptances == other.acceptances
    ensures forall l, p :: Permits(policy, l, p) == Permits(other, l, p)
  {
  }

  lemma CoherentMore(policy: Policy, taken: Decision)
    requires Coherent(policy) && Permits(policy, taken.licence, taken.package)
    ensures Coherent(policy.(decisions := policy.decisions[taken.package := taken]))
  {
    SamePermits(policy, policy.(decisions := policy.decisions[taken.package := taken]));
  }

  predicate AllComplete(entries: seq<Table>) {
    forall i :: 0 <= i < |entries| ==> Complete(entries[i])
  }

  /** Each decision takes a licence that the policy permits for its package. */
  predicate AllPermitted(policy: Policy, entries: seq<Table>)
    requires AllComplete(entries)
  {
    forall i :: 0 <= i < |entries| ==> Permits(policy, AsDecision(entries[i]).licence, AsDecision(entries[i]).package)
  }

  lemma CompleteMore(entries: seq<Table>, i: nat)
    requires i < |entries| && AllComplete(entries[..i])
    ensures AllComplete(entries[..i + 1]) <==> Complete(entries[i])
    ensures AllComplete(entries) ==> Complete(entries[i])
    ensures Complete(entries[i]) ==>
      ByPackage(entries[..i + 1]) == ByPackage(entries[..i])[AsDecision(entries[i]).package := AsDecision(entries[i])]
  {
    assert entries[..i + 1] == entries[..i] + [entries[i]];
    if Complete(entries[i]) {
      assert AllComplete(entries[..i + 1]);
      assert entries[..i + 1][..i] == entries[..i];
    } else {
      assert entries[..i + 1][i] == entries[i];
    }
  }

  lemma PermittedMore(policy: Policy, entries: seq<Table>, i: nat)
    requires i < |entries| && AllComplete(entries[..i + 1]) && AllPermitted(policy, entries[..i])
    ensures Complete(entries[i])
    ensures AllPermitted(policy, entries[..i + 1]) <==>
      Permits(policy, AsDecision(entries[i]).licence, AsDecision(entries[i]).package)
    ensures AllComplete(entries) && AllPermitted(policy, entries) ==> AllPermitted(policy, entries[..i + 1])
  {
    assert entries[..i + 1] == entries[..i] + [entries[i]];
    assert entries[..i + 1][i] == entries[i];
  }

  /** Every recorded decision takes a licence the finished policy permits for its package. */
  predicate Coherent(policy: Policy) {
    forall p :: p in policy.decisions ==> Permits(policy, policy.decisions[p].licence, p)
  }

  // ---------------------------------------------------------------- checking a declared licence

  datatype Violation =
    | NoLicence
    | NotAllowed(licence: string)
    | NeedsDecision(offered: seq<string>)
    | NotOffered(taken: string, offered: seq<string>)

  function Check(package: string, licence: Option<string>, policy: Policy): Option<Violation> {
    if licence.None? || licence.value == "" then Some(NoLicence)
    else
      var offered := Unwrap(SplitOn(licence.value, OR));
      if |offered| > 1 then Resolve(package, offered, policy)
      else
        var pieces := Unwrap(SplitOn(licence.value, AND));
        if exists i :: 0 <= i < |pieces| && !Permits(policy, pieces[i], package)
        then Some(NotAllowed(licence.value)) else None
  }

  function Resolve(package: string, offered: seq<string>, policy: Policy): Option<Violation> {
    if package !in policy.decisions then Some(NeedsDecision(offered))
    else
      var taken := policy.decisions[package].licence;
      if exists i :: 0 <= i < |offered| && Fold(taken) == Fold(offered[i]) then None
      else Some(NotOffered(taken, offered))
  }

  /** An accepted choice is one whose recorded half, as the splitter cuts it out, the policy permits. */
  lemma AcceptedChoiceIsPermitted(package: string, licence: string, policy: Policy)
    requires Coherent(policy) && licence != ""
    requires |SplitOn(licence, OR)| > 1 && Check(package, Some(licence), policy) == None
    ensures exists part :: part in Unwrap(SplitOn(licence, OR)) && Permits(policy, part, package)
  {
    var offered := Unwrap(SplitOn(licence, OR));
    var taken := policy.decisions[package].licence;
    var i :| 0 <= i < |offered| && Fold(taken) == Fold(offered[i]);
    PermitsIgnoresCase(policy, taken, offered[i], package);
    assert offered[i] in offered;
  }

  /** The recorded decision takes this part. */
  predicate Takes(policy: Policy, package: string, part: string) {
    package in policy.decisions && Fold(policy.decisions[package].licence) == Fold(part)
  }

  lemma CheckChoice(package: string, licence: string, offered: seq<string>, policy: Policy)
    requires licence != "" && |offered| > 1 && Unwrap(SplitOn(licence, OR)) == offered
    ensures Check(package, Some(licence), policy) == None <==>
      exists i :: 0 <= i < |offered| && Takes(policy, package, offered[i])
  {
  }

  lemma CheckConjunction(package: string, licence: string, pieces: seq<string>, policy: Policy)
    requires licence != "" && SplitOn(licence, OR) == [licence] && Unwrap(SplitOn(licence, AND)) == pieces
    ensures Check(package, Some(licence), policy) == None <==>
      forall i :: 0 <= i < |pieces| ==> Permits(policy, pieces[i], package)
  {
  }

  /**
   `A AND B OR C OR …`: accepted exactly when a recorded decision takes one of the conjunctions,
   and then the policy permits that conjunction as it is written.
   */
  lemma Disjunction(package: string, choices: seq<seq<string>>, policy: Policy)
    requires Coherent(policy) && Choices(choices) && |choices| > 1
    ensures Check(package, Some(Disjunct(choices)), policy) == None <==>
      exists i :: 0 <= i < |choices| && Takes(policy, package, Conjunct(choices[i]))
    ensures forall i :: 0 <= i < |choices| && Takes(policy, package, Conjunct(choices[i])) ==>
      Permits(policy, Conjunct(choices[i]), package)
  {
    SplitClauses(choices);
    UnwrapConjuncts(choices);
    DisjunctStarts(choices);
    CheckChoice(package, Disjunct(choices), Conjuncts(choices), policy);
    forall i | 0 <= i < |choices| && Takes(policy, package, Conjunct(choices[i]))
      ensures Permits(policy, Conjunct(choices[i]), package)
    {
      PermitsIgnoresCase(policy, policy.decisions[package].licence, Conjunct(choices[i]), package);
    }
  }

  /** `A AND B AND …`: accepted exactly when every obligation is permitted. */
  lemma Conjunction(package: string, ids: seq<string>, policy: Policy)
    requires Obligations(ids)
    ensures Check(package, Some(Conjunct(ids)), policy) == None <==>
      forall i :: 0 <= i < |ids| ==> Permits(policy, ids[i], package)
  {
    WordsDiffer();
    ConjunctIsWhole(ids);
    ConjunctEnds(ids);
    SplitOnJoined(ids, AND);
    UnwrapIdentifiers(ids);
    CheckConjunction(package, Conjunct(ids), ids, policy);
  }

  /** A package without a licence is refused as such. */
  lemma NothingDeclared(package: string, policy: Policy)
    ensures Check(package, None, policy) == Some(NoLicence) && Check(package, Some(""), policy) == Some(NoLicence)
  {
  }

  /** A refusal says whether the choice was never decided, or decided for something that is not on offer. */
  lemma RefusalSaysWhy(package: string, choices: seq<seq<string>>, policy: Policy)
    requires Choices(choices)
    ensures var refused := Check(package, Some(Disjunct(choices)), policy);
      refused != None ==> refused == Some(
        if |choices| == 1 then NotAllowed(Disjunct(choices))
        else if package !in policy.decisions then NeedsDecision(Conjuncts(choices))
        else NotOffered(policy.decisions[package].licence, Conjuncts(choices)))
  {
    SplitClauses(choices);
    UnwrapConjuncts(choices);
    DisjunctStarts(choices);
  }

  /** The seven spellings in prose, each with the identifier it stands for; everything else stands for itself. */
  lemma ProseIsNormalised(licence: string)
    ensures var said := Fold(Trim(licence));
      Spdx(licence) ==
        if said == "mit license" then "MIT"
        else if said == "3-clause bsd license" || said == "bsd-3-clause license" then "BSD-3-Clause"
        else if said == "2-clause bsd license" then "BSD-2-Clause"
        else if said == "apache license 2.0" || said == "apache software license" then "Apache-2.0"
        else if said == "the unlicense (unlicense)" then "Unlicense"
        else Trim(licence)
  {
  }

  /** Everything the policy allows, and everything it accepts for the package, is a single identifier. */
  predicate OfIdentifiers(policy: Policy, package: string) {
    (forall entry :: entry in policy.allowed ==> Solid(entry)) &&
    (package in policy.acceptances ==> Solid(policy.acceptances[package].licence))
  }

  lemma ConjunctIsNormal(words: seq<string>)
    requires Words(words) && |words| > 1
    ensures Normal(Conjunct(words))
  {
    ConjunctEnds(words);
    ConjunctGap(words);
    AliasesHaveGaps();
  }

  /** The first space of a conjunction is followed by the word `AND`. */
  lemma ConjunctGap(words: seq<string>)
    requires Words(words) && |words| > 1
    ensures |words[0]| < |Conjunct(words)| && Fold(Conjunct(words))[|words[0]|] == ' '
    ensures forall q: nat :: !FirstGap(Fold(Conjunct(words)), q)
  {
    var s, p := Conjunct(words), |words[0]|;
    JoinLaid(words, AND);
    assert s[p + 1] == s[p + 1..p + 1 + |AND|][0];
    assert Fold(s)[p] == ' ' && Fold(s)[p + 1] == 'a';
    forall j | 0 <= j < p ensures Fold(s)[j] != ' ' {
      assert s[j] == s[..p][j];
    }
  }

  /** A policy of identifiers permits no conjunction as one text. */
  lemma ConjunctNotPermitted(policy: Policy, package: string, words: seq<string>)
    requires OfIdentifiers(policy, package) && Words(words) && |words| > 1
    ensures !Permits(policy, Conjunct(words), package)
  {
    var s, p := Conjunct(words), |words[0]|;
    ConjunctIsNormal(words);
    ConjunctGap(words);
    Text.StripFixed(s, Text.IsSpace);
    assert Spdx(s) == s;
    forall entry | Solid(entry) ensures Fold(entry) != Fold(s) {
      if p < |entry| {
        assert Fold(entry)[p] == FoldChar(entry[p]);
      }
    }
  }

  /**
   Under a policy of identifiers a choice is accepted exactly when the recorded decision takes an
   alternative that is one identifier, and that identifier is permitted: an alternative with two
   obligations can never be taken.
   */
  lemma ChoiceOfIdentifiers(package: string, choices: seq<seq<string>>, policy: Policy)
    requires Coherent(policy) && OfIdentifiers(policy, package) && Choices(choices) && |choices| > 1
    ensures Check(package, Some(Disjunct(choices)), policy) == None <==>
      exists i :: 0 <= i < |choices| && |choices[i]| == 1 && Takes(policy, package, choices[i][0])
    ensures forall i :: 0 <= i < |choices| && Takes(policy, package, Conjunct(choices[i])) ==>
      |choices[i]| == 1 && Permits(policy, choices[i][0], package)
  {
    Disjunction(package, choices, policy);
    forall i | 0 <= i < |choices| && Takes(policy, package, Conjunct(choices[i]))
      ensures |choices[i]| == 1 && Permits(policy, choices[i][0], package)
    {
      if |choices[i]| > 1 {
        ConjunctNotPermitted(policy, package, choices[i]);
        assert false;
      }
    }
    forall i | 0 <= i < |choices| && |choices[i]| == 1 ensures Conjunct(choices[i]) == choices[i][0] {}
  }

  /** As offered, a clause of several words is a text that a policy of identifiers does not permit. */
  lemma ClauseNotTaken(policy: Policy, package: string, words: seq<string>)
    requires Coherent(policy) && OfIdentifiers(policy, package)
    requires |words| > 1 && Words(words) && forall j :: 0 <= j < |words| ==> Operand(words[j])
    ensures !Takes(policy, package, Text.Strip(Conjunct(words), Wrapping))
  {
    var part := Text.Strip(Conjunct(words), Wrapping);
    UnwrapClause(words);
    ConjunctNotPermitted(policy, package, Unwrapped(words));
    if Takes(policy, package, part) {
      PermitsIgnoresCase(policy, policy.decisions[package].licence, part, package);
      assert false;
    }
  }

  /**
   What is accepted, wherever parentheses stand and however they nest: exactly an expression one of
   whose stretches between two `OR`s is a single identifier, parentheses aside, that the decision takes.
   */
  lemma LoneOperandAccepted(package: string, clauses: seq<seq<string>>, policy: Policy)
    requires Coherent(policy) && OfIdentifiers(policy, package) && Operands(clauses) && |clauses| > 1
    ensures Check(package, Some(Disjunct(clauses)), policy) == None <==>
      exists i :: 0 <= i < |clauses| && |clauses[i]| == 1 && Takes(policy, package, Text.Strip(clauses[i][0], Wrapping))
  {
    var offered := Unwrap(Conjuncts(clauses));
    SplitClauses(clauses);
    DisjunctStarts(clauses);
    CheckChoice(package, Disjunct(clauses), offered, policy);
    forall i | 0 <= i < |clauses|
      ensures Takes(policy, package, offered[i]) <==>
        |clauses[i]| == 1 && Takes(policy, package, Text.Strip(clauses[i][0], Wrapping))
    {
      OfferedClause(package, clauses[i], policy);
    }
  }

  lemma OfferedClause(package: string, words: seq<string>, policy: Policy)
    requires Coherent(policy) && OfIdentifiers(policy, package)
    requires Words(words) && forall j :: 0 <= j < |words| ==> Operand(words[j])
    ensures Takes(policy, package, Text.Strip(Conjunct(words), Wrapping)) <==>
      |words| == 1 && Takes(policy, package, Text.Strip(words[0], Wrapping))
  {
    if |words| > 1 {
      ClauseNotTaken(policy, package, words);
    }
  }

  /** Nothing outside the group stands next to alternative `i` of `n`. */
  predicate Bare(before: seq<string>, after: seq<string>, n: nat, i: nat) {
    (i == 0 ==> before == []) && (i == n - 1 ==> after == [])
  }

  predicate BareTaken(policy: Policy, package: string, before: seq<string>, ids: seq<string>, after: seq<string>) {
    exists i :: 0 <= i < |ids| && Bare(before, after, |ids|, i) && Takes(policy, package, ids[i])
  }

  predicate AnyTaken(policy: Policy, package: string, ids: seq<string>) {
    exists i :: 0 <= i < |ids| && Takes(policy, package, ids[i])
  }

  predicate AllPermittedFor(policy: Policy, package: string, ids: seq<string>) {
    forall j :: 0 <= j < |ids| ==> Permits(policy, ids[j], package)
  }

  /** What `A AND (B OR C) AND D` asks for: an alternative that was taken, and every obligation permitted. */
  predicate Meant(policy: Policy, package: string, before: seq<string>, ids: seq<string>, after: seq<string>) {
    AnyTaken(policy, package, ids) &&
    AllPermittedFor(policy, package, before) && AllPermittedFor(policy, package, after)
  }

  /** A group is accepted exactly when the decision takes an alternative that no obligation stands next to. */
  lemma GroupAccepted(package: string, before: seq<string>, ids: seq<string>, after: seq<string>, policy: Policy)
    requires Coherent(policy) && OfIdentifiers(policy, package)
    requires Identifiers(ids) && |ids| > 1 && Outside(before) && Outside(after)
    ensures Check(package, Some(Group(before, ids, after)), policy) == None <==>
      BareTaken(policy, package, before, ids, after)
  {
    var clauses := GroupClauses(before, ids, after);
    GroupIsClauses(before, ids, after);
    GroupOperands(before, ids, after);
    LoneOperandAccepted(package, clauses, policy);
    forall i | 0 <= i < |ids|
      ensures |clauses[i]| == 1 <==> Bare(before, after, |ids|, i)
      ensures |clauses[i]| == 1 ==> Text.Strip(clauses[i][0], Wrapping) == ids[i]
    {
      ParenthesisOperands(ids[i]);
    }
  }

  /**
   The answer on a group is right exactly when every obligation is permitted if a bare alternative
   is taken, and otherwise not all that is asked for is there: obligations next to the alternative
   that was taken refuse it, others are not looked at.
   */
  lemma GroupAnsweredRightly(
    package: string, before: seq<string>, ids: seq<string>, after: seq<string>, policy: Policy)
    requires Coherent(policy) && OfIdentifiers(policy, package)
    requires Identifiers(ids) && |ids| > 1 && Outside(before) && Outside(after)
    ensures (Check(package, Some(Group(before, ids, after)), policy) == None <==>
        Meant(policy, package, before, ids, after)) <==>
      if BareTaken(policy, package, before, ids, after)
      then AllPermittedFor(policy, package, before) && AllPermittedFor(policy, package, after)
      else !Meant(policy, package, before, ids, after)
  {
    GroupAccepted(package, before, ids, after, policy);
  }

  /**
   Once a decision takes `a`, whatever stands after `(a OR ` is accepted with it, well formed or not.
   */
  lemma GroupHidesObligations(package: string, a: string, tail: string, policy: Policy)
    requires Identifier(a) && tail != "" && !Text.IsSpace(tail[0]) && Takes(policy, package, a)
    ensures Check(package, Some("(" + a + Spaced(OR) + tail), policy) == None
  {
    var licence := "(" + a + Spaced(OR) + tail;
    GroupSplitsOpen(a, tail);
    var offered := Unwrap(SplitOn(licence, OR));
    assert offered[0] == Text.Strip("(" + a, Wrapping);
    assert SplitOn(tail, OR) != [];
  }

  /** The policy that permits these, with a decision for one of them. */
  function Taking(taken: string, allowed: set<string>): Policy {
    Policy(allowed, map["p" := Decision("p", taken, "o", "r")], map[])
  }

  lemma IdentifierPermitted(policy: Policy, id: string, package: string)
    requires Identifier(id) && policy.acceptances == map[]
    ensures Permits(policy, id, package) <==> exists entry :: entry in policy.allowed && Fold(entry) == Fold(id)
  {
    SolidIsNormal(id);
    Text.StripFixed(id, Text.IsSpace);
  }

  lemma TakingIsCoherent(taken: string, allowed: set<string>)
    requires Identifier(taken) && taken in allowed && forall entry :: entry in allowed ==> Solid(entry)
    ensures Coherent(Taking(taken, allowed)) && OfIdentifiers(Taking(taken, allowed), "p")
    ensures forall id :: Takes(Taking(taken, allowed), "p", id) <==> Fold(taken) == Fold(id)
  {
    IdentifierPermitted(Taking(taken, allowed), taken, "p");
  }

  /** Three identifiers: the first is neither of the others, and the last is not the word `OR`. */
  predicate Apart(a: string, b: string, c: string) {
    Identifier(a) && Identifier(b) && Identifier(c) && Fold(a) != Fold(b) && Fold(a) != Fold(c) && Fold(c) != Fold(OR)
  }

  lemma ExampleIsApart()
    ensures Apart("MIT", "X", "GPL")
  {
    assert Fold("MIT")[0] == 'm' && Fold("X")[0] == 'x' && Fold("GPL")[0] == 'g' && Fold(OR)[0] == 'o';
  }

  lemma ExampleReads()
    ensures Group([], ["MIT", "X"], ["GPL"]) == "(MIT OR X) AND GPL"
  {
    assert Text.Join(Spaced(OR), ["MIT", "X"]) == "MIT OR X";
  }

  /** `(a OR b) AND c`, `(MIT OR X) AND GPL` for one, is accepted under a policy that permits `a` only. */
  lemma ForbiddenObligationAccepted(a: string, b: string, c: string, policy: Policy)
    requires Apart(a, b, c) && policy == Taking(a, {a})
    ensures Coherent(policy) && !Permits(policy, c, "p")
    ensures Check("p", Some(Group([], [a, b], [c])), policy) == None
  {
    TakingIsCoherent(a, {a});
    IdentifierPermitted(policy, c, "p");
    GroupAccepted("p", [], [a, b], [c], policy);
    assert Bare([], [c], 2, 0) && Takes(policy, "p", [a, b][0]);
  }

  /** `(b OR a) AND c`, `(X OR MIT) AND GPL` for one, is refused where `a` is taken and `c` is permitted too. */
  lemma PermittedObligationRefused(a: string, b: string, c: string, policy: Policy)
    requires Apart(a, b, c) && policy == Taking(a, {a, c})
    ensures Coherent(policy) && Meant(policy, "p", [], [b, a], [c])
    ensures Check("p", Some(Group([], [b, a], [c])), policy) != None
  {
    TakingIsCoherent(a, {a, c});
    AlsoPermitted(a, c);
    GroupAccepted("p", [], [b, a], [c], policy);
    LastIsNotBare(policy, a, b, c);
  }

  lemma AlsoPermitted(a: string, c: string)
    requires Identifier(c)
    ensures AllPermittedFor(Taking(a, {a, c}), "p", [c])
  {
    IdentifierPermitted(Taking(a, {a, c}), c, "p");
  }

  lemma LastIsNotBare(policy: Policy, a: string, b: string, c: string)
    requires Takes(policy, "p", a) && !Takes(policy, "p", b)
    ensures AnyTaken(policy, "p", [b, a]) && !BareTaken(policy, "p", [], [b, a], [c])
  {
    assert Takes(policy, "p", [b, a][1]);
  }

  // ---------------------------------------------------------------- what is checked

  /** Everything reachable outside a development group. */
  function ShippedNames(g: Graph): set<string> {
    set n | n in g.reach && (RUNTIME in g.reach[n] || exists l :: l in g.reach[n] && EXTRA <= l)
  }

  /** The shipped distributions that are installed, `present` holding case-folded names. */
  function Installed(g: Graph, present: set<string>): (names: seq<string>)
    ensures Ordering.Ascending(names)
    ensures forall n :: n in names <==> n in ShippedNames(g) && Fold(n) in present
  {
    Ordering.SortSet(set n | n in ShippedNames(g) && Fold(n) in present)
  }
}
