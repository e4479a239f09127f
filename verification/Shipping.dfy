/**
 One question, four answers: the lock walk, the blast radius, the inventory and the licence check
 each say which packages a consumer receives. Over any graph built from a lock they agree, and
 the answer is reachability in the lock itself.
 */
module Shipping {
  import opened Wrappers
  import opened Lockfile
  import Admissions
  import Audit
  import Licences
  import Expressions
  import Ordering
  import Text

  /** Reached by the runtime dependencies or by some extra of the root package. */
  ghost predicate Received(packages: Packages, root: Package, n: string) {
    Named(packages, root.dependencies, n) ||
    exists x :: x in root.optional && Named(packages, root.optional[x], n)
  }

  /** Any edge of the lock's closure under some development group. */
  ghost predicate ForDevelopment(packages: Packages, root: Package, n: string) {
    exists group :: group in root.dev && Named(packages, root.dev[group], n)
  }

  /** What the lock reaches is labelled, whichever kind of entry point reaches it. */
  lemma ReachedIsLabelled(packages: Packages, root: string, g: Graph, n: string)
    requires root in packages && GraphOf(packages, root, g)
    ensures Received(packages, packages[root], n) ==> n in Licences.ShippedNames(g)
    ensures ForDevelopment(packages, packages[root], n) ==> n in g.reach
  {
    var p := packages[root];
    if Named(packages, p.dependencies, n) {
      assert Entry(p, RUNTIME, p.dependencies);
      assert Has(g.reach, n, RUNTIME);
    }
    if x :| x in p.optional && Named(packages, p.optional[x], n) {
      Labels(x, x);
      assert Entry(p, EXTRA + x, p.optional[x]);
      assert Has(g.reach, n, EXTRA + x);
    }
    if group :| group in p.dev && Named(packages, p.dev[group], n) {
      assert Entry(p, GROUP + group, p.dev[group]);
      assert Has(g.reach, n, GROUP + group);
    }
  }

  lemma LabelTellsKind(packages: Packages, root: string, g: Graph, n: string, l: string)
    requires root in packages && GraphOf(packages, root, g) && Has(g.reach, n, l)
    ensures l == RUNTIME || EXTRA <= l ==> Received(packages, packages[root], n)
    ensures Received(packages, packages[root], n) || ForDevelopment(packages, packages[root], n)
  {
    var edges :| Entry(packages[root], l, edges) && Named(packages, edges, n);
    forall x ensures !(EXTRA <= GROUP + x) && GROUP + x != RUNTIME {
      Labels(x, x);
    }
  }

  lemma ReceivedIsLabelled(packages: Packages, root: string, g: Graph, n: string)
    requires root in packages && GraphOf(packages, root, g)
    ensures Received(packages, packages[root], n) <==> n in Licences.ShippedNames(g)
    ensures n in g.reach <==> Received(packages, packages[root], n) || ForDevelopment(packages, packages[root], n)
  {
    ReachedIsLabelled(packages, root, g, n);
    if n in g.reach {
      forall l | l in g.reach[n]
        ensures l == RUNTIME || EXTRA <= l ==> Received(packages, packages[root], n)
        ensures Received(packages, packages[root], n) || ForDevelopment(packages, packages[root], n)
      {
        LabelTellsKind(packages, root, g, n, l);
      }
      var l :| l in g.reach[n];
    }
  }

  /** The licence check runs over exactly the distributions here that a consumer of the lock would receive. */
  lemma InstalledIsReceived(packages: Packages, root: string, g: Graph, present: set<string>, n: string)
    requires root in packages && GraphOf(packages, root, g)
    ensures n in Licences.Installed(g, present) <==>
      Received(packages, packages[root], n) && Expressions.Fold(n) in present
  {
    ReceivedIsLabelled(packages, root, g, n);
  }

  lemma ToolsAgree(packages: Packages, root: string, g: Graph, n: string)
    requires root in packages && GraphOf(packages, root, g)
    ensures n in Admissions.InventoryOf(g) <==> n in Licences.ShippedNames(g)
    ensures n in Licences.ShippedNames(g) <==>
      BlastRadius(g, n) != n + NOT_IN_LOCK && BlastRadius(g, n) != NOT_SHIPPED
    ensures n in Licences.ShippedNames(g) <==> n in g.reach && !Audit.DevelopmentOnly(g, n)
  {
    BlastRadiusTells(g, n);
    if n in g.reach {
      forall l | l in g.reach[n] ensures GROUP <= l <==> !(l == RUNTIME || EXTRA <= l) {
        assert Has(g.reach, n, l);
        LabelsHaveKinds(packages, root, g, n, l);
      }
      if n in Licences.ShippedNames(g) {
        var l :| l in g.reach[n] && (l == RUNTIME || EXTRA <= l);
        assert l in Admissions.Shipped(g.reach[n]);
      }
    }
  }

  /** Built without a refusal, a graph labels only packages of the lock. */
  lemma LabelledIsLocked(packages: Packages, root: string, g: Graph, n: string)
    requires root in packages && GraphOf(packages, root, g) && Answered(packages, packages[root]) && n in g.reach
    ensures n in packages
  {
    var l :| l in g.reach[n];
    assert Has(g.reach, n, l);
    var edges :| Entry(packages[root], l, edges) && Named(packages, edges, n);
    var e :| InClosure(packages, edges, e) && e.name == n;
    assert !Broken(packages, e);
  }

  /**
   What "is not in the lock" says of a package: that no entry point reaches it. It is true of every
   package the lock lacks, and of no other, exactly when nothing in the lock is left unreached.
   */
  lemma NotInLockMeansUnreached(packages: Packages, root: string, g: Graph, n: string)
    requires root in packages && GraphOf(packages, root, g) && Answered(packages, packages[root])
    ensures BlastRadius(g, n) == n + NOT_IN_LOCK <==>
      !Received(packages, packages[root], n) && !ForDevelopment(packages, packages[root], n)
    ensures n !in packages ==> BlastRadius(g, n) == n + NOT_IN_LOCK
    ensures (BlastRadius(g, n) == n + NOT_IN_LOCK <==> n !in packages) <==>
      !(n in packages && !Received(packages, packages[root], n) && !ForDevelopment(packages, packages[root], n))
  {
    BlastRadiusTells(g, n);
    ReceivedIsLabelled(packages, root, g, n);
    if n in g.reach {
      LabelledIsLocked(packages, root, g, n);
    }
  }

  /** A lock that holds `p` beside the root, and the graph that is built from it, which says that it does not. */
  lemma LockedButUnreached() returns (packages: Packages, g: Graph)
    ensures "r" in packages && GraphOf(packages, "r", g) && Answered(packages, packages["r"])
    ensures "p" in packages && BlastRadius(g, "p") == "p" + NOT_IN_LOCK
  {
    var p := Package("p", None, [], map[], map[]);
    var r := Package("r", None, [], map[], map[]);
    packages, g := map["r" := r, "p" := p], Graph(map[], map[]);
    forall edges, l, e | Entry(r, l, edges) ensures !InClosure(packages, edges, e) {
      assert Closed(packages, edges, {});
    }
    assert Versions(packages, "r") == map[];
  }

  /**
   From a lock to a verdict: the audit blocks exactly when a suppression has run out, or an
   unsuppressed finding of blocking severity is on a package that a consumer receives or that
   nothing in the lock reaches.
   */
  lemma AuditBlocksWhatShips(
    packages: Packages, root: string, g: Graph, found: seq<Audit.Finding>, policy: Audit.Policy, today: int)
    requires root in packages && GraphOf(packages, root, g)
    ensures Audit.AnyStops(found, g, policy, today) <==> exists f ::
      f in found && !Audit.Suppresses(policy, f.id, today) && Audit.BlockingSeverity(f.severity) &&
      (Received(packages, packages[root], f.package) || !ForDevelopment(packages, packages[root], f.package))
  {
    forall f: Audit.Finding
      ensures Audit.DevelopmentOnly(g, f.package) <==>
        !Received(packages, packages[root], f.package) && ForDevelopment(packages, packages[root], f.package)
    {
      ReceivedIsLabelled(packages, root, g, f.package);
      ToolsAgree(packages, root, g, f.package);
    }
  }

  // ---------------------------------------------------------------- from lock to lock

  /** No extra's name holds the separator that the inventory prints between profiles. */
  predicate PlainExtras(root: Package) {
    forall x :: x in root.optional ==> !Text.Contains(x, Admissions.SEP)
  }

  lemma PlainExtraIsReadable(x: string)
    requires !Text.Contains(x, Admissions.SEP)
    ensures !Text.Contains(EXTRA + x, Admissions.SEP)
  {
    var s := EXTRA + x;
    forall j | 0 <= j && j + 2 <= |s| ensures !Text.At(s, Admissions.SEP, j) {
      if j < |EXTRA| {
        assert s[j] == EXTRA[j];
        Text.NotAt(s, Admissions.SEP, j, 0);
      } else {
        Text.AtInside(x, s, Admissions.SEP, j - |EXTRA|, |EXTRA|);
      }
    }
  }

  lemma GraphIsReadable(packages: Packages, root: string, g: Graph, n: string)
    requires root in packages && GraphOf(packages, root, g) && PlainExtras(packages[root]) && n in g.reach
    ensures Admissions.Readable(g.reach[n])
  {
    forall l | l in Admissions.Shipped(g.reach[n]) ensures !Text.Contains(l, Admissions.SEP) {
      assert Has(g.reach, n, l);
      var edges :| Entry(packages[root], l, edges) && Named(packages, edges, n);
      if l == RUNTIME {
        Text.LacksAt(l, Admissions.SEP, 0);
      } else {
        var x :| x in packages[root].optional && l == EXTRA + x;
        PlainExtraIsReadable(x);
      }
    }
  }

  /** The entry point with this label reaches the package. */
  ghost predicate Reaches(packages: Packages, root: Package, mark: string, n: string) {
    exists edges :: Entry(root, mark, edges) && Named(packages, edges, n)
  }

  /**
   From one lock to the next: the inventory is unchanged exactly when the runtime dependencies and
   every extra reach the packages that they reached before.
   */
  lemma InventoryComparesLocks(
    packages: Packages, root: string, g: Graph, packages': Packages, root': string, h: Graph)
    requires root in packages && GraphOf(packages, root, g) && PlainExtras(packages[root])
    requires root' in packages' && GraphOf(packages', root', h) && PlainExtras(packages'[root'])
    ensures Admissions.InventoryOf(g) == Admissions.InventoryOf(h) <==>
      forall n, l :: !(GROUP <= l) ==>
        (Reaches(packages, packages[root], l, n) <==> Reaches(packages', packages'[root'], l, n))
  {
    forall n | n in g.reach ensures Admissions.Readable(g.reach[n]) {
      GraphIsReadable(packages, root, g, n);
    }
    forall n | n in h.reach ensures Admissions.Readable(h.reach[n]) {
      GraphIsReadable(packages', root', h, n);
    }
    Admissions.CleanInventoryMeansSameReach(g, h);
    forall n, l
      ensures Has(g.reach, n, l) <==> Reaches(packages, packages[root], l, n)
      ensures Has(h.reach, n, l) <==> Reaches(packages', packages'[root'], l, n)
    {
    }
  }

  // ---------------------------------------------------------------- what a finding says of its package

  /** Every consumer receives exactly what the runtime dependencies of the lock reach. */
  lemma EveryConsumerReceives(packages: Packages, root: string, g: Graph, n: string)
    requires root in packages && GraphOf(packages, root, g)
    ensures BlastRadius(g, n) == "every consumer" <==> Named(packages, packages[root].dependencies, n)
  {
    EveryConsumerTells(g, n);
    assert Entry(packages[root], RUNTIME, packages[root].dependencies);
    LabelIsOwnClosure(packages, root, g, RUNTIME, packages[root].dependencies, n);
  }

  lemma ExtraReaches(packages: Packages, root: string, g: Graph, n: string, x: string)
    requires root in packages && GraphOf(packages, root, g)
    ensures Has(g.reach, n, EXTRA + x) <==>
      x in packages[root].optional && Named(packages, packages[root].optional[x], n)
  {
    var p := packages[root];
    Labels(x, x);
    if x in p.optional {
      assert Entry(p, EXTRA + x, p.optional[x]);
      LabelIsOwnClosure(packages, root, g, EXTRA + x, p.optional[x], n);
    } else if Has(g.reach, n, EXTRA + x) {
      var edges :| Entry(p, EXTRA + x, edges) && Named(packages, edges, n);
      NoSuchExtra(p, x, edges);
      assert false;
    }
  }

  lemma NoSuchExtra(p: Package, x: string, edges: seq<Edge>)
    requires x !in p.optional
    ensures !Entry(p, EXTRA + x, edges)
  {
    forall y ensures (EXTRA + y == EXTRA + x ==> y == x) && GROUP + y != EXTRA + x && RUNTIME != EXTRA + x {
      Labels(y, x);
      Labels(x, y);
    }
  }

  /**
   Where only extras reach a package, what is said of it between the fixed words splits into the
   names of exactly those extras, in order.
   */
  lemma ExtrasAreNamed(packages: Packages, root: string, g: Graph, n: string)
    requires root in packages && GraphOf(packages, root, g) && PlainExtras(packages[root])
    requires !Named(packages, packages[root].dependencies, n)
    requires exists x :: x in packages[root].optional && Named(packages, packages[root].optional[x], n)
    ensures exists said: string ::
      BlastRadius(g, n) == "consumers of the " + said + " extra" && Ordering.Ascending(Text.Split(said, ", ")) &&
      forall x :: x in Text.Split(said, ", ") <==>
        x in packages[root].optional && Named(packages, packages[root].optional[x], n)
  {
    var p := packages[root];
    forall x ensures Has(g.reach, n, EXTRA + x) <==> x in p.optional && Named(packages, p.optional[x], n) {
      ExtraReaches(packages, root, g, n, x);
    }
    assert Entry(p, RUNTIME, p.dependencies);
    LabelIsOwnClosure(packages, root, g, RUNTIME, p.dependencies, n);
    ExtraConsumersTold(g, n);
    var names: seq<string> :|
      BlastRadius(g, n) == "consumers of the " + Text.Join(", ", names) + " extra" &&
      Ordering.Ascending(names) && forall x :: x in names <==> EXTRA + x in g.reach[n];
    var x :| x in p.optional && Named(packages, p.optional[x], n);
    assert x in names;
    forall i | 0 <= i < |names| ensures Text.Separable(names[i], ", ") {
      assert names[i] in names;
      Text.LacksIsSeparable(names[i], ", ");
    }
    Text.SplitJoin(names, ", ");
  }
}
