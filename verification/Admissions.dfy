/** The shipped surface as a reviewable inventory, and its comparison with the committed one (tools/admissions.py). */
module Admissions {
  import Ordering
  import Text
  import opened Lockfile

  /** The labels of a package that are not development groups. */
  function Shipped(labels: set<string>): set<string> {
    set l | l in labels && !(GROUP <= l)
  }

  const SEP := ", "

  function Profile(labels: set<string>): string {
    Text.Join(SEP, Ordering.SortSet(Shipped(labels)))
  }

  /** What a committed inventory and the current one can disagree about. */
  datatype Disagreement =
    | Arrived(name: string, profile: string)
    | Gone(name: string)
    | Moved(name: string, profile: string, recorded: string)

  method Inventory(g: Graph) returns (found: map<string, string>)
    ensures found == InventoryOf(g)
  {
    found := map[];
    var names := g.reach.Keys;
    while names != {}
      invariant names <= g.reach.Keys
      invariant forall n :: n in found <==> n in g.reach && n !in names && Shipped(g.reach[n]) != {}
      invariant forall n :: n in found ==> found[n] == Profile(g.reach[n])
    {
      var name :| name in names;
      var labels := g.reach[name];
      var shipped := Ordering.SortSet(Shipped(labels));
      Ordering.SortedEmpty(Shipped(labels));
      if shipped != [] {
        found := found[name := Text.Join(SEP, shipped)];
      }
      names := names - {name};
    }
  }

  function InventoryOf(g: Graph): map<string, string> {
    map n | n in g.reach && Shipped(g.reach[n]) != {} :: Profile(g.reach[n])
  }

  predicate Disagrees(current: map<string, string>, recorded: map<string, string>, d: Disagreement) {
    match d
    case Arrived(n, profile) => n in current && n !in recorded && profile == current[n]
    case Gone(n) => n in recorded && n !in current
    case Moved(n, profile, was) =>
      n in current && n in recorded && profile == current[n] && was == recorded[n] && profile != was
  }

  function Rank(d: Disagreement): nat {
    match d
    case Arrived(_, _) => 0
    case Gone(_) => 1
    case Moved(_, _, _) => 2
  }

  /** Arrivals come first, then departures, then moves, each kind in the order of its names. */
  predicate Before(d: Disagreement, e: Disagreement) {
    Rank(d) < Rank(e) || (Rank(d) == Rank(e) && Ordering.Leq(d.name, e.name) && d.name != e.name)
  }

  predicate Listed(found: seq<Disagreement>) {
    forall i, j :: 0 <= i < j < |found| ==> Before(found[i], found[j])
  }

  method CheckInventory(current: map<string, string>, recorded: map<string, string>) returns (found: seq<Disagreement>)
    ensures forall d :: d in found <==> Disagrees(current, recorded, d)
    ensures Listed(found)
    ensures found == [] <==> current == recorded
  {
    var arrivals := Ordering.Sorted(current.Keys - recorded.Keys);
    found := Arrivals(arrivals, current);
    var departures := Ordering.Sorted(recorded.Keys - current.Keys);
    found := found + Departures(departures);
    var kept := Ordering.Sorted(current.Keys * recorded.Keys);
    found := found + Moves(kept, current, recorded);
    CleanMeansEqual(current, recorded, found);
  }

  method Arrivals(names: seq<string>, current: map<string, string>) returns (found: seq<Disagreement>)
    requires Ordering.Ascending(names) && forall n :: n in names ==> n in current
    ensures forall d :: d in found <==> d.Arrived? && d.name in names && d.profile == current[d.name]
    ensures Listed(found)
  {
    found := [];
    for i := 0 to |names|
      invariant |found| == i
      invariant forall k :: 0 <= k < i ==> found[k] == Arrived(names[k], current[names[k]])
    {
      assert names[i] in names;
      found := found + [Arrived(names[i], current[names[i]])];
    }
  }

  function Departures(names: seq<string>): (found: seq<Disagreement>)
    requires Ordering.Ascending(names)
    ensures forall d :: d in found <==> d.Gone? && d.name in names
    ensures Listed(found)
  {
    if names == [] then []
    else
      var rest := Departures(names[1..]);
      assert forall d :: d in rest ==> Before(Gone(names[0]), d);
      [Gone(names[0])] + rest
  }

  function Moves(names: seq<string>, current: map<string, string>, recorded: map<string, string>)
    : (found: seq<Disagreement>)
    requires Ordering.Ascending(names) && forall n :: n in names ==> n in current && n in recorded
    ensures forall d :: d in found <==> d.Moved? && d.name in names && Disagrees(current, recorded, d)
    ensures Listed(found)
  {
    if names == [] then []
    else
      var n := names[0];
      assert names == [n] + names[1..];
      var rest := Moves(names[1..], current, recorded);
      if current[n] != recorded[n] then
        assert forall d :: d in rest ==> Before(Moved(n, current[n], recorded[n]), d);
        [Moved(n, current[n], recorded[n])] + rest
      else rest
  }

  lemma CleanMeansEqual(current: map<string, string>, recorded: map<string, string>, found: seq<Disagreement>)
    requires forall d :: d in found <==> Disagrees(current, recorded, d)
    ensures found == [] <==> current == recorded
  {
    var first := if found == [] then Gone("") else found[0];
    assert found != [] ==> first in found;
    if found == [] {
      forall n ensures n in current <==> n in recorded {
        assert !Disagrees(current, recorded, Gone(n));
        assert n in current ==> !Disagrees(current, recorded, Arrived(n, current[n]));
      }
      forall n | n in current && n in recorded ensures current[n] == recorded[n] {
        assert !Disagrees(current, recorded, Moved(n, current[n], recorded[n]));
      }
    }
  }

  // ---------------------------------------------------------------- what a clean comparison means

  /** No profile on the list holds the separator itself. */
  predicate Readable(labels: set<string>) {
    forall l :: l in Shipped(labels) ==> !Text.Contains(l, SEP)
  }

  /** A printed list of profiles splits back into the profiles exactly when none of them holds the separator. */
  lemma ProfileReadsBack(a: set<string>)
    requires Shipped(a) != {}
    ensures Text.Split(Profile(a), SEP) == Ordering.SortSet(Shipped(a)) <==> Readable(a)
  {
    var sorted := Ordering.SortSet(Shipped(a));
    Ordering.SortedEmpty(Shipped(a));
    if Readable(a) {
      forall i | 0 <= i < |sorted| ensures Text.Separable(sorted[i], SEP) {
        assert sorted[i] in sorted;
        Text.LacksIsSeparable(sorted[i], SEP);
      }
      Text.SplitJoin(sorted, SEP);
    }
    if Text.Split(Profile(a), SEP) == sorted {
      Text.SplitParts(Profile(a), SEP);
      forall l | l in Shipped(a) ensures !Text.Contains(l, SEP) {
        assert l in sorted;
      }
    }
  }

  lemma ProfileIsInjective(a: set<string>, b: set<string>)
    requires Readable(a) && Readable(b) && Shipped(a) != {} && Shipped(b) != {}
    ensures Profile(a) == Profile(b) ==> Shipped(a) == Shipped(b)
  {
    ProfileReadsBack(a);
    ProfileReadsBack(b);
    if Profile(a) == Profile(b) {
      assert Ordering.SortSet(Shipped(a)) == Ordering.SortSet(Shipped(b));
      forall l ensures l in Shipped(a) <==> l in Shipped(b) {
        assert l in Ordering.SortSet(Shipped(a)) <==> l in Ordering.SortSet(Shipped(b));
      }
    }
  }

  lemma SortedSingle(x: string)
    ensures Ordering.SortSet({x}) == [x]
  {
    Ordering.LeqTotal(x, x);
    Ordering.LeastComesFirst({x}, x);
    assert {x} - {x} == {};
  }

  lemma SortedPair(x: string, y: string)
    requires Ordering.Leq(x, y) && x != y
    ensures Ordering.SortSet({x, y}) == [x, y]
  {
    Ordering.LeqTotal(x, x);
    Ordering.LeastComesFirst({x, y}, x);
    SortedSingle(y);
    assert {x, y} - {x} == {y};
  }

  lemma ExtrasShip(labels: set<string>)
    requires forall l :: l in labels ==> EXTRA <= l
    ensures Shipped(labels) == labels
  {
    assert EXTRA[0] == 'e' && GROUP[0] == 'g';
    forall l | l in labels ensures !(GROUP <= l) {
      assert l[0] == 'e';
    }
  }

  lemma JoinedProfile(x: string, y: string)
    requires EXTRA <= x && EXTRA <= y && Ordering.Leq(x, y) && x != y
    ensures Shipped({x + SEP + y}) == {x + SEP + y} && Shipped({x, y}) == {x, y}
    ensures Profile({x + SEP + y}) == Profile({x, y}) == x + ", " + y
  {
    ExtrasShip({x + SEP + y});
    ExtrasShip({x, y});
    SortedSingle(x + SEP + y);
    SortedPair(x, y);
    JoinedPair(x, y);
  }

  lemma JoinedPair(x: string, y: string)
    ensures Text.Join(SEP, [x, y]) == x + SEP + y && Text.Join(SEP, [x + SEP + y]) == x + SEP + y
  {
    assert [x, y][1..] == [y];
    assert Text.Join(SEP, [y]) == y;
  }

  lemma SameProfileSameInventory(n: string, a: set<string>, b: set<string>)
    requires Shipped(a) != {} && Shipped(b) != {} && Profile(a) == Profile(b)
    ensures InventoryOf(Graph(map[], map[n := a])) == InventoryOf(Graph(map[], map[n := b]))
  {
  }

  /** Whatever the two extras, one extra named like both together prints as they do. */
  lemma JoinedLabelPrintsAlike(n: string, x: string, y: string)
    requires EXTRA <= x && EXTRA <= y && Ordering.Leq(x, y) && x != y
    ensures var g := Graph(map[], map[n := {x + SEP + y}]);
      var h := Graph(map[], map[n := {x, y}]);
      InventoryOf(g) == InventoryOf(h) && !Has(g.reach, n, x) && Has(h.reach, n, x)
  {
    JoinedProfile(x, y);
    SameProfileSameInventory(n, {x + SEP + y}, {x, y});
    assert |x + SEP + y| > |x|;
  }

  /** The shipped labels of a name, none when nothing shipped reaches it. */
  function ShippedOf(g: Graph, n: string): set<string> {
    if n in g.reach then Shipped(g.reach[n]) else {}
  }

  lemma InventoryReads(g: Graph, h: Graph, n: string)
    requires forall n :: n in g.reach ==> Readable(g.reach[n])
    requires forall n :: n in h.reach ==> Readable(h.reach[n])
    ensures ShippedOf(g, n) == ShippedOf(h, n) <==>
      (n in InventoryOf(g) <==> n in InventoryOf(h)) &&
      (n in InventoryOf(g) && n in InventoryOf(h) ==> InventoryOf(g)[n] == InventoryOf(h)[n])
  {
    if n in InventoryOf(g) && n in InventoryOf(h) {
      ProfileIsInjective(g.reach[n], h.reach[n]);
    }
  }

  lemma ShippedByLabel(g: Graph, h: Graph)
    ensures (forall n :: ShippedOf(g, n) == ShippedOf(h, n)) <==>
      forall n, l :: !(GROUP <= l) ==> (Has(g.reach, n, l) <==> Has(h.reach, n, l))
  {
    forall n, l
      ensures l in ShippedOf(g, n) <==> Has(g.reach, n, l) && !(GROUP <= l)
      ensures l in ShippedOf(h, n) <==> Has(h.reach, n, l) && !(GROUP <= l)
    {
    }
    if forall n, l :: !(GROUP <= l) ==> (Has(g.reach, n, l) <==> Has(h.reach, n, l)) {
      forall n ensures ShippedOf(g, n) == ShippedOf(h, n) {
        forall l ensures l in ShippedOf(g, n) <==> l in ShippedOf(h, n) {
          assert !(GROUP <= l) ==> (Has(g.reach, n, l) <==> Has(h.reach, n, l));
        }
      }
    }
  }

  /** Comparing with the inventory of an earlier lock is clean exactly when every package has the same profiles. */
  lemma CleanInventoryMeansSameReach(g: Graph, h: Graph)
    requires forall n :: n in g.reach ==> Readable(g.reach[n])
    requires forall n :: n in h.reach ==> Readable(h.reach[n])
    ensures InventoryOf(g) == InventoryOf(h) <==>
      forall n, l :: !(GROUP <= l) ==> (Has(g.reach, n, l) <==> Has(h.reach, n, l))
  {
    ShippedByLabel(g, h);
    forall n
      ensures ShippedOf(g, n) == ShippedOf(h, n) <==>
        (n in InventoryOf(g) <==> n in InventoryOf(h)) &&
        (n in InventoryOf(g) && n in InventoryOf(h) ==> InventoryOf(g)[n] == InventoryOf(h)[n])
    {
      InventoryReads(g, h, n);
    }
  }
}
