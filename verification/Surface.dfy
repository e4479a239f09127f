/**
 The public API snapshot: how a class is described and split again, when a class only grew, and
 how the snapshot file is printed and read back (tools/api_surface.py, tools/release_check.py).
 */
module Surface {
  import opened Wrappers
  import Ordering
  import Text

  // ---------------------------------------------------------------- class signatures

  datatype Class = Class(name: string, bases: seq<string>, members: seq<string>)

  function Header(c: Class): string {
    "class " + c.name + "(" + Text.Join(", ", c.bases) + ")"
  }

  const OPEN := " {"
  const SEP := "; "

  function Describe(c: Class): string {
    var body := Text.Join(SEP, c.members);
    Header(c) + if body != "" then OPEN + body + "}" else ""
  }

  /** A class with two members, in print. */
  lemma TwoMembersPrinted(c: Class, a: string, b: string)
    requires c.members == [a, b]
    ensures Describe(c) == Header(c) + " {" + (a + "; " + b) + "}"
  {
    assert c.members[1..] == [b];
    assert Text.Join(SEP, c.members) == a + "; " + b;
  }

  function NonEmpty(parts: seq<string>): (r: seq<string>) {
    if parts == [] then [] else (if parts[0] != "" then [parts[0]] else []) + NonEmpty(parts[1..])
  }

  /** Header and members of a printed class; anything else gives `None`. */
  function Members(signature: string): Option<(string, seq<string>)> {
    if !("class " <= signature) then None
    else if signature[|signature| - 1] != '}' then Some((signature, []))
    else
      var inner := signature[..|signature| - 1];
      var i := Text.Find(inner, OPEN, 0);
      if i < 0 then Some((inner, []))
      else Some((inner[..i], NonEmpty(Text.Split(inner[i + |OPEN|..], SEP))))
  }

  /** What the printer must be given for the splitter to undo it. */
  predicate Splittable(c: Class) {
    c.members != [] ==>
      !Text.Contains(Header(c), OPEN) &&
      forall i :: 0 <= i < |c.members| ==> c.members[i] != "" && !Text.Contains(c.members[i], SEP)
  }

  lemma {:induction false} NonEmptyKeeps(parts: seq<string>)
    ensures forall i :: 0 <= i < |NonEmpty(parts)| ==> NonEmpty(parts)[i] != "" && NonEmpty(parts)[i] in parts
    ensures (forall i :: 0 <= i < |parts| ==> parts[i] != "") ==> NonEmpty(parts) == parts
  {
    if parts != [] {
      NonEmptyKeeps(parts[1..]);
      assert parts == [parts[0]] + parts[1..];
    }
  }

  lemma JoinedIsNotEmpty(parts: seq<string>)
    ensures Text.Join(SEP, parts) == "" ==> NonEmpty(parts) == []
    ensures parts != [] && parts[0] != "" ==> Text.Join(SEP, parts) != ""
  {
    if |parts| == 1 {
      assert parts[1..] == [];
    }
  }

  lemma SplitterReads(c: Class)
    requires Text.Join(SEP, c.members) != ""
    ensures "class " <= Describe(c) && Describe(c)[|Describe(c)| - 1] == '}'
    ensures var d := Describe(c);
      d[..|d| - 1] == Header(c) + OPEN + Text.Join(SEP, c.members)
  {
    var d, inner := Describe(c), Header(c) + OPEN + Text.Join(SEP, c.members);
    assert d == inner + "}";
    assert "class " <= Header(c);
  }

  lemma SplitsBack(c: Class)
    requires Splittable(c) && c.members != []
    ensures Members(Describe(c)) == Some((Header(c), c.members))
  {
    var h, body := Header(c), Text.Join(SEP, c.members);
    JoinedIsNotEmpty(c.members);
    SplitterReads(c);
    Text.LacksIsSeparable(h, OPEN);
    Text.SeparableInside(h, OPEN, body);
    var inner := h + OPEN + body;
    assert inner[..|h|] == h && inner[|h| + |OPEN|..] == body;
    forall k | 0 <= k < |c.members| ensures Text.Separable(c.members[k], SEP) {
      Text.LacksIsSeparable(c.members[k], SEP);
    }
    Text.SplitJoin(c.members, SEP);
    NonEmptyKeeps(c.members);
  }

  lemma SplitIsSplittable(c: Class)
    requires Text.Join(SEP, c.members) != "" && Members(Describe(c)) == Some((Header(c), c.members))
    ensures Splittable(c)
  {
    SplitterReads(c);
    var h, inner := Header(c), Header(c) + OPEN + Text.Join(SEP, c.members);
    var i := Text.Find(inner, OPEN, 0);
    Text.AtInside(h + OPEN, inner, OPEN, |h|, 0);
    assert Text.At(h + OPEN, OPEN, |h|);
    Text.SplitParts(inner[i + |OPEN|..], SEP);
    NonEmptyKeeps(Text.Split(inner[i + |OPEN|..], SEP));
    assert inner[..i] == h && i == |h|;
    forall j | 0 <= j && j + 2 <= |h| ensures !Text.At(h, OPEN, j) {
      Text.AtInside(h, inner, OPEN, j, 0);
    }
  }

  /** The splitter recovers header and members exactly when the printed pieces contain no separator. */
  lemma MembersUndoesDescribe(c: Class)
    ensures Members(Describe(c)) == Some((Header(c), c.members)) <==> Splittable(c)
  {
    JoinedIsNotEmpty(c.members);
    assert Header(c)[|Header(c)| - 1] == ')' && "class " <= Header(c);
    if Text.Join(SEP, c.members) == "" {
      assert Describe(c) == Header(c);
      assert c.members != [] ==> c.members[0] == "";
    } else {
      if Splittable(c) {
        SplitsBack(c);
      } else if Members(Describe(c)) == Some((Header(c), c.members)) {
        SplitIsSplittable(c);
      }
    }
  }

  // ---------------------------------------------------------------- growth

  const PROTOCOL := "(Protocol"

  function Elements(parts: seq<string>): set<string> {
    set p | p in parts
  }

  /** Whether a class only gained members, protocols excepted. */
  predicate OnlyGrew(before: string, after: string) {
    var was, now := Members(before), Members(after);
    was.Some? && now.Some? && was.value.0 == now.value.0 && !Text.Contains(was.value.0, PROTOCOL) &&
    Elements(was.value.1) <= Elements(now.value.1)
  }

  /** Growth along a chain of releases is growth from the first. */
  lemma OnlyGrewIsTransitive(a: string, b: string, c: string)
    requires OnlyGrew(a, b) && OnlyGrew(b, c)
    ensures OnlyGrew(a, c)
  {
  }

  /** Nothing but a class can merely grow. */
  lemma OnlyClassesGrow(a: string, b: string)
    requires OnlyGrew(a, b)
    ensures "class " <= a && "class " <= b
  {
  }

  /** A class printed without members is all header, whether it ends in a brace or not. */
  lemma BareClassesGrow(h: string)
    requires "class " <= h && h[|h| - 1] != '}' && !Text.Contains(h, OPEN)
    ensures OnlyGrew(h, h + "}") <==> !Text.Contains(h, PROTOCOL)
    ensures OnlyGrew(h + "}", h) <==> !Text.Contains(h, PROTOCOL)
  {
    assert (h + "}")[..|h|] == h;
  }

  lemma OnlyGrewOnClasses(c: Class, d: Class)
    requires Splittable(c) && Splittable(d)
    ensures OnlyGrew(Describe(c), Describe(d)) <==>
      Header(c) == Header(d) && !Text.Contains(Header(c), PROTOCOL) && Elements(c.members) <= Elements(d.members)
  {
    MembersUndoesDescribe(c);
    MembersUndoesDescribe(d);
  }

  const NAME := "Protocol"

  lemma ParenIsNoName(bases: string)
    ensures NAME <= bases + ")" <==> NAME <= bases
  {
    var s, k := bases + ")", |bases|;
    assert s[k] == ')';
    assert k < |NAME| ==> NAME[k] != ')';
  }

  lemma GuardAt(h: string, rest: string, k: nat)
    requires k < |h| && h[k] == '(' && h[k + 1..] == rest
    ensures Text.At(h, PROTOCOL, k) <==> NAME <= rest
  {
    assert PROTOCOL == "(" + NAME;
    if NAME <= rest {
      assert h[k..k + |PROTOCOL|] == "(" + rest[..|NAME|];
    }
    if Text.At(h, PROTOCOL, k) {
      assert h[k..k + |PROTOCOL|][1..] == rest[..|NAME|];
    }
  }

  lemma OneParen(h: string, k: nat)
    requires k < |h| && forall j :: 0 <= j < |h| && j != k ==> h[j] != '('
    ensures Text.Contains(h, PROTOCOL) <==> Text.At(h, PROTOCOL, k)
  {
    forall j | 0 <= j && j + |PROTOCOL| <= |h| && j != k ensures !Text.At(h, PROTOCOL, j) {
      assert h[j..j + |PROTOCOL|][0] == h[j];
    }
  }

  lemma HeaderParen(name: string, bases: string)
    requires '(' !in name && '(' !in bases
    ensures var h := "class " + name + "(" + bases + ")";
      var k := 6 + |name|;
      h[k] == '(' && h[k + 1..] == bases + ")" && forall j :: 0 <= j < |h| && j != k ==> h[j] != '('
  {
    var prefix, rest := "class " + name, bases + ")";
    var h, k := prefix + ("(" + rest), |prefix|;
    assert "class " + name + "(" + bases + ")" == h;
    forall j | 0 <= j < |h| && j != k ensures h[j] != '(' {
      assert j < k ==> h[j] == prefix[j] && prefix[j] in prefix;
      assert j > k ==> h[j] == rest[j - k - 1] && rest[j - k - 1] in rest;
    }
  }

  /** The printed header mentions a protocol where the guard looks exactly when the first base is one. */
  lemma ProtocolGuardSeesFirstBase(c: Class)
    requires '(' !in c.name && '(' !in Text.Join(", ", c.bases)
    ensures Text.Contains(Header(c), PROTOCOL) <==> NAME <= Text.Join(", ", c.bases)
  {
    var bases, k := Text.Join(", ", c.bases), 6 + |c.name|;
    HeaderParen(c.name, bases);
    OneParen(Header(c), k);
    GuardAt(Header(c), bases + ")", k);
    ParenIsNoName(bases);
  }

  /**
   A class that gained a member is waved through exactly when its list of bases does not start with
   the text `Protocol`. So a protocol listed after another base grows unnoticed, against the
   published policy, and a first base like `ProtocolError` stops a class that is no protocol.
   */
  lemma LateProtocolGrowsUnnoticed(c: Class, members: seq<string>)
    requires Splittable(c) && Splittable(c.(members := members)) && Elements(c.members) <= Elements(members)
    requires '(' !in c.name && '(' !in Text.Join(", ", c.bases)
    ensures OnlyGrew(Describe(c), Describe(c.(members := members))) <==> !(NAME <= Text.Join(", ", c.bases))
    ensures c.bases == ["Sized", NAME] ==> OnlyGrew(Describe(c), Describe(c.(members := members)))
  {
    var d := c.(members := members);
    assert Header(c) == Header(d);
    ProtocolGuardSeesFirstBase(c);
    OnlyGrewOnClasses(c, d);
    if c.bases == ["Sized", NAME] {
      assert Text.Join(", ", c.bases)[0] == 'S' && NAME[0] == 'P';
    }
  }

  // ---------------------------------------------------------------- the snapshot file

  const ARROW := " :: "

  function RenderKeys(keys: seq<string>, surface: map<string, string>): string
    requires forall k :: k in keys ==> k in surface
  {
    if keys == [] then ""
    else keys[0] + ARROW + surface[keys[0]] + "\n" + RenderKeys(keys[1..], surface)
  }

  /** One sorted line per symbol. */
  function Render(surface: map<string, string>): string {
    RenderKeys(Ordering.SortSet(surface.Keys), surface)
  }

  /** One entry for each line that holds the arrow, cut at its first one: a later line wins. */
  function ParseLines(lines: seq<string>): map<string, string> {
    if lines == [] then map[]
    else
      var i := Text.Find(lines[0], ARROW, 0);
      (if i >= 0 then map[lines[0][..i] := lines[0][i + |ARROW|..]] else map[]) + ParseLines(lines[1..])
  }

  function ParseSurface(snapshot: string): map<string, string> {
    ParseLines(Text.SplitLines(snapshot))
  }

  /** Keys the arrow can be found after, and nothing that breaks a line. */
  predicate Printable(surface: map<string, string>) {
    forall k :: k in surface ==> Text.Separable(k, ARROW) && Text.OneLine(k) && Text.OneLine(surface[k])
  }

  lemma OneSymbol(k: string, v: string, rest: string)
    requires Text.Separable(k, ARROW) && Text.OneLine(k) && Text.OneLine(v)
    ensures ParseSurface(k + ARROW + v + "\n" + rest) == map[k := v] + ParseSurface(rest)
  {
    var line := k + ARROW + v;
    forall c | c in line ensures !Text.IsBreak(c) {
      assert c in k || c in ARROW || c in v;
    }
    Text.FirstLine(line, rest);
    Text.SeparableInside(k, ARROW, v);
    assert line[..|k|] == k && line[|k| + |ARROW|..] == v;
  }

  ghost predicate Holds(parsed: map<string, string>, keys: seq<string>, surface: map<string, string>) {
    (forall k :: k in parsed <==> k in keys) &&
    forall k :: k in keys && k in surface && k in parsed ==> parsed[k] == surface[k]
  }

  lemma {:induction false} ParseRendered(keys: seq<string>, surface: map<string, string>)
    requires Printable(surface) && forall k :: k in keys ==> k in surface
    ensures Holds(ParseSurface(RenderKeys(keys, surface)), keys, surface)
  {
    if keys != [] {
      var k, others := keys[0], keys[1..];
      var rest := RenderKeys(others, surface);
      OneSymbol(k, surface[k], rest);
      ParseRendered(others, surface);
      HoldsMore(ParseSurface(rest), keys, surface);
    }
  }

  lemma HoldsMore(parsed: map<string, string>, keys: seq<string>, surface: map<string, string>)
    requires keys != [] && keys[0] in surface && Holds(parsed, keys[1..], surface)
    ensures Holds(map[keys[0] := surface[keys[0]]] + parsed, keys, surface)
  {
    assert keys == [keys[0]] + keys[1..];
  }

  lemma {:induction false} ParsedIsPrintable(lines: seq<string>)
    requires forall i :: 0 <= i < |lines| ==> Text.OneLine(lines[i])
    ensures Printable(ParseLines(lines))
  {
    if lines != [] {
      ParsedIsPrintable(lines[1..]);
      var line := lines[0];
      var i := Text.Find(line, ARROW, 0);
      if i >= 0 {
        Text.FoundIsSeparable(line, ARROW, i);
      }
    }
  }

  /** The committed snapshot holds exactly the surface it was printed from, whenever any snapshot could. */
  lemma ParseUndoesRender(surface: map<string, string>)
    ensures ParseSurface(Render(surface)) == surface <==> Printable(surface)
  {
    if Printable(surface) {
      ParseRendered(Ordering.SortSet(surface.Keys), surface);
      assert ParseSurface(Render(surface)) == surface;
    }
    Text.LinesAreOneLine(Render(surface));
    ParsedIsPrintable(Text.SplitLines(Render(surface)));
  }

  /** The line is an entry for `k`. */
  predicate EntryFor(line: string, k: string) {
    Text.Separable(k, ARROW) && k + ARROW <= line
  }

  lemma EntryIsCut(line: string, k: string)
    ensures EntryFor(line, k) <==> Text.Find(line, ARROW, 0) >= 0 && line[..Text.Find(line, ARROW, 0)] == k
  {
    var i := Text.Find(line, ARROW, 0);
    if EntryFor(line, k) {
      Text.SeparableInside(k, ARROW, line[|k| + |ARROW|..]);
      assert line == k + ARROW + line[|k| + |ARROW|..];
    }
    if i >= 0 && line[..i] == k {
      Text.FoundIsSeparable(line, ARROW, i);
      Text.UpToOccurrence(line, ARROW, i);
    }
  }

  predicate LastEntry(lines: seq<string>, i: nat, k: string) {
    i < |lines| && EntryFor(lines[i], k) && forall j :: i < j < |lines| ==> !EntryFor(lines[j], k)
  }

  /** The names read are those that some line is an entry for, each with what its last entry says. */
  lemma {:induction false} LastLineWins(lines: seq<string>, k: string)
    ensures k in ParseLines(lines) <==> exists i :: 0 <= i < |lines| && EntryFor(lines[i], k)
    ensures forall i: nat :: LastEntry(lines, i, k) ==>
      k in ParseLines(lines) && ParseLines(lines)[k] == lines[i][|k| + |ARROW|..]
  {
    if lines != [] {
      EntryIsCut(lines[0], k);
      LastLineWins(lines[1..], k);
      forall j | 0 < j < |lines| ensures lines[j] == lines[1..][j - 1] {}
      assert k in ParseLines(lines[1..]) <==> exists j :: 0 < j < |lines| && EntryFor(lines[j], k);
      forall i: nat | LastEntry(lines, i, k) && i > 0 ensures LastEntry(lines[1..], i - 1, k) {}
    }
  }

  /** The line that shows one name. */
  function LineOf(k: string, v: string): string {
    k + " :: " + v
  }

  lemma LineIsOne(k: string, v: string)
    requires Text.OneLine(k) && Text.OneLine(v)
    ensures Text.OneLine(LineOf(k, v)) && LineOf(k, v) == k + ARROW + v
  {
    forall c | c in LineOf(k, v) ensures !Text.IsBreak(c) {
      assert c in k || c in ARROW || c in v;
    }
  }

  /** The snapshot has one line for each name, in the order of the names. */
  lemma {:induction false} KeysInLines(keys: seq<string>, surface: map<string, string>)
    requires forall k :: k in keys ==> k in surface && Text.OneLine(k) && Text.OneLine(surface[k])
    ensures Text.SplitLines(RenderKeys(keys, surface)) ==
      seq(|keys|, i requires 0 <= i < |keys| => LineOf(keys[i], surface[keys[i]]))
  {
    if keys != [] {
      var k := keys[0];
      KeysInLines(keys[1..], surface);
      LineIsOne(k, surface[k]);
      Text.FirstLine(LineOf(k, surface[k]), RenderKeys(keys[1..], surface));
    }
  }

  lemma DottedNamesArePrintable(k: string)
    requires ' ' !in k
    ensures Text.Separable(k, ARROW)
  {
    Text.FreeIsSeparable(k, ARROW);
  }
}
