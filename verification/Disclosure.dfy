/** The generated blocks of SECURITY.md, edited in place inside hand-written prose (tools/disclosure.py). */
module Disclosure {
  import opened Wrappers
  import Text

  /** The two lines that enclose a generated block. */
  datatype Marks = Marks(begin: string, end: string)

  function MarksOf(marker: string): Marks {
    Marks("<!-- generated: " + marker + " -->", "<!-- end generated: " + marker + " -->")
  }

  /**
   `NoBlock` is the error the source raises itself; `EndBeforeBegin` is the unpacking error that
   escapes when both markers occur but no end marker follows the first begin marker.
   */
  datatype PageError = NoBlock(marks: Marks) | EndBeforeBegin(marks: Marks)

  /** What stands between the prose before and the prose after, markers included. */
  function Block(marks: Marks, body: string): string {
    marks.begin + ("\n\n" + (body + ("\n" + marks.end)))
  }

  function Replace(page: string, marks: Marks, body: string): Result<string, PageError> {
    var begin, end := marks.begin, marks.end;
    if !Text.Contains(page, begin) || !Text.Contains(page, end) then Err(NoBlock(marks))
    else
      var i := Text.Find(page, begin, 0);
      var j := Text.Find(page, end, i + |begin|);
      if j < 0 then Err(EndBeforeBegin(marks))
      else Ok(page[..i] + (Block(marks, body) + page[j + |end|..]))
  }

  // ---------------------------------------------------------------- where a block is

  /** The first begin marker is at `i`, and the first end marker after it at `j`. */
  ghost predicate Located(page: string, marks: Marks, i: nat, j: nat) {
    Text.At(page, marks.begin, i) && (forall k :: 0 <= k < i ==> !Text.At(page, marks.begin, k)) &&
    i + |marks.begin| <= j && Text.At(page, marks.end, j) &&
    forall k :: i + |marks.begin| <= k < j ==> !Text.At(page, marks.end, k)
  }

  function Swapped(page: string, marks: Marks, body: string, i: nat, j: nat): string
    requires i <= j && j + |marks.end| <= |page|
  {
    page[..i] + (Block(marks, body) + page[j + |marks.end|..])
  }

  lemma LocatedIsFound(page: string, marks: Marks, i: nat, j: nat)
    requires Located(page, marks, i, j)
    ensures Text.Find(page, marks.begin, 0) == i && Text.Find(page, marks.end, i + |marks.begin|) == j
    ensures Text.Contains(page, marks.begin) && Text.Contains(page, marks.end)
  {
    Text.FoundAt(page, marks.begin, 0, i);
    Text.FoundAt(page, marks.end, i + |marks.begin|, j);
    Text.ContainsAt(page, marks.end, j);
  }

  lemma ReplaceAt(page: string, marks: Marks, body: string, i: nat, j: nat)
    requires Located(page, marks, i, j)
    ensures Replace(page, marks, body) == Ok(Swapped(page, marks, body, i, j))
  {
    LocatedIsFound(page, marks, i, j);
    ReplaceFound(page, marks, body, i, j);
  }

  lemma ReplaceFound(page: string, marks: Marks, body: string, i: nat, j: nat)
    requires Text.Contains(page, marks.begin) && Text.Contains(page, marks.end)
    requires Text.Find(page, marks.begin, 0) == i && i + |marks.begin| <= |page|
    requires Text.Find(page, marks.end, i + |marks.begin|) == j
    ensures Replace(page, marks, body) == Ok(Swapped(page, marks, body, i, j))
  {
  }

  /** Success means a block: prose, a begin marker, anything, an end marker, prose. */
  lemma ReplaceSucceedsOnBlocks(page: string, marks: Marks, body: string)
    ensures Replace(page, marks, body).Ok? <==> exists i, j :: Located(page, marks, i, j)
    ensures (exists i, j :: Located(page, marks, i, j)) <==>
      exists i: nat, j: nat :: Text.At(page, marks.begin, i) && i + |marks.begin| <= j && Text.At(page, marks.end, j)
    ensures Replace(page, marks, body) == Err(EndBeforeBegin(marks)) <==>
      Text.Contains(page, marks.begin) && Text.Contains(page, marks.end) && !exists i, j :: Located(page, marks, i, j)
  {
    var i := Text.Find(page, marks.begin, 0);
    if i >= 0 {
      var j := Text.Find(page, marks.end, i + |marks.begin|);
      if j >= 0 {
        assert Located(page, marks, i, j);
      }
    }
    if i', j' :| Located(page, marks, i', j') {
      ReplaceAt(page, marks, body, i', j');
    }
  }

  // ---------------------------------------------------------------- one block

  predicate OneLine(marks: Marks) {
    '\n' !in marks.begin && '\n' !in marks.end
  }

  /** A text without line feeds does not occur across one. */
  lemma NotAcross(page: string, p: string, k: int, newline: nat)
    requires '\n' !in p && newline < |page| && page[newline] == '\n' && k <= newline < k + |p|
    ensures !Text.At(page, p, k)
  {
    if 0 <= k && k + |p| <= |page| {
      assert page[k..k + |p|][newline - k] == '\n';
      assert p[newline - k] in p;
    }
  }

  /** Where the end marker of a replaced block stands. */
  function NewEnd(marks: Marks, body: string, i: nat): nat {
    i + |marks.begin| + 3 + |body|
  }

  /** Character by character, what replacing leaves where it was and what it moves. */
  ghost predicate Edited(page: string, s: string, marks: Marks, body: string, i: nat, j: nat)
    requires i + |marks.begin| <= j <= |page|
  {
    var b, e := i + |marks.begin|, NewEnd(marks, body, i);
    |s| == e + |page| - j &&
    (forall k :: 0 <= k < b ==> s[k] == page[k]) &&
    s[b] == '\n' && s[b + 1] == '\n' && s[e - 1] == '\n' &&
    (forall k :: 0 <= k < |body| ==> s[b + 2 + k] == body[k]) &&
    (forall k :: j <= k < |page| ==> s[k - j + e] == page[k])
  }

  /** Around a new body, the page up to the end of its begin marker and from its end marker on. */
  lemma SwappedShape(page: string, marks: Marks, body: string, i: nat, j: nat)
    requires Text.At(page, marks.begin, i) && i + |marks.begin| <= j && Text.At(page, marks.end, j)
    ensures Swapped(page, marks, body, i, j) == page[..i + |marks.begin|] + ("\n\n" + (body + ("\n" + page[j..])))
  {
    var begin, end := marks.begin, marks.end;
    var rest := page[j + |end|..];
    assert end + rest == page[j..];
    assert page[..i] + begin == page[..i + |begin|];
    Regroup(page[..i], begin, "\n\n", body, "\n", end, rest);
  }

  lemma Regroup(a: string, b: string, c: string, d: string, e: string, f: string, g: string)
    ensures a + ((b + (c + (d + (e + f)))) + g) == (a + b) + (c + (d + (e + (f + g))))
  {
  }

  /** The characters of `a`, a blank line, `body`, a line feed and `c`. */
  ghost predicate Shaped(s: string, a: string, body: string, c: string) {
    |s| == |a| + 3 + |body| + |c| &&
    (forall k :: 0 <= k < |a| ==> s[k] == a[k]) &&
    s[|a|] == '\n' && s[|a| + 1] == '\n' && s[|a| + 2 + |body|] == '\n' &&
    (forall k :: 0 <= k < |body| ==> s[|a| + 2 + k] == body[k]) &&
    forall k :: 0 <= k < |c| ==> s[|a| + 3 + |body| + k] == c[k]
  }

  lemma ShapeCharacters(a: string, body: string, c: string)
    ensures Shaped(a + ("\n\n" + (body + ("\n" + c))), a, body, c)
  {
  }

  lemma SwappedCharacters(page: string, marks: Marks, body: string, i: nat, j: nat)
    requires Located(page, marks, i, j)
    ensures Edited(page, Swapped(page, marks, body, i, j), marks, body, i, j)
  {
    SwappedShape(page, marks, body, i, j);
    ShapeCharacters(page[..i + |marks.begin|], body, page[j..]);
    ShapedIsEdited(page, Swapped(page, marks, body, i, j), marks, body, i, j);
  }

  lemma ShapedIsEdited(page: string, s: string, marks: Marks, body: string, i: nat, j: nat)
    requires i + |marks.begin| <= j <= |page| && Shaped(s, page[..i + |marks.begin|], body, page[j..])
    ensures Edited(page, s, marks, body, i, j)
  {
    var e := NewEnd(marks, body, i);
    forall k | j <= k < |page| ensures s[k - j + e] == page[k] {
      assert page[j..][k - j] == page[k];
    }
  }

  /** The begin marker of an edited block is still the first one. */
  lemma BeginStays(page: string, s: string, marks: Marks, body: string, i: nat, j: nat)
    requires Located(page, marks, i, j) && Edited(page, s, marks, body, i, j)
    ensures Text.At(s, marks.begin, i) && forall k :: 0 <= k < i ==> !Text.At(s, marks.begin, k)
  {
    forall k | 0 <= k <= i ensures Text.At(s, marks.begin, k) == Text.At(page, marks.begin, k) {
      Text.AtInside(page, s, marks.begin, k, 0);
    }
  }

  lemma NoEndInBody(page: string, s: string, marks: Marks, body: string, i: nat, j: nat, k: nat)
    requires OneLine(marks) && Located(page, marks, i, j) && !Text.Contains(body, marks.end)
    requires Edited(page, s, marks, body, i, j) && i + |marks.begin| <= k < NewEnd(marks, body, i)
    ensures !Text.At(s, marks.end, k)
  {
    var end, b, e := marks.end, i + |marks.begin|, NewEnd(marks, body, i);
    if k < b + 2 {
      NotAcross(s, end, k, if k == b then b else b + 1);
    } else if k + |end| <= b + 2 + |body| {
      Text.AtInside(body, s, end, k - b - 2, b + 2);
    } else {
      NotAcross(s, end, k, e - 1);
    }
  }

  /** The edited page has its block where it was, its body between the markers, if the body holds no end marker. */
  lemma EditedIsLocated(page: string, s: string, marks: Marks, body: string, i: nat, j: nat)
    requires OneLine(marks) && Located(page, marks, i, j) && !Text.Contains(body, marks.end)
    requires Edited(page, s, marks, body, i, j)
    ensures Located(s, marks, i, NewEnd(marks, body, i))
  {
    var b, e := i + |marks.begin|, NewEnd(marks, body, i);
    BeginStays(page, s, marks, body, i, j);
    Text.AtInside(page, s, marks.end, j, e - j);
    forall k | b <= k < e ensures !Text.At(s, marks.end, k) {
      NoEndInBody(page, s, marks, body, i, j, k);
    }
  }

  lemma SwappedIsLocated(page: string, marks: Marks, body: string, i: nat, j: nat)
    requires OneLine(marks) && Located(page, marks, i, j) && !Text.Contains(body, marks.end)
    ensures Located(Swapped(page, marks, body, i, j), marks, i, NewEnd(marks, body, i))
  {
    SwappedCharacters(page, marks, body, i, j);
    EditedIsLocated(page, Swapped(page, marks, body, i, j), marks, body, i, j);
  }

  /** Reading a replaced block gives the body that was put there. */
  lemma GetAfterPut(page: string, marks: Marks, body: string, i: nat, j: nat)
    requires OneLine(marks) && Located(page, marks, i, j) && !Text.Contains(body, marks.end)
    ensures var s := Swapped(page, marks, body, i, j);
      var e := NewEnd(marks, body, i);
      Located(s, marks, i, e) && s[i + |marks.begin|..e] == "\n\n" + body + "\n"
  {
    var s := Swapped(page, marks, body, i, j);
    SwappedCharacters(page, marks, body, i, j);
    EditedIsLocated(page, s, marks, body, i, j);
    BodyBetween(page, s, marks, body, i, j);
  }

  lemma BodyBetween(page: string, s: string, marks: Marks, body: string, i: nat, j: nat)
    requires i + |marks.begin| <= j <= |page| && Edited(page, s, marks, body, i, j)
    ensures s[i + |marks.begin|..NewEnd(marks, body, i)] == "\n\n" + body + "\n"
  {
    var b, e := i + |marks.begin|, NewEnd(marks, body, i);
    var inner := "\n\n" + body + "\n";
    forall k | 0 <= k < e - b ensures s[b..e][k] == inner[k] {
      assert s[b..e][k] == s[b + k];
      if 2 <= k < 2 + |body| {
        assert s[b + 2 + (k - 2)] == body[k - 2];
      }
    }
  }

  /** The prose around the block is kept character for character, whatever the body. */
  lemma ProseIsKept(page: string, marks: Marks, body: string, i: nat, j: nat)
    requires Located(page, marks, i, j)
    ensures Replace(page, marks, body).Ok?
    ensures var s, rest := Replace(page, marks, body).value, |page| - j - |marks.end|;
      i + rest <= |s| && s[..i] == page[..i] && s[|s| - rest..] == page[j + |marks.end|..] &&
      s[i..|s| - rest] == Block(marks, body)
  {
    ReplaceAt(page, marks, body, i, j);
    var tail := page[j + |marks.end|..];
    Text.DropAppend(page[..i], Block(marks, body) + tail, 0);
    Text.DropAppend(page[..i], Block(marks, body) + tail, |Block(marks, body)|);
  }

  /** The prefix and suffix of a swap do not depend on the body that is swapped out. */
  lemma SwapTwice(page: string, marks: Marks, first: string, second: string, i: nat, j: nat, e: nat)
    requires Located(page, marks, i, j) && e == NewEnd(marks, first, i)
    ensures var s := Swapped(page, marks, first, i, j);
      e + |marks.end| <= |s| && Swapped(s, marks, second, i, e) == Swapped(page, marks, second, i, j)
  {
    var s := Swapped(page, marks, first, i, j);
    var tail := page[j + |marks.end|..];
    assert s[..i] == page[..i];
    assert |Block(marks, first)| == e - i + |marks.end|;
    assert s[e + |marks.end|..] == tail;
  }

  /**
   A second replacement overwrites the first, and so repeating one changes nothing, exactly when
   the first body does not carry the end marker itself.
   */
  lemma PutAfterPut(page: string, marks: Marks, first: string, second: string)
    requires OneLine(marks) && Replace(page, marks, first).Ok?
    ensures Replace(Replace(page, marks, first).value, marks, second) == Replace(page, marks, second) <==>
      !Text.Contains(first, marks.end)
  {
    ReplaceSucceedsOnBlocks(page, marks, first);
    var i, j :| Located(page, marks, i, j);
    ReplaceAt(page, marks, first, i, j);
    ReplaceAt(page, marks, second, i, j);
    var s, e := Swapped(page, marks, first, i, j), NewEnd(marks, first, i);
    if !Text.Contains(first, marks.end) {
      SwappedIsLocated(page, marks, first, i, j);
      ReplaceAt(s, marks, second, i, e);
      SwapTwice(page, marks, first, second, i, j, e);
    } else {
      EndInBodyLeavesMore(page, marks, first, second, i, j);
    }
  }

  /** An end marker inside the body is found before the block's own. */
  lemma EndFoundInBody(page: string, s: string, marks: Marks, body: string, i: nat, j: nat) returns (e: nat)
    requires OneLine(marks) && Located(page, marks, i, j) && Text.Contains(body, marks.end)
    requires Edited(page, s, marks, body, i, j)
    ensures Located(s, marks, i, e) && e < NewEnd(marks, body, i)
  {
    var end, b := marks.end, i + |marks.begin|;
    BeginStays(page, s, marks, body, i, j);
    var inside := Text.Find(body, end, 0);
    Text.AtInside(body, s, end, inside, b + 2);
    var found := Text.Find(s, end, b);
    assert 0 <= found <= b + 2 + inside;
    e := found;
  }

  lemma EndInBodyLeavesMore(page: string, marks: Marks, first: string, second: string, i: nat, j: nat)
    requires OneLine(marks) && Located(page, marks, i, j) && Text.Contains(first, marks.end)
    ensures var r := Replace(Swapped(page, marks, first, i, j), marks, second);
      r.Ok? && |r.value| > |Swapped(page, marks, second, i, j)|
  {
    var s := Swapped(page, marks, first, i, j);
    SwappedCharacters(page, marks, first, i, j);
    var e := EndFoundInBody(page, s, marks, first, i, j);
    ReplaceAt(s, marks, second, i, e);
  }

  // ---------------------------------------------------------------- two blocks

  /** The first block ends before the second begins. */
  ghost predicate Before(page: string, m: Marks, i: nat, j: nat, n: Marks, k: nat, l: nat) {
    Located(page, m, i, j) && Located(page, n, k, l) && j + |m.end| <= k
  }

  /** Replacing the later block leaves the earlier one where it is. */
  lemma LaterKeepsEarlier(page: string, s: string, m: Marks, i: nat, j: nat, n: Marks, k: nat, l: nat, body: string)
    requires Before(page, m, i, j, n, k, l) && Edited(page, s, n, body, k, l)
    ensures Located(s, m, i, j)
  {
    forall x | 0 <= x <= i ensures Text.At(s, m.begin, x) == Text.At(page, m.begin, x) {
      Text.AtInside(page, s, m.begin, x, 0);
    }
    forall x | 0 <= x <= j ensures Text.At(s, m.end, x) == Text.At(page, m.end, x) {
      Text.AtInside(page, s, m.end, x, 0);
    }
  }

  lemma NothingOpensBefore(
    page: string, s: string, m: Marks, i: nat, j: nat, n: Marks, k: nat, l: nat, body: string, x: nat)
    requires Before(page, m, i, j, n, k, l) && OneLine(n) && !Text.Contains(body, n.begin)
    requires Edited(page, s, m, body, i, j) && x < NewEnd(m, body, i)
    ensures !Text.At(s, n.begin, x)
  {
    var begin, b, e := n.begin, i + |m.begin|, NewEnd(m, body, i);
    if x + |begin| <= b {
      Text.AtInside(page, s, begin, x, 0);
    } else if x <= b + 1 {
      NotAcross(s, begin, x, if x <= b then b else b + 1);
    } else {
      NothingOpensInBody(page, s, m, i, j, begin, body, x);
    }
  }

  lemma NothingOpensInBody(page: string, s: string, m: Marks, i: nat, j: nat, begin: string, body: string, x: nat)
    requires Located(page, m, i, j) && '\n' !in begin && !Text.Contains(body, begin)
    requires Edited(page, s, m, body, i, j) && i + |m.begin| + 2 <= x < NewEnd(m, body, i)
    ensures !Text.At(s, begin, x)
  {
    var b, e := i + |m.begin|, NewEnd(m, body, i);
    if x + |begin| <= b + 2 + |body| {
      Text.AtInside(body, s, begin, x - b - 2, b + 2);
    } else {
      NotAcross(s, begin, x, e - 1);
    }
  }

  /** From its end marker on, an edited page holds what it held, at a distance. */
  lemma ShiftsAt(page: string, s: string, marks: Marks, body: string, i: nat, j: nat, p: string, x: nat)
    requires i + |marks.begin| <= j <= |page| && Edited(page, s, marks, body, i, j) && j <= x
    ensures Text.At(s, p, x - j + NewEnd(marks, body, i)) == Text.At(page, p, x)
  {
    TailMoved(page, s, marks, body, i, j);
    MovedAt(page, s, j, NewEnd(marks, body, i) - j, p, x);
  }

  lemma MovedAt(page: string, s: string, at: nat, shift: int, p: string, x: nat)
    requires Moved(page, s, at, shift) && at <= x
    ensures Text.At(s, p, x + shift) == Text.At(page, p, x)
  {
    if x + |p| <= |page| {
      Text.AtInside(page, s, p, x, shift);
    }
  }

  lemma EarlierShiftsBegin(page: string, s: string, m: Marks, i: nat, j: nat, n: Marks, k: nat, l: nat, body: string)
    requires Before(page, m, i, j, n, k, l) && OneLine(n) && !Text.Contains(body, n.begin)
    requires Edited(page, s, m, body, i, j)
    ensures var d := NewEnd(m, body, i) - j;
      Text.At(s, n.begin, k + d) && forall x :: 0 <= x < k + d ==> !Text.At(s, n.begin, x)
  {
    var e := NewEnd(m, body, i);
    forall x | 0 <= x < k + (e - j) ensures !Text.At(s, n.begin, x) {
      if x < e {
        NothingOpensBefore(page, s, m, i, j, n, k, l, body, x);
      } else {
        ShiftsAt(page, s, m, body, i, j, n.begin, x - (e - j));
      }
    }
    ShiftsAt(page, s, m, body, i, j, n.begin, k);
  }

  lemma EarlierShiftsEnd(page: string, s: string, m: Marks, i: nat, j: nat, n: Marks, k: nat, l: nat, body: string)
    requires Before(page, m, i, j, n, k, l) && Edited(page, s, m, body, i, j)
    ensures var d := NewEnd(m, body, i) - j;
      Text.At(s, n.end, l + d) && forall x :: k + d + |n.begin| <= x < l + d ==> !Text.At(s, n.end, x)
  {
    var d := NewEnd(m, body, i) - j;
    ShiftsAt(page, s, m, body, i, j, n.end, l);
    forall x | k + d + |n.begin| <= x < l + d ensures !Text.At(s, n.end, x) {
      ShiftsAt(page, s, m, body, i, j, n.end, x - d);
    }
  }

  /** Replacing the earlier block only shifts the later one, if the new body does not open it. */
  lemma EarlierShiftsLater(page: string, s: string, m: Marks, i: nat, j: nat, n: Marks, k: nat, l: nat, body: string)
    requires Before(page, m, i, j, n, k, l) && OneLine(n) && !Text.Contains(body, n.begin)
    requires Edited(page, s, m, body, i, j)
    ensures var d := NewEnd(m, body, i) - j;
      Located(s, n, k + d, l + d)
  {
    EarlierShiftsBegin(page, s, m, i, j, n, k, l, body);
    EarlierShiftsEnd(page, s, m, i, j, n, k, l, body);
  }

  lemma EditOf(page: string, s: string, marks: Marks, body: string, i: nat, j: nat)
    requires Located(page, marks, i, j) && Replace(page, marks, body) == Ok(s)
    ensures Edited(page, s, marks, body, i, j)
  {
    ReplaceAt(page, marks, body, i, j);
    SwappedCharacters(page, marks, body, i, j);
  }

  lemma Edit(page: string, marks: Marks, body: string, i: nat, j: nat) returns (s: string)
    requires Located(page, marks, i, j)
    ensures Replace(page, marks, body) == Ok(s) && Edited(page, s, marks, body, i, j)
  {
    ReplaceAt(page, marks, body, i, j);
    SwappedCharacters(page, marks, body, i, j);
    s := Replace(page, marks, body).value;
  }

  /** The page `s` after the earlier edit and `sn` after both; `t` after the later edit and `tm` after both. */
  ghost predicate BothWays(
    page: string, m: Marks, first: string, i: nat, j: nat, n: Marks, second: string, k: nat, l: nat,
    s: string, sn: string, t: string, tm: string, k': nat, l': nat)
  {
    i + |m.begin| <= j <= k && k + |n.begin| <= l <= |page| &&
    k' == k + NewEnd(m, first, i) - j && l' == l + NewEnd(m, first, i) - j &&
    Edited(page, s, m, first, i, j) && Edited(page, t, n, second, k, l) &&
    l' <= |s| && Edited(s, sn, n, second, k', l') && j <= |t| && Edited(t, tm, m, first, i, j)
  }

  lemma SameUpToEarlier(
    page: string, m: Marks, first: string, i: nat, j: nat, n: Marks, second: string, k: nat, l: nat,
    s: string, sn: string, t: string, tm: string, k': nat, l': nat)
    requires BothWays(page, m, first, i, j, n, second, k, l, s, sn, t, tm, k', l')
    ensures NewEnd(m, first, i) <= |sn| && NewEnd(m, first, i) <= |tm|
    ensures forall x :: 0 <= x < NewEnd(m, first, i) ==> sn[x] == tm[x]
  {
    var b, e := i + |m.begin|, NewEnd(m, first, i);
    forall x | 0 <= x < e ensures sn[x] == tm[x] {
      assert sn[x] == s[x];
      if x < b {
        assert s[x] == page[x] && tm[x] == t[x] && t[x] == page[x];
      } else if b + 2 <= x < b + 2 + |first| {
        assert s[x] == first[x - b - 2] && tm[x] == first[x - b - 2];
      }
    }
  }

  lemma SameBetween(
    page: string, m: Marks, first: string, i: nat, j: nat, n: Marks, second: string, k: nat, l: nat,
    s: string, sn: string, t: string, tm: string, k': nat, l': nat, y: nat)
    requires BothWays(page, m, first, i, j, n, second, k, l, s, sn, t, tm, k', l')
    requires j <= y < k + |n.begin|
    ensures y + k' - k < |sn| && y + k' - k < |tm| && sn[y + k' - k] == tm[y + k' - k]
  {
    var x := y + k' - k;
    assert sn[x] == s[x] && s[x] == page[y];
    assert tm[x] == t[y] && t[y] == page[y];
  }

  lemma SameInLater(
    page: string, m: Marks, first: string, i: nat, j: nat, n: Marks, second: string, k: nat, l: nat,
    s: string, sn: string, t: string, tm: string, k': nat, l': nat, y: nat)
    requires BothWays(page, m, first, i, j, n, second, k, l, s, sn, t, tm, k', l')
    requires k + |n.begin| <= y < NewEnd(n, second, k)
    ensures y + k' - k < |sn| && y + k' - k < |tm| && sn[y + k' - k] == tm[y + k' - k]
  {
    var x, c := y + k' - k, k + |n.begin|;
    assert tm[x] == t[y];
    if c + 2 <= y < c + 2 + |second| {
      assert t[y] == second[y - c - 2] && sn[x] == second[y - c - 2];
    }
  }

  /** What stands from `at` on has moved by `shift`. */
  ghost predicate Moved(page: string, s: string, at: nat, shift: int) {
    |s| == |page| + shift && at + shift >= 0 && forall k :: at <= k < |page| ==> s[k + shift] == page[k]
  }

  lemma TailMoved(page: string, s: string, marks: Marks, body: string, i: nat, j: nat)
    requires i + |marks.begin| <= j <= |page| && Edited(page, s, marks, body, i, j)
    ensures Moved(page, s, j, NewEnd(marks, body, i) - j)
  {
    var e := NewEnd(marks, body, i);
    forall k | j <= k < |page| ensures s[k + (e - j)] == page[k] {
      assert s[k - j + e] == page[k];
    }
  }

  lemma AfterLater(
    page: string, m: Marks, first: string, i: nat, j: nat, n: Marks, second: string, k: nat, l: nat,
    s: string, sn: string, t: string, tm: string, k': nat, l': nat)
    requires i + |m.begin| <= j <= k && k + |n.begin| <= l <= |page| && j <= |t| && k' + |n.begin| <= l' <= |s|
    requires l' == l + NewEnd(m, first, i) - j && k' == k + NewEnd(m, first, i) - j
    requires Edited(page, s, m, first, i, j) && Edited(page, t, n, second, k, l)
    requires Edited(s, sn, n, second, k', l') && Edited(t, tm, m, first, i, j)
    ensures var d, g := NewEnd(m, first, i) - j, NewEnd(n, second, k) - l;
      Moved(page, s, j, d) && Moved(page, t, l, g) && Moved(s, sn, l', g) && Moved(t, tm, j, d)
  {
    TailMoved(page, s, m, first, i, j);
    TailMoved(page, t, n, second, k, l);
    TailMoved(s, sn, n, second, k', l');
    TailMoved(t, tm, m, first, i, j);
  }

  lemma SameAfterLater(
    page: string, s: string, sn: string, t: string, tm: string, j: nat, l: nat, l': nat, d: int, g: int, z: nat)
    requires Moved(page, s, j, d) && l' == l + d && Moved(s, sn, l', g)
    requires Moved(page, t, l, g) && Moved(t, tm, j, d)
    requires j <= l <= z < |page| && j <= l + g
    ensures 0 <= z + g + d < |sn| && z + g + d < |tm| && sn[z + g + d] == tm[z + g + d]
  {
    assert s[z + d] == page[z] && sn[z + d + g] == s[z + d];
    assert t[z + g] == page[z] && tm[z + g + d] == t[z + g];
  }

  lemma SameInTail(
    page: string, m: Marks, first: string, i: nat, j: nat, n: Marks, second: string, k: nat, l: nat,
    s: string, sn: string, t: string, tm: string, k': nat, l': nat, z: nat)
    requires BothWays(page, m, first, i, j, n, second, k, l, s, sn, t, tm, k', l')
    requires l <= z < |page|
    ensures var x := z - l + NewEnd(n, second, k) + k' - k;
      x < |sn| && x < |tm| && sn[x] == tm[x]
  {
    AfterLater(page, m, first, i, j, n, second, k, l, s, sn, t, tm, k', l');
    SameAfterLater(page, s, sn, t, tm, j, l, l', k' - k, NewEnd(n, second, k) - l, z);
  }

  lemma SameFromLater(
    page: string, m: Marks, first: string, i: nat, j: nat, n: Marks, second: string, k: nat, l: nat,
    s: string, sn: string, t: string, tm: string, k': nat, l': nat)
    requires BothWays(page, m, first, i, j, n, second, k, l, s, sn, t, tm, k', l')
    ensures |sn| == |tm|
    ensures forall x :: NewEnd(m, first, i) <= x < |sn| ==> sn[x] == tm[x]
  {
    var d, c, f := k' - k, k + |n.begin|, NewEnd(n, second, k);
    forall x | NewEnd(m, first, i) <= x < |sn| ensures sn[x] == tm[x] {
      var y := x - d;
      if y < c {
        SameBetween(page, m, first, i, j, n, second, k, l, s, sn, t, tm, k', l', y);
      } else if y < f {
        SameInLater(page, m, first, i, j, n, second, k, l, s, sn, t, tm, k', l', y);
      } else {
        SameInTail(page, m, first, i, j, n, second, k, l, s, sn, t, tm, k', l', y - f + l);
      }
    }
  }

  /** Editing the earlier block and then the later gives the characters that the other order gives. */
  lemma SameCharacters(
    page: string, m: Marks, first: string, i: nat, j: nat, n: Marks, second: string, k: nat, l: nat,
    s: string, sn: string, t: string, tm: string, k': nat, l': nat)
    requires BothWays(page, m, first, i, j, n, second, k, l, s, sn, t, tm, k', l')
    ensures sn == tm
  {
    SameUpToEarlier(page, m, first, i, j, n, second, k, l, s, sn, t, tm, k', l');
    SameFromLater(page, m, first, i, j, n, second, k, l, s, sn, t, tm, k', l');
  }

  /** Edits to two disjoint blocks can be made in either order. */
  lemma DisjointBlocksCommute(
    page: string, m: Marks, first: string, i: nat, j: nat, n: Marks, second: string, k: nat, l: nat,
    s: string, t: string)
    requires Before(page, m, i, j, n, k, l) && OneLine(n) && !Text.Contains(first, n.begin)
    requires Replace(page, m, first) == Ok(s) && Replace(page, n, second) == Ok(t)
    ensures Replace(s, n, second).Ok? && Replace(s, n, second) == Replace(t, m, first)
  {
    EditOf(page, s, m, first, i, j);
    EditOf(page, t, n, second, k, l);
    var k', l' := k + NewEnd(m, first, i) - j, l + NewEnd(m, first, i) - j;
    var sn := EarlierThenLater(page, s, m, first, i, j, n, second, k, l, k', l');
    var tm := LaterThenEarlier(page, t, m, first, i, j, n, second, k, l);
    SameCharacters(page, m, first, i, j, n, second, k, l, s, sn, t, tm, k', l');
  }

  lemma EarlierThenLater(
    page: string, s: string, m: Marks, first: string, i: nat, j: nat, n: Marks, second: string, k: nat, l: nat,
    k': nat, l': nat)
    returns (sn: string)
    requires Before(page, m, i, j, n, k, l) && OneLine(n) && !Text.Contains(first, n.begin)
    requires Edited(page, s, m, first, i, j)
    requires k' == k + NewEnd(m, first, i) - j && l' == l + NewEnd(m, first, i) - j
    ensures Located(s, n, k', l') && Edited(s, sn, n, second, k', l') && Replace(s, n, second) == Ok(sn)
  {
    assert Located(s, n, k', l') by {
      EarlierShiftsLater(page, s, m, i, j, n, k, l, first);
    }
    sn := Edit(s, n, second, k', l');
  }

  lemma LaterThenEarlier(
    page: string, t: string, m: Marks, first: string, i: nat, j: nat, n: Marks, second: string, k: nat, l: nat)
    returns (tm: string)
    requires Before(page, m, i, j, n, k, l) && Edited(page, t, n, second, k, l)
    ensures Located(t, m, i, j) && Edited(t, tm, m, first, i, j) && Replace(t, m, first) == Ok(tm)
  {
    LaterKeepsEarlier(page, t, m, i, j, n, k, l, second);
    tm := Edit(t, m, first, i, j);
  }

  // ---------------------------------------------------------------- rendering the page

  /** Both blocks are there and neither overlaps the other, in either order. */
  ghost predicate Disjoint(page: string, m: Marks, n: Marks) {
    (exists i, j, k, l :: Before(page, m, i, j, n, k, l)) || exists i, j, k, l :: Before(page, n, i, j, m, k, l)
  }

  /** A body that a later run could not mistake for one of these markers. */
  predicate Neutral(body: string, m: Marks, n: Marks) {
    !Text.Contains(body, m.begin) && !Text.Contains(body, m.end) &&
    !Text.Contains(body, n.begin) && !Text.Contains(body, n.end)
  }

  lemma EditsCommute(page: string, m: Marks, first: string, n: Marks, second: string, s: string, t: string)
    requires Disjoint(page, m, n) && OneLine(m) && OneLine(n) && Neutral(first, m, n) && Neutral(second, m, n)
    requires Replace(page, m, first) == Ok(s) && Replace(page, n, second) == Ok(t)
    ensures Replace(s, n, second).Ok? && Replace(s, n, second) == Replace(t, m, first)
  {
    if i, j, k, l :| Before(page, m, i, j, n, k, l) {
      DisjointBlocksCommute(page, m, first, i, j, n, second, k, l, s, t);
    } else {
      var i, j, k, l :| Before(page, n, i, j, m, k, l);
      DisjointBlocksCommute(page, n, second, i, j, m, first, k, l, t, s);
    }
  }

  lemma EditKeepsLater(page: string, m: Marks, i: nat, j: nat, n: Marks, k: nat, l: nat, body: string)
    returns (s: string)
    requires Before(page, m, i, j, n, k, l) && OneLine(m) && OneLine(n) && Neutral(body, m, n)
    ensures Replace(page, m, body) == Ok(s) && Disjoint(s, m, n)
  {
    s := Edit(page, m, body, i, j);
    LaterStaysLater(page, s, m, i, j, n, k, l, body);
  }

  lemma BeforeStays(page: string, s: string, m: Marks, i: nat, j: nat, n: Marks, k: nat, l: nat, body: string)
    requires Before(page, m, i, j, n, k, l) && OneLine(m) && OneLine(n) && Edited(page, s, m, body, i, j)
    requires !Text.Contains(body, m.end) && !Text.Contains(body, n.begin)
    ensures exists e, k', l' :: Before(s, m, i, e, n, k', l')
  {
    var d := NewEnd(m, body, i) - j;
    EditedIsLocated(page, s, m, body, i, j);
    EarlierShiftsLater(page, s, m, i, j, n, k, l, body);
    assert Before(s, m, i, NewEnd(m, body, i), n, k + d, l + d);
  }

  lemma LaterStaysLater(page: string, s: string, m: Marks, i: nat, j: nat, n: Marks, k: nat, l: nat, body: string)
    requires Before(page, m, i, j, n, k, l) && OneLine(m) && OneLine(n) && Neutral(body, m, n)
    requires Edited(page, s, m, body, i, j)
    ensures Disjoint(s, m, n)
  {
    BeforeStays(page, s, m, i, j, n, k, l, body);
  }

  lemma EditKeepsEarlier(page: string, n: Marks, i: nat, j: nat, m: Marks, k: nat, l: nat, body: string)
    returns (s: string)
    requires Before(page, n, i, j, m, k, l) && OneLine(m) && Neutral(body, m, n)
    ensures Replace(page, m, body) == Ok(s) && Disjoint(s, m, n)
  {
    s := Edit(page, m, body, k, l);
    EditedIsLocated(page, s, m, body, k, l);
    LaterKeepsEarlier(page, s, n, i, j, m, k, l, body);
    assert Before(s, n, i, j, m, k, NewEnd(m, body, k));
  }

  lemma EditKeepsDisjoint(page: string, m: Marks, body: string, n: Marks) returns (s: string)
    requires Disjoint(page, m, n) && OneLine(m) && OneLine(n) && Neutral(body, m, n)
    ensures Replace(page, m, body) == Ok(s) && Disjoint(s, m, n)
  {
    if i, j, k, l :| Before(page, m, i, j, n, k, l) {
      s := EditKeepsLater(page, m, i, j, n, k, l, body);
    } else {
      var i, j, k, l :| Before(page, n, i, j, m, k, l);
      s := EditKeepsEarlier(page, n, i, j, m, k, l, body);
    }
  }

  function EditBoth(page: string, m: Marks, first: string, n: Marks, second: string): Result<string, PageError> {
    match Replace(page, m, first)
    case Err(e) => Err(e)
    case Ok(s) => Replace(s, n, second)
  }

  /** Regenerating a page twice is regenerating it once. */
  lemma EditBothIsStable(page: string, m: Marks, first: string, n: Marks, second: string)
    requires Disjoint(page, m, n) && OneLine(m) && OneLine(n) && Neutral(first, m, n) && Neutral(second, m, n)
    ensures var r := EditBoth(page, m, first, n, second);
      r.Ok? && EditBoth(r.value, m, first, n, second) == r
  {
    var s := EditKeepsDisjoint(page, m, first, n);
    PutAfterPut(page, m, first, first);
    StableOnEdited(s, m, first, n, second);
  }

  lemma StableOnEdited(s: string, m: Marks, first: string, n: Marks, second: string)
    requires Disjoint(s, m, n) && OneLine(m) && OneLine(n) && Neutral(first, m, n) && Neutral(second, m, n)
    requires Replace(s, m, first) == Ok(s)
    ensures var r := Replace(s, n, second);
      r.Ok? && EditBoth(r.value, m, first, n, second) == r
  {
    assert Disjoint(s, n, m);
    var t := EditKeepsDisjoint(s, n, second, m);
    EditsCommute(s, m, first, n, second, s, t);
    PutAfterPut(s, n, second, second);
  }

  /**
   With the first block before the second, and its body free of the markers that matter there,
   regenerating twice is regenerating once exactly when the second body does not hold its own end marker.
   */
  lemma EditBothIsStableInOrder(
    page: string, m: Marks, first: string, i: nat, j: nat, n: Marks, second: string, k: nat, l: nat)
    requires Before(page, m, i, j, n, k, l) && OneLine(m) && OneLine(n)
    requires !Text.Contains(first, m.end) && !Text.Contains(first, n.begin)
    ensures var r := EditBoth(page, m, first, n, second);
      r.Ok? && (EditBoth(r.value, m, first, n, second) == r <==> !Text.Contains(second, n.end))
  {
    var s := Edit(page, m, first, i, j);
    PutAfterPut(page, m, first, first);
    BeforeStays(page, s, m, i, j, n, k, l, first);
    StableInOrder(s, m, first, i, n, second);
  }

  /** The same with the block that is edited first standing after the other. */
  lemma EditBothIsStableReversed(
    page: string, m: Marks, first: string, k: nat, l: nat, n: Marks, second: string, i: nat, j: nat)
    requires Before(page, n, i, j, m, k, l) && OneLine(m) && OneLine(n)
    requires !Text.Contains(first, m.end) && !Text.Contains(second, m.begin)
    ensures var r := EditBoth(page, m, first, n, second);
      r.Ok? && (EditBoth(r.value, m, first, n, second) == r <==> !Text.Contains(second, n.end))
  {
    var s := Edit(page, m, first, k, l);
    PutAfterPut(page, m, first, first);
    EditedIsLocated(page, s, m, first, k, l);
    LaterKeepsEarlier(page, s, n, i, j, m, k, l, first);
    StableReversed(s, m, first, k, NewEnd(m, first, k), n, second, i, j);
  }

  lemma StableReversed(s: string, m: Marks, first: string, k: nat, l: nat, n: Marks, second: string, i: nat, j: nat)
    requires Before(s, n, i, j, m, k, l) && OneLine(m) && OneLine(n) && !Text.Contains(second, m.begin)
    requires Replace(s, m, first) == Ok(s)
    ensures var r := Replace(s, n, second);
      r.Ok? && (EditBoth(r.value, m, first, n, second) == r <==> !Text.Contains(second, n.end))
  {
    var u := Edit(s, n, second, i, j);
    DisjointBlocksCommute(s, n, second, i, j, m, first, k, l, u, s);
    PutAfterPut(s, n, second, second);
  }

  lemma StableInOrder(s: string, m: Marks, first: string, i: nat, n: Marks, second: string)
    requires (exists j, k, l :: Before(s, m, i, j, n, k, l)) && OneLine(n) && !Text.Contains(first, n.begin)
    requires Replace(s, m, first) == Ok(s)
    ensures var r := Replace(s, n, second);
      r.Ok? && (EditBoth(r.value, m, first, n, second) == r <==> !Text.Contains(second, n.end))
  {
    var j, k, l :| Before(s, m, i, j, n, k, l);
    var u := Edit(s, n, second, k, l);
    DisjointBlocksCommute(s, m, first, i, j, n, second, k, l, s, u);
    PutAfterPut(s, n, second, second);
  }

  // ---------------------------------------------------------------- pages on which the editor fails

  /** A `<` at the start, and no other. */
  predicate Tag(p: string) {
    |p| > 16 && p[0] == '<' && forall x :: 0 < x < |p| ==> p[x] != '<'
  }

  lemma MarksAreTags(marker: string)
    requires NoAngle(marker) && marker != ""
    ensures var m := MarksOf(marker);
      Tag(m.begin) && Tag(m.end) && m.begin[5] == 'g' && m.end[5] == 'e' && m.begin[16] == marker[0]
  {
    var m := MarksOf(marker);
    TagOf("<!-- generated: ", marker);
    TagOf("<!-- end generated: ", marker);
  }

  lemma TagOf(lead: string, marker: string)
    requires NoAngle(marker) && marker != "" && |lead| >= 16
    requires lead[0] == '<' && forall x :: 0 < x < |lead| ==> lead[x] != '<'
    ensures Tag(lead + marker + " -->") && (lead + marker + " -->")[5] == lead[5]
    ensures (lead + marker + " -->")[|lead|] == marker[0]
  {
    var s := lead + marker + " -->";
    forall x | 0 < x < |s| ensures s[x] != '<' {
      if |lead| <= x < |lead| + |marker| {
        assert s[x] == marker[x - |lead|] && marker[x - |lead|] in marker;
      }
    }
  }

  /** Where a tag stands in the text, no tag that differs from it at `x` begins. */
  lemma OtherTag(s: string, i: nat, p: string, q: string, k: nat, x: nat)
    requires Tag(p) && Tag(q) && x <= 16 && p[x] != q[x] && Text.At(s, p, i) && i <= k < i + |p|
    ensures !Text.At(s, q, k)
  {
    Text.AtIndex(s, p, i, k - i);
    if k == i {
      Text.AtIndex(s, p, i, x);
      Text.NotAt(s, q, k, x);
    } else {
      Text.NotAt(s, q, k, 0);
    }
  }

  /** The page that holds the end marker and then the begin marker gets the unpacking error. */
  lemma EndBeforeBeginEscapes(marker: string, body: string)
    requires NoAngle(marker) && marker != ""
    ensures var m := MarksOf(marker);
      Replace(m.end + m.begin, m, body) == Err(EndBeforeBegin(m))
  {
    var m := MarksOf(marker);
    var page := m.end + m.begin;
    MarksAreTags(marker);
    assert Text.At(page, m.end, 0) && Text.At(page, m.begin, |m.end|);
    Text.ContainsAt(page, m.end, 0);
    Text.ContainsAt(page, m.begin, |m.end|);
    forall i: nat, j: nat | Text.At(page, m.begin, i) && i + |m.begin| <= j ensures !Text.At(page, m.end, j) {
      if i < |m.end| {
        OtherTag(page, 0, m.end, m.begin, i, 5);
        assert false;
      }
    }
    ReplaceSucceedsOnBlocks(page, m, body);
  }

  /** Two empty blocks, one after the other. */
  function Bare(m: Marks, n: Marks): string {
    m.begin + (m.end + (n.begin + n.end))
  }

  lemma BareIsBefore(first: string, second: string)
    requires NoAngle(first) && NoAngle(second) && first != "" && second != "" && first[0] != second[0]
    ensures var m, n := MarksOf(first), MarksOf(second);
      var k := |m.begin| + |m.end|;
      Before(Bare(m, n), m, 0, |m.begin|, n, k, k + |n.begin|)
  {
    var m, n := MarksOf(first), MarksOf(second);
    var s, k := Bare(m, n), |m.begin| + |m.end|;
    MarksAreTags(first);
    MarksAreTags(second);
    BareMarkers(m, n);
    forall x | 0 <= x < k ensures !Text.At(s, n.begin, x) {
      if x < |m.begin| {
        OtherTag(s, 0, m.begin, n.begin, x, 16);
      } else {
        OtherTag(s, |m.begin|, m.end, n.begin, x, 5);
      }
    }
  }

  lemma BareMarkers(m: Marks, n: Marks)
    ensures var s, k := Bare(m, n), |m.begin| + |m.end|;
      Text.At(s, m.begin, 0) && Text.At(s, m.end, |m.begin|) &&
      Text.At(s, n.begin, k) && Text.At(s, n.end, k + |n.begin|)
  {
    var s := Bare(m, n);
    Text.DropAppend(m.begin, m.end + (n.begin + n.end), 0);
    assert s[|m.begin|..] == m.end + (n.begin + n.end);
    assert s[|m.begin| + |m.end|..] == n.begin + n.end;
    assert s[|m.begin| + |m.end| + |n.begin|..] == n.end;
  }

  // ---------------------------------------------------------------- the tables

  datatype Target = Target(severity: string, acknowledgeDays: nat, fixDays: nat)

  datatype Advisory = Advisory(
    id: string, title: string, severity: string, affected: seq<string>, fixed: seq<string>, published: Option<string>)

  const TARGETS := MarksOf("response-targets")
  const ADVISORIES := MarksOf("advisories")

  function Cell(s: string): string {
    " " + s + " "
  }

  function Line(cells: seq<string>): string {
    Text.Join("|", [""] + cells + [""]) + "\n"
  }

  /** The head of a table: its columns, and the rule under them. */
  function Head(columns: seq<string>): string {
    Line(columns) + Line(seq(|columns|, _ => " --- "))
  }

  const TARGET_COLUMNS := [" Severity ", " Acknowledged within ", " Fix released within "]
  const ADVISORY_COLUMNS := [" ID ", " Summary ", " Severity ", " Affected ", " Fixed in ", " Published "]

  predicate Newline(c: char) {
    c == '\n'
  }

  /** What stands between the bars of a row. */
  function TargetCells(t: Target): seq<string> {
    ["", Cell(t.severity),
     Cell(Text.Decimal(t.acknowledgeDays) + " day(s)"), Cell(Text.Decimal(t.fixDays) + " day(s)"), ""]
  }

  function TargetRow(t: Target): string {
    Text.Join("|", TargetCells(t))
  }

  function TargetRows(known: seq<Target>): string {
    if known == [] then "" else TargetRow(known[0]) + "\n" + TargetRows(known[1..])
  }

  function TargetsTable(known: seq<Target>): string {
    Text.StripRight(Head(TARGET_COLUMNS) + TargetRows(known), Newline)
  }

  function OrElse(s: string, other: string): string {
    if s != "" then s else other
  }

  function AdvisoryCells(r: Advisory): seq<string> {
    [""] + [
      Cell(r.id), Cell(r.title), Cell(r.severity), Cell(Text.Join(", ", r.affected)),
      Cell(OrElse(Text.Join(", ", r.fixed), "\U{2014}")),
      Cell(if r.published.Some? then r.published.value else "embargoed")
    ] + [""]
  }

  function AdvisoryRow(r: Advisory): string {
    Text.Join("|", AdvisoryCells(r))
  }

  function AdvisoryRows(records: seq<Advisory>): string {
    if records == [] then "" else AdvisoryRow(records[0]) + "\n" + AdvisoryRows(records[1..])
  }

  function AdvisoriesTable(records: seq<Advisory>): string {
    if records == [] then "No advisories have been published."
    else Text.StripRight(Head(ADVISORY_COLUMNS) + AdvisoryRows(records), Newline)
  }

  function Render(page: string, known: seq<Target>, records: seq<Advisory>): Result<string, PageError> {
    EditBoth(page, TARGETS, TargetsTable(known), ADVISORIES, AdvisoriesTable(records))
  }

  /** No text that goes into a table opens an HTML comment. */
  predicate NoAngle(s: string) {
    '<' !in s
  }

  predicate AllNoAngle(parts: seq<string>) {
    forall i :: 0 <= i < |parts| ==> NoAngle(parts[i])
  }

  predicate PlainTarget(t: Target) {
    NoAngle(t.severity)
  }

  predicate PlainAdvisory(r: Advisory) {
    NoAngle(r.id) && NoAngle(r.title) && NoAngle(r.severity) && AllNoAngle(r.affected) && AllNoAngle(r.fixed) &&
    (r.published.Some? ==> NoAngle(r.published.value))
  }

  lemma {:induction false} JoinNoAngle(sep: string, parts: seq<string>)
    requires NoAngle(sep) && AllNoAngle(parts)
    ensures NoAngle(Text.Join(sep, parts))
  {
    if |parts| > 1 {
      JoinNoAngle(sep, parts[1..]);
    }
  }

  lemma TargetCellsNoAngle(t: Target)
    requires PlainTarget(t)
    ensures AllNoAngle(TargetCells(t))
  {
    DecimalNoAngle(t.acknowledgeDays);
    DecimalNoAngle(t.fixDays);
  }

  lemma {:induction false} TargetRowsNoAngle(known: seq<Target>)
    requires forall i :: 0 <= i < |known| ==> PlainTarget(known[i])
    ensures NoAngle(TargetRows(known))
  {
    if known != [] {
      TargetRowsNoAngle(known[1..]);
      TargetCellsNoAngle(known[0]);
      JoinNoAngle("|", TargetCells(known[0]));
    }
  }

  lemma DecimalNoAngle(n: nat)
    ensures NoAngle(Text.Decimal(n))
  {
    forall k | 0 <= k < |Text.Decimal(n)| ensures Text.Decimal(n)[k] != '<' {
      assert Text.IsDigit(Text.Decimal(n)[k]);
    }
  }

  lemma AdvisoryCellsNoAngle(r: Advisory)
    requires PlainAdvisory(r)
    ensures AllNoAngle(AdvisoryCells(r))
  {
    JoinNoAngle(", ", r.affected);
    JoinNoAngle(", ", r.fixed);
  }

  lemma {:induction false} AdvisoryRowsNoAngle(records: seq<Advisory>)
    requires forall i :: 0 <= i < |records| ==> PlainAdvisory(records[i])
    ensures NoAngle(AdvisoryRows(records))
  {
    if records != [] {
      AdvisoryRowsNoAngle(records[1..]);
      AdvisoryCellsNoAngle(records[0]);
      JoinNoAngle("|", AdvisoryCells(records[0]));
    }
  }

  lemma NoAngleIsNeutral(body: string)
    requires NoAngle(body)
    ensures Neutral(body, TARGETS, ADVISORIES)
  {
    Text.LacksAt(body, TARGETS.begin, 0);
    Text.LacksAt(body, TARGETS.end, 0);
    Text.LacksAt(body, ADVISORIES.begin, 0);
    Text.LacksAt(body, ADVISORIES.end, 0);
  }

  lemma StrippedNoAngle(s: string)
    requires NoAngle(s)
    ensures NoAngle(Text.StripRight(s, Newline))
  {
    Text.StripRightTrims(s, Newline);
  }

  /**
   Over tables that hold no marker, a page with both blocks regenerates, and regenerating the
   result changes nothing: the committed page passes the drift check.
   */
  lemma RenderIsStable(page: string, known: seq<Target>, records: seq<Advisory>)
    requires Disjoint(page, TARGETS, ADVISORIES)
    requires Neutral(TargetsTable(known), TARGETS, ADVISORIES) && Neutral(AdvisoriesTable(records), TARGETS, ADVISORIES)
    ensures var r := Render(page, known, records);
      r.Ok? && Render(r.value, known, records) == r
  {
    TargetMarkersAreOneLine();
    AdvisoryMarkersAreOneLine();
    EditBothIsStable(page, TARGETS, TargetsTable(known), ADVISORIES, AdvisoriesTable(records));
  }

  /** No table whose cells hold no `<` holds a marker. */
  lemma PlainTablesAreNeutral(known: seq<Target>, records: seq<Advisory>)
    requires forall i :: 0 <= i < |known| ==> PlainTarget(known[i])
    requires forall i :: 0 <= i < |records| ==> PlainAdvisory(records[i])
    ensures Neutral(TargetsTable(known), TARGETS, ADVISORIES) && Neutral(AdvisoriesTable(records), TARGETS, ADVISORIES)
  {
    TargetRowsNoAngle(known);
    AdvisoryRowsNoAngle(records);
    TablesAreNeutral(known, records);
  }

  /**
   With the targets above the advisories, as the published page has them, regenerating twice is
   regenerating once exactly when the table of advisories does not hold its own end marker.
   */
  lemma RenderIsStableExactly(
    page: string, known: seq<Target>, records: seq<Advisory>, i: nat, j: nat, k: nat, l: nat)
    requires Before(page, TARGETS, i, j, ADVISORIES, k, l)
    requires !Text.Contains(TargetsTable(known), TARGETS.end) && !Text.Contains(TargetsTable(known), ADVISORIES.begin)
    ensures var r := Render(page, known, records);
      r.Ok? && (Render(r.value, known, records) == r <==> !Text.Contains(AdvisoriesTable(records), ADVISORIES.end))
  {
    TargetMarkersAreOneLine();
    AdvisoryMarkersAreOneLine();
    EditBothIsStableInOrder(
      page, TARGETS, TargetsTable(known), i, j, ADVISORIES, AdvisoriesTable(records), k, l);
  }

  /** And with the advisories above the targets, likewise. */
  lemma RenderIsStableReversed(
    page: string, known: seq<Target>, records: seq<Advisory>, i: nat, j: nat, k: nat, l: nat)
    requires Before(page, ADVISORIES, i, j, TARGETS, k, l)
    requires !Text.Contains(TargetsTable(known), TARGETS.end) && !Text.Contains(AdvisoriesTable(records), TARGETS.begin)
    ensures var r := Render(page, known, records);
      r.Ok? && (Render(r.value, known, records) == r <==> !Text.Contains(AdvisoriesTable(records), ADVISORIES.end))
  {
    TargetMarkersAreOneLine();
    AdvisoryMarkersAreOneLine();
    EditBothIsStableReversed(
      page, TARGETS, TargetsTable(known), k, l, ADVISORIES, AdvisoriesTable(records), i, j);
  }

  lemma {:induction false} PartInJoin(sep: string, parts: seq<string>, k: nat) returns (i: nat)
    requires k < |parts|
    ensures Text.At(Text.Join(sep, parts), parts[k], i)
  {
    i := 0;
    if |parts| > 1 {
      var s, rest := Text.Join(sep, parts), Text.Join(sep, parts[1..]);
      if k == 0 {
        BeforeTail(parts[0], sep + rest);
        assert s == parts[0] + (sep + rest);
      } else {
        i := PartInJoin(sep, parts[1..], k - 1);
        var m := |parts[0]| + |sep|;
        AfterHead(parts[0] + sep, rest);
        AtInsideOf(s, rest, m, parts[k], i);
        i := m + i;
      }
    }
  }

  lemma AtInsideOf(s: string, inner: string, m: nat, x: string, i: nat)
    requires Text.At(s, inner, m) && Text.At(inner, x, i)
    ensures Text.At(s, x, m + i)
  {
    forall k | i <= k < i + |x| ensures inner[k] == s[k + m] {
      Text.AtIndex(s, inner, m, k);
    }
    Text.AtInside(inner, s, x, i, m);
  }

  lemma AfterHead(head: string, rest: string)
    ensures Text.At(head + rest, rest, |head|)
  {
  }

  lemma BeforeTail(head: string, rest: string)
    ensures Text.At(head + rest, head, 0)
  {
  }

  lemma KeptBeforeStrip(s: string, x: string, i: nat)
    requires x != "" && !Newline(x[|x| - 1]) && Text.At(s, x, i)
    ensures Text.Contains(Text.StripRight(s, Newline), x)
  {
    var r := Text.StripRight(s, Newline);
    assert s[i..i + |x|][|x| - 1] == s[i + |x| - 1];
    Text.StripRightStops(s, Newline, i + |x| - 1);
    Text.StripRightTrims(s, Newline);
    Text.AtInside(s, r, x, i, 0);
    Text.ContainsAt(r, x, i);
  }

  lemma TitleInRow(r: Advisory) returns (i: nat)
    ensures Text.At(AdvisoryRow(r), r.title, i)
  {
    var k := PartInJoin("|", AdvisoryCells(r), 2);
    AfterHead(" ", r.title + " ");
    BeforeTail(r.title, " ");
    assert Cell(r.title) == " " + (r.title + " ");
    AtInsideOf(Cell(r.title), r.title + " ", 1, r.title, 0);
    AtInsideOf(AdvisoryRow(r), Cell(r.title), k, r.title, 1);
    i := k + 1;
  }

  lemma TitleInRows(records: seq<Advisory>) returns (i: nat)
    requires records != []
    ensures Text.At(AdvisoryRows(records), records[0].title, i)
  {
    var row, more := AdvisoryRow(records[0]), "\n" + AdvisoryRows(records[1..]);
    i := TitleInRow(records[0]);
    BeforeTail(row, more);
    assert AdvisoryRows(records) == row + more;
    AtInsideOf(row + more, row, 0, records[0].title, i);
  }

  /** A title is in the table as it stands. */
  lemma TitleInTable(records: seq<Advisory>)
    requires records != [] && records[0].title != "" && !Newline(records[0].title[|records[0].title| - 1])
    ensures Text.Contains(AdvisoriesTable(records), records[0].title)
  {
    var i := TitleInRows(records);
    InAfterHead(Head(ADVISORY_COLUMNS), AdvisoryRows(records), records[0].title, i);
  }

  lemma InAfterHead(head: string, rows: string, x: string, i: nat)
    requires Text.At(rows, x, i) && x != "" && !Newline(x[|x| - 1])
    ensures Text.Contains(Text.StripRight(head + rows, Newline), x)
  {
    AfterHead(head, rows);
    AtInsideOf(head + rows, rows, |head|, x, i);
    KeptBeforeStrip(head + rows, x, |head| + i);
  }

  /** An advisory titled with the end marker: on the page of two empty blocks the second run adds to the first. */
  lemma MarkerInTitleGrowsPage(record: Advisory)
    requires record.title == ADVISORIES.end
    ensures var r := Render(Bare(TARGETS, ADVISORIES), [], [record]);
      r.Ok? && Render(r.value, [], [record]) != r
  {
    assert NoAngle("response-targets") && NoAngle("advisories");
    var k := |TARGETS.begin| + |TARGETS.end|;
    BareIsBefore("response-targets", "advisories");
    MarksAreTags("advisories");
    assert record.title[|record.title| - 1] == '>';
    TitleInTable([record]);
    ColumnsNoAngle();
    HeadNoAngle(TARGET_COLUMNS);
    TableIsNeutral(Head(TARGET_COLUMNS), TargetRows([]));
    RenderIsStableExactly(
      Bare(TARGETS, ADVISORIES), [], [record], 0, |TARGETS.begin|, k, k + |ADVISORIES.begin|);
  }

  lemma LineNoAngle(cells: seq<string>)
    requires AllNoAngle(cells)
    ensures NoAngle(Line(cells))
  {
    JoinNoAngle("|", [""] + cells + [""]);
  }

  lemma HeadNoAngle(columns: seq<string>)
    requires AllNoAngle(columns)
    ensures NoAngle(Head(columns))
  {
    LineNoAngle(columns);
    LineNoAngle(seq(|columns|, _ => " --- "));
  }

  lemma ColumnsNoAngle()
    ensures AllNoAngle(TARGET_COLUMNS) && AllNoAngle(ADVISORY_COLUMNS)
  {
  }

  lemma FramedAreSeparable(columns: seq<string>, cells: seq<string>)
    requires forall i :: 0 <= i < |columns| ==> Text.Separable(columns[i], "|")
    requires cells == [""] + columns + [""]
    ensures forall i :: 0 <= i < |cells| ==> Text.Separable(cells[i], "|")
  {
    Text.FreeIsSeparable("", "|");
    forall i | 0 <= i < |cells| ensures Text.Separable(cells[i], "|") {
      if 0 < i <= |columns| {
        assert cells[i] == columns[i - 1];
      } else {
        assert cells[i] == "";
      }
    }
  }

  /** The columns of a table stand in its first line, in order. */
  lemma HeadShowsColumns(columns: seq<string>)
    requires forall i :: 0 <= i < |columns| ==> Text.Separable(columns[i], "|")
    ensures Text.Split(Text.Join("|", [""] + columns + [""]), "|") == [""] + columns + [""]
  {
    FramedAreSeparable(columns, [""] + columns + [""]);
    Text.SplitJoin([""] + columns + [""], "|");
  }

  lemma TableIsNeutral(head: string, rows: string)
    requires NoAngle(head) && NoAngle(rows)
    ensures Neutral(Text.StripRight(head + rows, Newline), TARGETS, ADVISORIES)
  {
    StrippedNoAngle(head + rows);
    NoAngleIsNeutral(Text.StripRight(head + rows, Newline));
  }

  lemma TargetMarkersAreOneLine()
    ensures OneLine(TARGETS)
  {
  }

  lemma AdvisoryMarkersAreOneLine()
    ensures OneLine(ADVISORIES)
  {
  }

  lemma TablesAreNeutral(known: seq<Target>, records: seq<Advisory>)
    requires NoAngle(TargetRows(known)) && NoAngle(AdvisoryRows(records))
    ensures Neutral(TargetsTable(known), TARGETS, ADVISORIES) && Neutral(AdvisoriesTable(records), TARGETS, ADVISORIES)
  {
    ColumnsNoAngle();
    HeadNoAngle(TARGET_COLUMNS);
    HeadNoAngle(ADVISORY_COLUMNS);
    TableIsNeutral(Head(TARGET_COLUMNS), TargetRows(known));
    TableIsNeutral(Head(ADVISORY_COLUMNS), AdvisoryRows(records));
    NoAngleIsNeutral("No advisories have been published.");
  }

  // ---------------------------------------------------------------- what the tables show

  lemma ThreeColumns(a: string, b: string, c: string)
    requires Text.Separable(a, "|") && Text.Separable(b, "|") && Text.Separable(c, "|")
    ensures Text.Split(Text.Join("|", [""] + [a, b, c] + [""]), "|") == [""] + [a, b, c] + [""]
  {
    HeadShowsColumns([a, b, c]);
  }

  /** The columns of the targets, by name. */
  lemma TargetColumnsByName()
    ensures Text.Split(Text.Join("|", [""] + TARGET_COLUMNS + [""]), "|") ==
      [""] + [" Severity ", " Acknowledged within ", " Fix released within "] + [""]
  {
    Text.FreeIsSeparable(" Severity ", "|");
    Text.FreeIsSeparable(" Acknowledged within ", "|");
    Text.FreeIsSeparable(" Fix released within ", "|");
    ThreeColumns(" Severity ", " Acknowledged within ", " Fix released within ");
  }

  lemma SixColumns(a: string, b: string, c: string, d: string, e: string, f: string)
    requires Text.Separable(a, "|") && Text.Separable(b, "|") && Text.Separable(c, "|")
    requires Text.Separable(d, "|") && Text.Separable(e, "|") && Text.Separable(f, "|")
    ensures Text.Split(Text.Join("|", [""] + [a, b, c, d, e, f] + [""]), "|") == [""] + [a, b, c, d, e, f] + [""]
  {
    HeadShowsColumns([a, b, c, d, e, f]);
  }

  /** The columns of the advisories, by name. */
  lemma AdvisoryColumnsByName()
    ensures Text.Split(Text.Join("|", [""] + ADVISORY_COLUMNS + [""]), "|") ==
      [""] + [" ID ", " Summary ", " Severity ", " Affected ", " Fixed in ", " Published "] + [""]
  {
    Text.FreeIsSeparable(" ID ", "|");
    Text.FreeIsSeparable(" Summary ", "|");
    Text.FreeIsSeparable(" Severity ", "|");
    Text.FreeIsSeparable(" Affected ", "|");
    Text.FreeIsSeparable(" Fixed in ", "|");
    Text.FreeIsSeparable(" Published ", "|");
    SixColumns(" ID ", " Summary ", " Severity ", " Affected ", " Fixed in ", " Published ");
  }

  predicate NoBar(s: string) {
    '|' !in s
  }

  lemma CellIsSeparable(s: string)
    requires NoBar(s)
    ensures Text.Separable(Cell(s), "|")
  {
    Text.FreeIsSeparable(Cell(s), "|");
  }

  lemma DaysHaveNoBar(n: nat)
    ensures NoBar(Text.Decimal(n) + " day(s)")
  {
    forall k | 0 <= k < |Text.Decimal(n)| ensures Text.Decimal(n)[k] != '|' {
      assert Text.IsDigit(Text.Decimal(n)[k]);
    }
  }

  /** A target's row shows its severity, the days to acknowledge it, and then the days to fix it. */
  lemma TargetRowShows(t: Target)
    requires NoBar(t.severity)
    ensures Text.Split(TargetRow(t), "|") == [
      "", " " + t.severity + " ", " " + (Text.Decimal(t.acknowledgeDays) + " day(s)") + " ",
      " " + (Text.Decimal(t.fixDays) + " day(s)") + " ", ""]
  {
    DaysHaveNoBar(t.acknowledgeDays);
    DaysHaveNoBar(t.fixDays);
    CellIsSeparable(t.severity);
    CellIsSeparable(Text.Decimal(t.acknowledgeDays) + " day(s)");
    CellIsSeparable(Text.Decimal(t.fixDays) + " day(s)");
    Text.FreeIsSeparable("", "|");
    Text.SplitJoin(TargetCells(t), "|");
  }

  /** An advisory's row shows its six columns; no fix yet is a dash, and no publication an embargo. */
  lemma AdvisoryRowShows(r: Advisory)
    requires NoBar(r.id) && NoBar(r.title) && NoBar(r.severity)
    requires NoBar(Text.Join(", ", r.affected)) && NoBar(Text.Join(", ", r.fixed))
    requires r.published.Some? ==> NoBar(r.published.value)
    ensures var fixed := if Text.Join(", ", r.fixed) == "" then "\U{2014}" else Text.Join(", ", r.fixed);
      var published := if r.published == None then "embargoed" else r.published.value;
      Text.Split(AdvisoryRow(r), "|") == [""] + [
        " " + r.id + " ", " " + r.title + " ", " " + r.severity + " ", " " + Text.Join(", ", r.affected) + " ",
        " " + fixed + " ", " " + published + " "] + [""]
  {
    var fixed := OrElse(Text.Join(", ", r.fixed), "\U{2014}");
    var published := if r.published.Some? then r.published.value else "embargoed";
    CellIsSeparable(r.id);
    CellIsSeparable(r.title);
    CellIsSeparable(r.severity);
    CellIsSeparable(Text.Join(", ", r.affected));
    CellIsSeparable(fixed);
    CellIsSeparable(published);
    SixColumns(
      Cell(r.id), Cell(r.title), Cell(r.severity), Cell(Text.Join(", ", r.affected)), Cell(fixed), Cell(published));
  }

  /** Rows stand in the order of the records, one after the other. */
  lemma {:induction false} RowsInOrder(first: seq<Advisory>, later: seq<Advisory>)
    ensures AdvisoryRows(first + later) == AdvisoryRows(first) + AdvisoryRows(later)
  {
    if first == [] {
      assert first + later == later;
    } else {
      assert (first + later)[1..] == first[1..] + later;
      RowsInOrder(first[1..], later);
    }
  }

  lemma {:induction false} TargetsInOrder(first: seq<Target>, later: seq<Target>)
    ensures TargetRows(first + later) == TargetRows(first) + TargetRows(later)
  {
    if first == [] {
      assert first + later == later;
    } else {
      assert (first + later)[1..] == first[1..] + later;
      TargetsInOrder(first[1..], later);
    }
  }

  /** After a run over the published layout, each block holds its own table. */
  lemma RenderedBlocks(page: string, known: seq<Target>, records: seq<Advisory>, i: nat, j: nat, k: nat, l: nat)
    requires Before(page, TARGETS, i, j, ADVISORIES, k, l)
    requires Neutral(TargetsTable(known), TARGETS, ADVISORIES) && Neutral(AdvisoriesTable(records), TARGETS, ADVISORIES)
    ensures var r := Render(page, known, records);
      r.Ok? &&
      (exists a, b :: Holds(r.value, TARGETS, TargetsTable(known), a, b)) &&
      exists a, b :: Holds(r.value, ADVISORIES, AdvisoriesTable(records), a, b)
  {
    TargetMarkersAreOneLine();
    AdvisoryMarkersAreOneLine();
    BothHold(page, TARGETS, TargetsTable(known), i, j, ADVISORIES, AdvisoriesTable(records), k, l);
  }

  /** The block stands there, and holds this body. */
  ghost predicate Holds(page: string, marks: Marks, body: string, i: nat, j: nat) {
    Located(page, marks, i, j) && page[i + |marks.begin|..j] == "\n\n" + body + "\n"
  }

  lemma BothHold(page: string, m: Marks, first: string, i: nat, j: nat, n: Marks, second: string, k: nat, l: nat)
    requires Before(page, m, i, j, n, k, l) && OneLine(m) && OneLine(n) && Neutral(first, m, n) && Neutral(second, m, n)
    ensures var r := EditBoth(page, m, first, n, second);
      r.Ok? && (exists a, b :: Holds(r.value, m, first, a, b)) && exists a, b :: Holds(r.value, n, second, a, b)
  {
    var s := Edit(page, m, first, i, j);
    EditHolds(page, s, m, first, i, j);
    BeforeStays(page, s, m, i, j, n, k, l, first);
    var e, k', l' :| Before(s, m, i, e, n, k', l');
    SameEnd(s, m, i, e, NewEnd(m, first, i));
    var u := Edit(s, n, second, k', l');
    EditHolds(s, u, n, second, k', l');
    EarlierStillHolds(s, u, m, first, i, e, n, k', l', second);
  }

  lemma EditHolds(page: string, s: string, marks: Marks, body: string, i: nat, j: nat)
    requires OneLine(marks) && Located(page, marks, i, j) && !Text.Contains(body, marks.end)
    requires Edited(page, s, marks, body, i, j)
    ensures Holds(s, marks, body, i, NewEnd(marks, body, i))
  {
    EditedIsLocated(page, s, marks, body, i, j);
    BodyBetween(page, s, marks, body, i, j);
  }

  lemma SameEnd(s: string, marks: Marks, i: nat, j: nat, j': nat)
    requires Located(s, marks, i, j) && Located(s, marks, i, j')
    ensures j == j'
  {
  }

  lemma EarlierStillHolds(
    s: string, u: string, m: Marks, first: string, i: nat, e: nat, n: Marks, k: nat, l: nat, second: string)
    requires Before(s, m, i, e, n, k, l) && Holds(s, m, first, i, e) && Edited(s, u, n, second, k, l)
    ensures Holds(u, m, first, i, e)
  {
    LaterKeepsEarlier(s, u, m, i, e, n, k, l, second);
    assert u[i + |m.begin|..e] == s[i + |m.begin|..e];
  }

  /** The text is whole lines, the last of which ends in a bar. */
  predicate EndsInRow(s: string) {
    |s| >= 2 && s[|s| - 1] == '\n' && s[|s| - 2] == '|'
  }

  lemma {:induction false} EndsInBar(cells: seq<string>)
    requires |cells| > 1 && cells[|cells| - 1] == ""
    ensures var s := Text.Join("|", cells);
      s != "" && s[|s| - 1] == '|'
  {
    if |cells| > 2 {
      EndsInBar(cells[1..]);
    }
  }

  lemma OneMoreRow(s: string, cells: seq<string>)
    requires |cells| > 1 && cells[|cells| - 1] == ""
    ensures EndsInRow(s + (Text.Join("|", cells) + "\n"))
  {
    EndsInBar(cells);
  }

  lemma HeadEndsInRow(columns: seq<string>)
    ensures EndsInRow(Head(columns))
  {
    OneMoreRow(Line(columns), [""] + seq(|columns|, _ => " --- ") + [""]);
  }

  lemma {:induction false} TargetsEndInRow(head: string, known: seq<Target>)
    requires EndsInRow(head)
    ensures EndsInRow(head + TargetRows(known))
    decreases |known|
  {
    if known == [] {
      assert head + TargetRows(known) == head;
    } else {
      var line := TargetRow(known[0]) + "\n";
      OneMoreRow(head, TargetCells(known[0]));
      TargetsEndInRow(head + line, known[1..]);
      assert head + TargetRows(known) == head + line + TargetRows(known[1..]);
    }
  }

  lemma {:induction false} AdvisoriesEndInRow(head: string, records: seq<Advisory>)
    requires EndsInRow(head)
    ensures EndsInRow(head + AdvisoryRows(records))
    decreases |records|
  {
    if records == [] {
      assert head + AdvisoryRows(records) == head;
    } else {
      var line := AdvisoryRow(records[0]) + "\n";
      OneMoreRow(head, AdvisoryCells(records[0]));
      AdvisoriesEndInRow(head + line, records[1..]);
      assert head + AdvisoryRows(records) == head + line + AdvisoryRows(records[1..]);
    }
  }

  lemma OneFeedStripped(s: string)
    requires EndsInRow(s)
    ensures Text.StripRight(s, Newline) + "\n" == s
  {
    assert s == s[..|s| - 1] + "\n";
    Text.StripRightPadded(s[..|s| - 1], "\n", Newline);
  }

  /** But for its last line feed, a table is its head and a row for each record; no advisories make a sentence. */
  lemma TablesAreRows(known: seq<Target>, records: seq<Advisory>)
    ensures TargetsTable(known) + "\n" == Head(TARGET_COLUMNS) + TargetRows(known)
    ensures AdvisoriesTable([]) == "No advisories have been published."
    ensures records != [] ==> AdvisoriesTable(records) + "\n" == Head(ADVISORY_COLUMNS) + AdvisoryRows(records)
  {
    HeadEndsInRow(TARGET_COLUMNS);
    HeadEndsInRow(ADVISORY_COLUMNS);
    TargetsEndInRow(Head(TARGET_COLUMNS), known);
    AdvisoriesEndInRow(Head(ADVISORY_COLUMNS), records);
    OneFeedStripped(Head(TARGET_COLUMNS) + TargetRows(known));
    OneFeedStripped(Head(ADVISORY_COLUMNS) + AdvisoryRows(records));
  }
}
