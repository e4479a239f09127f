/** The string operations the tools share, over sequences of characters, with Python's edge cases. */
module Text {

  // ---------------------------------------------------------------- occurrence

  predicate At(s: string, p: string, i: int) {
    0 <= i && i + |p| <= |s| && s[i..i + |p|] == p
  }

  /** The least index from `start` at which `p` occurs, or -1: `s.find(p, start)`. */
  function Find(s: string, p: string, start: nat): (r: int)
    requires start <= |s|
    ensures r < 0 ==> r == -1 && forall j :: start <= j ==> !At(s, p, j)
    ensures r >= 0 ==> start <= r && At(s, p, r) && forall j :: start <= j < r ==> !At(s, p, j)
    decreases |s| - start
  {
    if At(s, p, start) then start
    else if start == |s| then -1
    else Find(s, p, start + 1)
  }

  /** `p in s`. */
  predicate Contains(s: string, p: string) {
    Find(s, p, 0) >= 0
  }

  lemma FoundAt(s: string, p: string, start: nat, i: nat)
    requires start <= i && At(s, p, i) && forall j :: start <= j < i ==> !At(s, p, j)
    ensures start <= |s| && Find(s, p, start) == i
  {
  }

  lemma ContainsAt(s: string, p: string, i: nat)
    requires At(s, p, i)
    ensures Contains(s, p)
  {
  }

  lemma AtIndex(s: string, p: string, i: nat, k: nat)
    requires At(s, p, i) && k < |p|
    ensures s[i + k] == p[k]
  {
    assert s[i..i + |p|][k] == s[i + k];
  }

  lemma NotAt(s: string, p: string, i: nat, k: nat)
    requires k < |p| && (i + k < |s| ==> s[i + k] != p[k])
    ensures !At(s, p, i)
  {
    assert i + |p| <= |s| ==> s[i..i + |p|][k] == s[i + k];
  }

  /** Occurrence looks at no character outside the window. */
  lemma AtInside(s: string, t: string, p: string, i: int, shift: int)
    requires 0 <= i && i + |p| <= |s| && 0 <= i + shift && i + shift + |p| <= |t|
    requires forall k :: i <= k < i + |p| ==> s[k] == t[k + shift]
    ensures At(s, p, i) == At(t, p, i + shift)
  {
    assert s[i..i + |p|] == t[i + shift..i + shift + |p|];
  }

  lemma DropAppend(a: string, b: string, n: nat)
    requires n <= |b|
    ensures (a + b)[|a| + n..] == b[n..]
  {
  }

  // ---------------------------------------------------------------- join and split

  /** `sep.join(parts)`. */
  function Join(sep: string, parts: seq<string>): string {
    if parts == [] then "" else if |parts| == 1 then parts[0] else parts[0] + sep + Join(sep, parts[1..])
  }

  /** `s.split(sep)`. */
  function Split(s: string, sep: string): (parts: seq<string>)
    requires sep != ""
    ensures parts != []
    decreases |s|
  {
    var i := Find(s, sep, 0);
    if i < 0 then [s] else [s[..i]] + Split(s[i + |sep|..], sep)
  }

  /** A part that can be joined with `sep` and split off again: `sep` first occurs right after it. */
  predicate Separable(part: string, sep: string) {
    Find(part + sep, sep, 0) == |part|
  }

  lemma FreeIsSeparable(part: string, sep: string)
    requires sep != "" && sep[0] !in part
    ensures Separable(part, sep)
  {
    var s := part + sep;
    forall j | 0 <= j < |part| ensures !At(s, sep, j) {
      assert part[j] in part;
      if j + |sep| <= |s| {
        assert s[j..j + |sep|][0] == part[j];
      }
    }
    FoundAt(s, sep, 0, |part|);
  }

  lemma UpToOccurrence(s: string, p: string, i: nat)
    requires At(s, p, i)
    ensures s[..i] + p == s[..i + |p|]
  {
  }

  lemma AtInPrefix(s: string, t: string, p: string, j: nat)
    requires t <= s && j + |p| <= |t|
    ensures At(t, p, j) == At(s, p, j)
  {
    assert t[j..j + |p|] == s[j..j + |p|];
  }

  lemma FirstInPrefix(s: string, t: string, p: string, i: nat)
    requires t <= s && |t| == i + |p| && At(s, p, i) && forall j :: 0 <= j < i ==> !At(s, p, j)
    ensures At(t, p, i) && forall j :: 0 <= j < i ==> !At(t, p, j)
  {
    AtInPrefix(s, t, p, i);
    forall j | 0 <= j < i ensures !At(t, p, j) {
      AtInPrefix(s, t, p, j);
    }
  }

  /** What comes before the first occurrence can be joined with the separator and split off again. */
  lemma FoundIsSeparable(s: string, sep: string, i: nat)
    requires Find(s, sep, 0) == i && i + |sep| <= |s|
    ensures Separable(s[..i], sep)
  {
    UpToOccurrence(s, sep, i);
    FirstInPrefix(s, s[..i] + sep, sep, i);
    FoundAt(s[..i] + sep, sep, 0, i);
  }

  /** A separator of two different characters cannot begin inside a part that does not hold it. */
  lemma LacksIsSeparable(part: string, sep: string)
    requires |sep| == 2 && sep[0] != sep[1] && !Contains(part, sep)
    ensures Separable(part, sep)
  {
    var s := part + sep;
    forall j | 0 <= j < |part| ensures !At(s, sep, j) {
      if j + 2 <= |part| {
        AtInside(part, s, sep, j, 0);
      } else {
        NotAt(s, sep, j, 1);
      }
    }
    FoundAt(s, sep, 0, |part|);
  }

  lemma LacksAt(s: string, p: string, k: nat)
    requires k < |p| && p[k] !in s
    ensures !Contains(s, p)
  {
    forall j | 0 <= j && j + |p| <= |s| ensures !At(s, p, j) {
      assert s[j..j + |p|][k] == s[j + k];
    }
  }

  lemma SeparableInside(part: string, sep: string, rest: string)
    requires sep != "" && Separable(part, sep)
    ensures Find(part + sep + rest, sep, 0) == |part|
  {
    var s := part + sep;
    forall j | 0 <= j < |part| ensures !At(s + rest, sep, j) {
      AtInside(s, s + rest, sep, j, 0);
    }
    AtInside(s, s + rest, sep, |part|, 0);
    FoundAt(s + rest, sep, 0, |part|);
  }

  lemma SeparableLacks(part: string, sep: string)
    requires sep != "" && Separable(part, sep)
    ensures !Contains(part, sep)
  {
    forall j | 0 <= j && j + |sep| <= |part| ensures !At(part, sep, j) {
      AtInside(part, part + sep, sep, j, 0);
    }
  }

  lemma {:induction false} SplitJoin(parts: seq<string>, sep: string)
    requires sep != "" && parts != [] && forall i :: 0 <= i < |parts| ==> Separable(parts[i], sep)
    ensures Split(Join(sep, parts), sep) == parts
  {
    if |parts| == 1 {
      SeparableLacks(parts[0], sep);
    } else {
      SeparableInside(parts[0], sep, Join(sep, parts[1..]));
      var s := parts[0] + sep + Join(sep, parts[1..]);
      assert s[..|parts[0]|] == parts[0] && s[|parts[0]| + |sep|..] == Join(sep, parts[1..]);
      SplitJoin(parts[1..], sep);
    }
  }

  lemma {:induction false} SplitParts(s: string, sep: string)
    requires sep != ""
    ensures forall i :: 0 <= i < |Split(s, sep)| ==> !Contains(Split(s, sep)[i], sep)
    ensures Join(sep, Split(s, sep)) == s
    decreases |s|
  {
    var i := Find(s, sep, 0);
    if i >= 0 {
      SplitParts(s[i + |sep|..], sep);
      forall j | 0 <= j && j + |sep| <= i ensures !At(s[..i], sep, j) {
        AtInside(s[..i], s, sep, j, 0);
      }
      assert s == s[..i] + sep + s[i + |sep|..];
    }
  }

  lemma {:induction false} SplitCharacters(s: string, sep: string, k: nat)
    requires sep != "" && k < |Split(s, sep)|
    ensures forall c :: c in Split(s, sep)[k] ==> c in s
    decreases |s|
  {
    var i := Find(s, sep, 0);
    if i >= 0 && k > 0 {
      SplitCharacters(s[i + |sep|..], sep, k - 1);
    }
  }

  // ---------------------------------------------------------------- strip

  function StripLeft(s: string, drop: char -> bool): string {
    if s != "" && drop(s[0]) then StripLeft(s[1..], drop) else s
  }

  function StripRight(s: string, drop: char -> bool): string {
    if s != "" && drop(s[|s| - 1]) then StripRight(s[..|s| - 1], drop) else s
  }

  function Strip(s: string, drop: char -> bool): string {
    StripRight(StripLeft(s, drop), drop)
  }

  /** Neither end would be dropped. */
  predicate Trimmed(s: string, drop: char -> bool) {
    s != "" ==> !drop(s[0]) && !drop(s[|s| - 1])
  }

  lemma StripFixed(s: string, drop: char -> bool)
    requires Trimmed(s, drop)
    ensures Strip(s, drop) == s
  {
  }

  lemma {:induction false} StripLeftTrims(s: string, drop: char -> bool)
    ensures var r := StripLeft(s, drop);
      |r| <= |s| && r == s[|s| - |r|..] && (r != "" ==> !drop(r[0]))
  {
    if s != "" && drop(s[0]) {
      StripLeftTrims(s[1..], drop);
    }
  }

  lemma {:induction false} StripRightTrims(s: string, drop: char -> bool)
    ensures var r := StripRight(s, drop);
      |r| <= |s| && r == s[..|r|] && (r != "" ==> !drop(r[|r| - 1]))
  {
    if s != "" && drop(s[|s| - 1]) {
      StripRightTrims(s[..|s| - 1], drop);
    }
  }

  lemma StripTrims(s: string, drop: char -> bool)
    ensures Trimmed(Strip(s, drop), drop)
    ensures forall c :: c in Strip(s, drop) ==> c in s
  {
    StripLeftTrims(s, drop);
    StripRightTrims(StripLeft(s, drop), drop);
  }

  /** Stripping stops at what is not to be dropped. */
  lemma {:induction false} StripRightStops(s: string, drop: char -> bool, i: nat)
    requires i < |s| && !drop(s[i])
    ensures i < |StripRight(s, drop)|
  {
    if drop(s[|s| - 1]) {
      StripRightStops(s[..|s| - 1], drop, i);
    }
  }

  /** Padding of dropped characters disappears; what stays is already trimmed. */
  lemma {:induction false} StripLeftPadded(before: string, s: string, drop: char -> bool)
    requires (s != "" ==> !drop(s[0])) && forall c :: c in before ==> drop(c)
    ensures StripLeft(before + s, drop) == s
  {
    if before == "" {
      assert before + s == s;
    } else {
      assert before[0] in before;
      assert (before + s)[1..] == before[1..] + s;
      StripLeftPadded(before[1..], s, drop);
    }
  }

  lemma {:induction false} StripRightPadded(s: string, after: string, drop: char -> bool)
    requires (s != "" ==> !drop(s[|s| - 1])) && forall c :: c in after ==> drop(c)
    ensures StripRight(s + after, drop) == s
  {
    if after == "" {
      assert s + after == s;
    } else {
      assert after[|after| - 1] in after;
      assert (s + after)[..|s + after| - 1] == s + after[..|after| - 1];
      StripRightPadded(s, after[..|after| - 1], drop);
    }
  }

  /** Padding of dropped characters disappears; what stays is already trimmed. */
  lemma StripPadded(before: string, s: string, after: string, drop: char -> bool)
    requires Trimmed(s, drop)
    requires (forall c :: c in before ==> drop(c)) && (forall c :: c in after ==> drop(c))
    ensures Strip(before + s + after, drop) == s
  {
    if s == "" {
      assert before + s + after == (before + after) + "";
      StripLeftPadded(before + after, "", drop);
    } else {
      assert before + s + after == before + (s + after);
      StripLeftPadded(before, s + after, drop);
      StripRightPadded(s, after, drop);
    }
  }

  /** `str.isspace` for one character, as `str.strip()` uses it. */
  predicate IsSpace(c: char) {
    '\U{0009}' <= c <= '\U{000D}' || '\U{001C}' <= c <= '\U{0020}' || c == '\U{0085}' || c == '\U{00A0}' ||
    c == '\U{1680}' || '\U{2000}' <= c <= '\U{200A}' || c == '\U{2028}' || c == '\U{2029}' ||
    c == '\U{202F}' || c == '\U{205F}' || c == '\U{3000}'
  }

  // ---------------------------------------------------------------- lines

  /** A line boundary of `str.splitlines`. */
  predicate IsBreak(c: char) {
    '\U{000A}' <= c <= '\U{000D}' || '\U{001C}' <= c <= '\U{001E}' ||
    c == '\U{0085}' || c == '\U{2028}' || c == '\U{2029}'
  }

  /** The ten characters that end a line, every one of them white space too. */
  lemma BreaksAreSpaces(c: char)
    ensures IsBreak(c) <==>
      c in {'\n', '\U{000B}', '\U{000C}', '\r', '\U{001C}', '\U{001D}', '\U{001E}', '\U{0085}', '\U{2028}', '\U{2029}'}
    ensures IsBreak(c) || c in {' ', '\t', '\U{001F}', '\U{00A0}'} ==> IsSpace(c)
    ensures IsSpace(c) ==> c as int <= 32 || c as int == 133 || c as int == 160 || c as int >= 5760
  {
  }

  predicate OneLine(s: string) {
    forall c :: c in s ==> !IsBreak(c)
  }

  /** The length of the first line. */
  function LineEnd(s: string): (n: nat)
    ensures n <= |s| && (forall i :: 0 <= i < n ==> !IsBreak(s[i])) && (n < |s| ==> IsBreak(s[n]))
  {
    if s == "" || IsBreak(s[0]) then 0 else 1 + LineEnd(s[1..])
  }

  /** Where the next line starts: a carriage return and line feed end one line between them. */
  function NextLine(s: string, n: nat): (m: nat)
    requires n < |s|
    ensures n < m <= |s|
  {
    if s[n] == '\r' && n + 1 < |s| && s[n + 1] == '\n' then n + 2 else n + 1
  }

  /** `s.splitlines()`. */
  function SplitLines(s: string): seq<string>
    decreases |s|
  {
    if s == "" then []
    else
      var n := LineEnd(s);
      if n == |s| then [s] else [s[..n]] + SplitLines(s[NextLine(s, n)..])
  }

  lemma {:induction false} LinesAreOneLine(s: string)
    ensures forall i :: 0 <= i < |SplitLines(s)| ==> OneLine(SplitLines(s)[i])
    decreases |s|
  {
    if s != "" {
      var n := LineEnd(s);
      assert OneLine(s[..n]);
      if n == |s| {
        assert s[..n] == s;
      } else {
        LinesAreOneLine(s[NextLine(s, n)..]);
      }
    }
  }

  /** Where the first line ends is told by its characters alone. */
  lemma LineEndIs(s: string, n: nat)
    requires n < |s| && IsBreak(s[n]) && forall i :: 0 <= i < n ==> !IsBreak(s[i])
    ensures LineEnd(s) == n
  {
  }

  /** Any line boundary ends a line, and a carriage return takes a line feed with it. */
  lemma FirstLineEnds(line: string, c: char, rest: string)
    requires OneLine(line) && IsBreak(c)
    ensures var crlf := c == '\r' && rest != "" && rest[0] == '\n';
      SplitLines(line + [c] + rest) == [line] + SplitLines(if crlf then rest[1..] else rest)
  {
    var s := line + [c] + rest;
    forall i | 0 <= i < |line| ensures !IsBreak(s[i]) {
      assert s[i] == line[i] && line[i] in line;
    }
    LineEndIs(s, |line|);
    assert s[..|line|] == line && s[|line| + 1..] == rest;
    assert rest != "" ==> s[|line| + 1] == rest[0] && s[|line| + 2..] == rest[1..];
  }

  lemma FirstLine(line: string, rest: string)
    requires OneLine(line)
    ensures SplitLines(line + "\n" + rest) == [line] + SplitLines(rest)
  {
    var s := line + "\n" + rest;
    forall i | 0 <= i < |line| ensures !IsBreak(s[i]) {
      assert s[i] == line[i] && line[i] in line;
    }
    LineEndIs(s, |line|);
    assert s[..|line|] == line && s[|line| + 1..] == rest;
  }

  // ---------------------------------------------------------------- decimal numbers

  predicate IsDigit(c: char) {
    '0' <= c <= '9'
  }

  /** `str(n)`. */
  function Decimal(n: nat): (s: string)
    ensures s != "" && forall i :: 0 <= i < |s| ==> IsDigit(s[i])
    ensures n > 0 ==> s[0] != '0'
    ensures n < 10 ==> |s| == 1
  {
    var digit := [('0' as int + n % 10) as char];
    if n < 10 then digit else Decimal(n / 10) + digit
  }

  function DigitValue(c: char): nat
    requires IsDigit(c)
  {
    c as int - '0' as int
  }

  /** `int(s)` for a run of digits. */
  function Number(s: string): nat
    requires forall i :: 0 <= i < |s| ==> IsDigit(s[i])
  {
    if s == "" then 0 else 10 * Number(s[..|s| - 1]) + DigitValue(s[|s| - 1])
  }

  lemma {:induction false} NumberDecimal(n: nat)
    ensures Number(Decimal(n)) == n
  {
    var s := Decimal(n);
    if n < 10 {
      assert s[..0] == "";
    } else {
      NumberDecimal(n / 10);
      assert s[..|s| - 1] == Decimal(n / 10);
    }
  }
}
