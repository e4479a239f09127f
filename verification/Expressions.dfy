/** Licence expressions, split at their operators the way a pattern splits text (tools/licences.py). */
module Expressions {
  import Text

  const OR := "OR"
  const AND := "AND"

  function FoldChar(c: char): char {
    if 'A' <= c <= 'Z' then (c as int + 32) as char else c
  }

  /** `str.casefold` on ASCII. */
  function Fold(s: string): (r: string)
    ensures |r| == |s| && forall i :: 0 <= i < |s| ==> r[i] == FoldChar(s[i])
  {
    seq(|s|, i requires 0 <= i < |s| => FoldChar(s[i]))
  }

  /** The end of the white space that starts at `i`. */
  function Gap(s: string, i: nat): (j: nat)
    requires i <= |s|
    ensures i <= j <= |s|
    decreases |s| - i
  {
    if i < |s| && Text.IsSpace(s[i]) then Gap(s, i + 1) else i
  }

  /** Does the pattern `\s+word\s+`, ignoring case, match at `i`? */
  predicate Operator(s: string, word: string, i: nat)
    requires i <= |s|
  {
    var j := Gap(s, i);
    i < j && WordAt(s, word, j) && j + |word| < Gap(s, j + |word|)
  }

  predicate WordAt(s: string, word: string, j: nat) {
    j + |word| <= |s| && forall x :: 0 <= x < |word| ==> FoldChar(s[j + x]) == FoldChar(word[x])
  }

  function OperatorEnd(s: string, word: string, i: nat): (k: nat)
    requires i <= |s| && Operator(s, word, i)
    ensures i < k <= |s|
  {
    Gap(s, Gap(s, i) + |word|)
  }

  function FindOperator(s: string, word: string, i: nat): (r: nat)
    requires i <= |s|
    ensures i <= r <= |s| && (forall k :: i <= k < r ==> !Operator(s, word, k)) && (r < |s| ==> Operator(s, word, r))
    decreases |s| - i
  {
    if i == |s| || Operator(s, word, i) then i else FindOperator(s, word, i + 1)
  }

  /** `re.split(r"\s+word\s+", s, flags=IGNORECASE)`. */
  function SplitOn(s: string, word: string): (parts: seq<string>)
    ensures parts != []
    decreases |s|
  {
    var i := FindOperator(s, word, 0);
    if i == |s| then [s] else [s[..i]] + SplitOn(s[OperatorEnd(s, word, i)..], word)
  }

  predicate Wrapping(c: char) {
    c == ' ' || c == '(' || c == ')'
  }

  function Unwrap(parts: seq<string>): (r: seq<string>)
    ensures |r| == |parts| && forall i :: 0 <= i < |parts| ==> r[i] == Text.Strip(parts[i], Wrapping)
  {
    seq(|parts|, i requires 0 <= i < |parts| => Text.Strip(parts[i], Wrapping))
  }

  predicate Solid(s: string) {
    forall i :: 0 <= i < |s| ==> !Text.IsSpace(s[i])
  }

  /** What stands between white space, parentheses included. */
  predicate Word(s: string) {
    s != "" && Solid(s)
  }

  predicate Words(words: seq<string>) {
    words != [] && forall i :: 0 <= i < |words| ==> Word(words[i])
  }

  /** An identifier as an expression holds it: no white space, no parenthesis. */
  predicate Identifier(s: string) {
    Word(s) && forall i :: 0 <= i < |s| ==> s[i] != '(' && s[i] != ')'
  }

  predicate Identifiers(ids: seq<string>) {
    ids != [] && forall i :: 0 <= i < |ids| ==> Identifier(ids[i])
  }

  /** ` OR ` or ` AND `. */
  function Spaced(word: string): string {
    " " + word + " "
  }

  lemma {:induction false} GapIs(s: string, i: nat, j: nat)
    requires i <= j <= |s| && (forall k :: i <= k < j ==> Text.IsSpace(s[k])) && (j < |s| ==> !Text.IsSpace(s[j]))
    ensures Gap(s, i) == j
    decreases j - i
  {
    if i < j {
      GapIs(s, i + 1, j);
    }
  }

  lemma InsideWord(s: string, word: string, k: nat)
    requires k <= |s| && (k < |s| ==> !Text.IsSpace(s[k]))
    ensures !Operator(s, word, k)
  {
    GapIs(s, k, k);
  }

  /** A space, the word, a space, and then something else: the operator is matched whole. */
  lemma OperatorMatches(s: string, word: string, i: nat)
    requires Word(word) && i + |word| + 2 < |s|
    requires s[i] == ' ' && s[i + 1..i + 1 + |word|] == word
    requires s[i + 1 + |word|] == ' ' && !Text.IsSpace(s[i + 2 + |word|])
    ensures Operator(s, word, i) && OperatorEnd(s, word, i) == i + 2 + |word|
  {
    assert s[i + 1] == s[i + 1..i + 1 + |word|][0];
    GapIs(s, i, i + 1);
    GapIs(s, i + 1 + |word|, i + 2 + |word|);
  }

  /** `s` is `id`, a space, `word`, a space and `rest`. */
  predicate Laid(s: string, id: string, word: string, rest: string) {
    var m := |id| + 2 + |word|;
    |s| == m + |rest| && s[..|id|] == id && s[|id|] == ' ' && s[|id| + 1..m - 1] == word &&
    s[m - 1] == ' ' && s[m..] == rest
  }

  lemma LaidOut(id: string, word: string, rest: string)
    ensures Laid(id + Spaced(word) + rest, id, word, rest)
  {
  }

  /** The operator matches nowhere before `n`. */
  predicate QuietUntil(s: string, n: nat, word: string) {
    n <= |s| && forall k :: 0 <= k < n ==> !Operator(s, word, k)
  }

  lemma HeadSplits(s: string, head: string, word: string, rest: string)
    requires Laid(s, head, word, rest) && QuietUntil(s, |head|, word)
    requires Word(word) && rest != "" && !Text.IsSpace(rest[0])
    ensures SplitOn(s, word) == [head] + SplitOn(rest, word)
  {
    var i := |head|;
    assert s[i + 2 + |word|] == s[i + 2 + |word|..][0];
    OperatorMatches(s, word, i);
    SplitsAt(s, word, i, i + 2 + |word|, head, rest);
  }

  lemma SplitsAt(s: string, word: string, i: nat, m: nat, head: string, rest: string)
    requires i < |s| && FindOperator(s, word, 0) == i && OperatorEnd(s, word, i) == m
    requires s[..i] == head && s[m..] == rest
    ensures SplitOn(s, word) == [head] + SplitOn(rest, word)
  {
  }

  /** A text without white space holds no operator. */
  lemma SolidIsQuiet(s: string, head: string, word: string)
    requires head <= s && Solid(head)
    ensures QuietUntil(s, |head|, word)
  {
    forall k | 0 <= k < |head| ensures !Operator(s, word, k) {
      assert s[k] == head[k];
      InsideWord(s, word, k);
    }
  }

  lemma WordIsWhole(s: string, word: string)
    requires Word(s)
    ensures SplitOn(s, word) == [s]
  {
    SolidIsQuiet(s, s, word);
    assert FindOperator(s, word, 0) == |s|;
  }

  lemma JoinLaid(ids: seq<string>, word: string)
    requires |ids| > 1
    ensures Laid(Text.Join(Spaced(word), ids), ids[0], word, Text.Join(Spaced(word), ids[1..]))
  {
    LaidOut(ids[0], word, Text.Join(Spaced(word), ids[1..]));
  }

  lemma JoinedSplitsHead(ids: seq<string>, word: string)
    requires Words(ids) && |ids| > 1 && Word(word)
    ensures SplitOn(Text.Join(Spaced(word), ids), word) == [ids[0]] + SplitOn(Text.Join(Spaced(word), ids[1..]), word)
  {
    JoinStarts(ids[1..], Spaced(word));
    JoinLaid(ids, word);
    SolidIsQuiet(Text.Join(Spaced(word), ids), ids[0], word);
    HeadSplits(Text.Join(Spaced(word), ids), ids[0], word, Text.Join(Spaced(word), ids[1..]));
  }

  /** Joining words with a spaced word and splitting at that word are inverse. */
  lemma {:induction false} SplitOnJoined(ids: seq<string>, word: string)
    requires Words(ids) && Word(word)
    ensures SplitOn(Text.Join(Spaced(word), ids), word) == ids
  {
    if |ids| == 1 {
      WordIsWhole(ids[0], word);
    } else {
      SplitOnJoined(ids[1..], word);
      JoinedSplitsHead(ids, word);
      assert [ids[0]] + ids[1..] == ids;
    }
  }

  lemma JoinStarts(ids: seq<string>, sep: string)
    requires Words(ids)
    ensures Text.Join(sep, ids) != "" && !Text.IsSpace(Text.Join(sep, ids)[0])
  {
  }

  /** `rest` is what `s` holds from `m` on. */
  predicate Ends(s: string, rest: string, m: nat) {
    |s| == m + |rest| && forall y :: 0 <= y < |rest| ==> rest[y] == s[m + y]
  }

  lemma {:induction false} GapShifts(s: string, rest: string, m: nat, i: nat)
    requires Ends(s, rest, m) && i <= |rest|
    ensures Gap(s, m + i) == m + Gap(rest, i)
    decreases |rest| - i
  {
    if i < |rest| && Text.IsSpace(rest[i]) {
      GapShifts(s, rest, m, i + 1);
    }
  }

  lemma WordShifts(s: string, rest: string, word: string, m: nat, j: nat)
    requires Ends(s, rest, m)
    ensures WordAt(s, word, m + j) == WordAt(rest, word, j)
  {
    if j + |word| <= |rest| {
      forall x | 0 <= x < |word|
        ensures FoldChar(s[m + j + x]) == FoldChar(word[x]) <==> FoldChar(rest[j + x]) == FoldChar(word[x]) {}
    }
  }

  lemma OperatorShifts(s: string, rest: string, word: string, m: nat, i: nat)
    requires Ends(s, rest, m) && i <= |rest|
    ensures Operator(s, word, m + i) == Operator(rest, word, i)
  {
    var j := Gap(rest, i);
    GapShifts(s, rest, m, i);
    WordShifts(s, rest, word, m, j);
    if j + |word| <= |rest| {
      GapShifts(s, rest, m, j + |word|);
    }
  }

  /** White space where the word has a letter: no match. */
  lemma SpaceInWord(s: string, word: string, j: nat, x: nat)
    requires Word(word) && x < |word| && j + x < |s| && Text.IsSpace(s[j + x])
    ensures !WordAt(s, word, j)
  {
    assert FoldChar(s[j + x]) != FoldChar(word[x]);
  }

  /** `id` stands at `j`. */
  predicate StandsAt(s: string, id: string, j: nat) {
    j + |id| <= |s| && forall y :: j <= y < j + |id| ==> s[y] == id[y - j]
  }

  lemma SameWord(s: string, id: string, word: string, j: nat)
    requires StandsAt(s, id, j) && |id| == |word| && WordAt(s, word, j)
    ensures Fold(id) == Fold(word)
  {
    forall x | 0 <= x < |id| ensures FoldChar(id[x]) == FoldChar(word[x]) {
      assert s[j + x] == id[j + x - j];
    }
  }

  /** A space, then a whole word other than `word`: no operator there. */
  lemma OtherWord(s: string, id: string, word: string, k: nat)
    requires Word(id) && Word(word) && Fold(id) != Fold(word)
    requires k + 1 + |id| <= |s| && Text.IsSpace(s[k]) && StandsAt(s, id, k + 1)
    requires k + 1 + |id| < |s| ==> Text.IsSpace(s[k + 1 + |id|])
    ensures !Operator(s, word, k)
  {
    var j := k + 1;
    assert s[j] == id[0];
    GapIs(s, k, j);
    if |word| < |id| {
      assert s[j + |word|] == id[|word|];
      GapIs(s, j + |word|, j + |word|);
    } else if |word| == |id| {
      if WordAt(s, word, j) {
        SameWord(s, id, word, j);
      }
    } else if j + |id| < |s| {
      SpaceInWord(s, word, j, |id|);
    }
  }

  lemma NoOtherInHead(s: string, id: string, word: string, next: string, rest: string, other: string, k: nat)
    requires Laid(s, id, word, rest) && Word(id) && Word(word) && Word(next) && Word(other)
    requires Fold(word) != Fold(other) && Fold(next) != Fold(other)
    requires |next| <= |rest| && rest[..|next|] == next && (|next| < |rest| ==> rest[|next|] == ' ')
    requires k < |id| + 2 + |word|
    ensures !Operator(s, other, k)
  {
    LaidWord(s, id, word, rest);
    if k < |id| {
      assert s[k] == s[..|id|][k];
      InsideWord(s, other, k);
    } else if k == |id| {
      OtherWord(s, word, other, k);
    } else if k < |id| + 1 + |word| {
      assert s[k] == word[k - (|id| + 1)];
      InsideWord(s, other, k);
    } else {
      NextIsOther(s, id, word, next, rest, other);
    }
  }

  lemma NextIsOther(s: string, id: string, word: string, next: string, rest: string, other: string)
    requires Laid(s, id, word, rest) && Word(next) && Word(other) && Fold(next) != Fold(other)
    requires |next| <= |rest| && rest[..|next|] == next && (|next| < |rest| ==> rest[|next|] == ' ')
    ensures !Operator(s, other, |id| + 1 + |word|)
  {
    var m := |id| + 2 + |word|;
    LaidEnds(s, id, word, rest);
    NextStands(s, rest, m, next, other);
  }

  lemma NextStands(s: string, rest: string, m: nat, next: string, other: string)
    requires Ends(s, rest, m) && m > 0 && s[m - 1] == ' '
    requires |next| <= |rest| && rest[..|next|] == next && (|next| < |rest| ==> rest[|next|] == ' ')
    requires Word(next) && Word(other) && Fold(next) != Fold(other)
    ensures !Operator(s, other, m - 1)
  {
    forall y | m <= y < m + |next| ensures s[y] == next[y - m] {
      assert s[m + (y - m)] == rest[y - m] && rest[y - m] == rest[..|next|][y - m];
    }
    assert |next| < |rest| ==> s[m + |next|] == rest[|next|];
    OtherWord(s, next, other, m - 1);
  }

  lemma LaidWord(s: string, id: string, word: string, rest: string)
    requires Laid(s, id, word, rest)
    ensures StandsAt(s, word, |id| + 1)
  {
    var j := |id| + 1;
    forall y | j <= y < j + |word| ensures s[y] == word[y - j] {
      assert s[y] == s[j..j + |word|][y - j];
    }
  }

  lemma LaidEnds(s: string, id: string, word: string, rest: string)
    requires Laid(s, id, word, rest)
    ensures Ends(s, rest, |id| + 2 + |word|)
  {
    var m := |id| + 2 + |word|;
    forall y | 0 <= y < |rest| ensures rest[y] == s[m + y] {
      assert s[m..][y] == s[m + y];
    }
  }

  lemma StaysQuiet(s: string, rest: string, m: nat, n: nat, word: string)
    requires Ends(s, rest, m) && QuietUntil(rest, n, word) && QuietUntil(s, m, word)
    ensures QuietUntil(s, m + n, word)
  {
    forall k | m <= k < m + n ensures !Operator(s, word, k) {
      OperatorShifts(s, rest, word, m, k - m);
    }
  }

  /** `tail` is nothing, or goes on after a space. */
  predicate Tail(tail: string) {
    tail != "" ==> tail[0] == ' '
  }

  lemma LaidBefore(s: string, id: string, word: string, rest: string, tail: string)
    requires Laid(s, id, word, rest)
    ensures Laid(s + tail, id, word, rest + tail)
  {
  }

  lemma JoinBegins(ids: seq<string>, word: string, tail: string)
    requires ids != [] && Tail(tail)
    ensures var s := Text.Join(Spaced(word), ids) + tail;
      |ids[0]| <= |s| && s[..|ids[0]|] == ids[0] && (|ids[0]| < |s| ==> s[|ids[0]|] == ' ')
  {
  }

  /** Words joined by one of them hold no other operator, whatever comes after them. */
  lemma {:induction false} QuietWithin(ids: seq<string>, word: string, tail: string, other: string)
    requires Words(ids) && Word(word) && Word(other) && Fold(word) != Fold(other) && Tail(tail)
    requires forall i :: 0 < i < |ids| ==> Fold(ids[i]) != Fold(other)
    ensures QuietUntil(Text.Join(Spaced(word), ids) + tail, |Text.Join(Spaced(word), ids)|, other)
  {
    if |ids| == 1 {
      SolidIsQuiet(ids[0] + tail, ids[0], other);
    } else {
      var m := |ids[0]| + 2 + |word|;
      QuietWithin(ids[1..], word, tail, other);
      QuietAtStart(ids, word, tail, other);
      JoinLaid(ids, word);
      LaidBefore(Text.Join(Spaced(word), ids), ids[0], word, Text.Join(Spaced(word), ids[1..]), tail);
      var s, rest := Text.Join(Spaced(word), ids) + tail, Text.Join(Spaced(word), ids[1..]) + tail;
      LaidEnds(s, ids[0], word, rest);
      StaysQuiet(s, rest, m, |Text.Join(Spaced(word), ids[1..])|, other);
    }
  }

  lemma QuietAtStart(ids: seq<string>, word: string, tail: string, other: string)
    requires Words(ids) && |ids| > 1 && Word(word) && Word(other) && Tail(tail)
    requires Fold(word) != Fold(other) && Fold(ids[1]) != Fold(other)
    ensures QuietUntil(Text.Join(Spaced(word), ids) + tail, |ids[0]| + 2 + |word|, other)
  {
    var s, rest := Text.Join(Spaced(word), ids) + tail, Text.Join(Spaced(word), ids[1..]) + tail;
    JoinLaid(ids, word);
    LaidBefore(Text.Join(Spaced(word), ids), ids[0], word, Text.Join(Spaced(word), ids[1..]), tail);
    JoinBegins(ids[1..], word, tail);
    forall k | 0 <= k < |ids[0]| + 2 + |word| ensures !Operator(s, other, k) {
      NoOtherInHead(s, ids[0], word, ids[1], rest, other, k);
    }
  }

  // ---------------------------------------------------------------- expressions without grouping

  /** `A AND B AND …`. */
  function Conjunct(ids: seq<string>): string {
    Text.Join(Spaced(AND), ids)
  }

  /** Words that can be joined with `AND`: none after the first is itself the word `OR`. */
  predicate Clause(words: seq<string>) {
    Words(words) && forall i :: 0 < i < |words| ==> Fold(words[i]) != Fold(OR)
  }

  predicate Clauses(clauses: seq<seq<string>>) {
    clauses != [] && forall i :: 0 <= i < |clauses| ==> Clause(clauses[i])
  }

  /** A clause of identifiers, without parentheses. */
  predicate Obligations(ids: seq<string>) {
    Identifiers(ids) && Clause(ids)
  }

  predicate Choices(choices: seq<seq<string>>) {
    choices != [] && forall i :: 0 <= i < |choices| ==> Obligations(choices[i])
  }

  function Conjuncts(choices: seq<seq<string>>): (parts: seq<string>)
    ensures |parts| == |choices| && forall i :: 0 <= i < |parts| ==> parts[i] == Conjunct(choices[i])
  {
    seq(|choices|, i requires 0 <= i < |choices| => Conjunct(choices[i]))
  }

  /** `A AND B OR C OR …`. */
  function Disjunct(choices: seq<seq<string>>): string {
    Text.Join(Spaced(OR), Conjuncts(choices))
  }

  lemma WordsDiffer()
    ensures Fold(AND) != Fold(OR) && Word(AND) && Word(OR)
  {
    assert Fold(AND)[0] == 'a' && Fold(OR)[0] == 'o';
  }

  /** A conjunction begins and ends inside a word. */
  lemma {:induction false} ConjunctEnds(words: seq<string>)
    requires Words(words)
    ensures var s := Conjunct(words);
      s != "" && s[0] == words[0][0] && s[|s| - 1] == words[|words| - 1][|words[|words| - 1]| - 1] &&
      Text.Trimmed(s, Text.IsSpace)
  {
    if |words| > 1 {
      ConjunctEnds(words[1..]);
      var rest := Conjunct(words[1..]);
      assert Conjunct(words) == words[0] + Spaced(AND) + rest;
    }
  }

  lemma UnwrapConjuncts(choices: seq<seq<string>>)
    requires Choices(choices)
    ensures Unwrap(Conjuncts(choices)) == Conjuncts(choices)
  {
    forall i | 0 <= i < |choices| ensures Text.Strip(Conjuncts(choices)[i], Wrapping) == Conjuncts(choices)[i] {
      ConjunctEnds(choices[i]);
      Text.StripFixed(Conjunct(choices[i]), Wrapping);
    }
  }

  lemma UnwrapIdentifiers(ids: seq<string>)
    requires Identifiers(ids)
    ensures Unwrap(ids) == ids
  {
    forall i | 0 <= i < |ids| ensures Text.Strip(ids[i], Wrapping) == ids[i] {
      Text.StripFixed(ids[i], Wrapping);
    }
  }

  /** A clause is not split at `OR`. */
  lemma ConjunctIsWhole(words: seq<string>)
    requires Clause(words)
    ensures SplitOn(Conjunct(words), OR) == [Conjunct(words)]
  {
    WordsDiffer();
    QuietWithin(words, AND, "", OR);
    assert Conjunct(words) + "" == Conjunct(words);
    assert FindOperator(Conjunct(words), OR, 0) == |Conjunct(words)|;
  }

  lemma DisjunctStarts(clauses: seq<seq<string>>)
    requires Clauses(clauses)
    ensures Disjunct(clauses) != "" && !Text.IsSpace(Disjunct(clauses)[0])
  {
    ConjunctEnds(clauses[0]);
  }

  lemma DisjunctLaid(clauses: seq<seq<string>>)
    requires |clauses| > 1
    ensures Laid(Disjunct(clauses), Conjunct(clauses[0]), OR, Disjunct(clauses[1..]))
    ensures Disjunct(clauses) == Conjunct(clauses[0]) + (Spaced(OR) + Disjunct(clauses[1..]))
    ensures Conjuncts(clauses) == [Conjunct(clauses[0])] + Conjuncts(clauses[1..])
  {
    assert Conjuncts(clauses)[1..] == Conjuncts(clauses[1..]);
    LaidOut(Conjunct(clauses[0]), OR, Disjunct(clauses[1..]));
  }

  /** Clauses joined with `OR` are what splitting at it gives back, wherever parentheses stand. */
  lemma {:induction false} SplitClauses(clauses: seq<seq<string>>)
    requires Clauses(clauses)
    ensures SplitOn(Disjunct(clauses), OR) == Conjuncts(clauses)
  {
    if |clauses| == 1 {
      ConjunctIsWhole(clauses[0]);
    } else {
      WordsDiffer();
      SplitClauses(clauses[1..]);
      DisjunctStarts(clauses[1..]);
      DisjunctLaid(clauses);
      QuietWithin(clauses[0], AND, Spaced(OR) + Disjunct(clauses[1..]), OR);
      HeadSplits(Disjunct(clauses), Conjunct(clauses[0]), OR, Disjunct(clauses[1..]));
    }
  }

  // ---------------------------------------------------------------- what grouping does

  /** An opening parenthesis goes with the first part: the splitter sees no group. */
  lemma GroupSplitsOpen(a: string, tail: string)
    requires Identifier(a) && tail != "" && !Text.IsSpace(tail[0])
    ensures SplitOn("(" + a + Spaced(OR) + tail, OR) == ["(" + a] + SplitOn(tail, OR)
    ensures Text.Strip("(" + a, Wrapping) == a
  {
    WordsDiffer();
    LaidOut("(" + a, OR, tail);
    SolidIsQuiet("(" + a + Spaced(OR) + tail, "(" + a, OR);
    HeadSplits("(" + a + Spaced(OR) + tail, "(" + a, OR, tail);
    Text.StripPadded("(", a, "", Wrapping);
    assert "(" + a + "" == "(" + a;
  }

  /** An identifier with any parentheses around it. */
  predicate Operand(word: string) {
    Word(word) && Identifier(Text.Strip(word, Wrapping))
  }

  /** Every word of every clause is an operand: parentheses may stand around any of them. */
  predicate Operands(clauses: seq<seq<string>>) {
    Clauses(clauses) && forall i, j :: 0 <= i < |clauses| && 0 <= j < |clauses[i]| ==> Operand(clauses[i][j])
  }

  lemma OperandStrips(word: string)
    requires Operand(word)
    ensures Word(Text.StripLeft(word, Wrapping)) && Word(Text.StripRight(word, Wrapping))
  {
    var inner := Text.Strip(word, Wrapping);
    Text.StripLeftTrims(word, Wrapping);
    Text.StripRightTrims(word, Wrapping);
    Text.StripRightTrims(Text.StripLeft(word, Wrapping), Wrapping);
    var k := |word| - |Text.StripLeft(word, Wrapping)|;
    assert inner[0] == word[k];
    Text.StripRightStops(word, Wrapping, k);
  }

  lemma {:induction false} StripLeftOf(a: string, b: string)
    requires Text.StripLeft(a, Wrapping) != ""
    ensures Text.StripLeft(a + b, Wrapping) == Text.StripLeft(a, Wrapping) + b
  {
    if Wrapping(a[0]) {
      assert (a + b)[1..] == a[1..] + b;
      StripLeftOf(a[1..], b);
    }
  }

  lemma {:induction false} StripRightOf(a: string, b: string)
    requires Text.StripRight(b, Wrapping) != ""
    ensures Text.StripRight(a + b, Wrapping) == a + Text.StripRight(b, Wrapping)
  {
    if Wrapping(b[|b| - 1]) {
      assert (a + b)[..|a + b| - 1] == a + b[..|b| - 1];
      StripRightOf(a, b[..|b| - 1]);
    }
  }

  lemma {:induction false} JoinAppend(sep: string, parts: seq<string>, last: string)
    requires parts != []
    ensures Text.Join(sep, parts + [last]) == Text.Join(sep, parts) + sep + last
  {
    var all := parts + [last];
    if |parts| == 1 {
      assert all[1..] == [last];
    } else {
      assert all[1..] == parts[1..] + [last];
      JoinAppend(sep, parts[1..], last);
    }
  }

  /** The words that are left when a clause loses the parentheses at its ends. */
  function Unwrapped(words: seq<string>): (r: seq<string>)
    requires |words| > 1
    ensures |r| == |words|
  {
    [Text.StripLeft(words[0], Wrapping)] + words[1..|words| - 1] + [Text.StripRight(words[|words| - 1], Wrapping)]
  }

  lemma UnwrapClause(words: seq<string>)
    requires |words| > 1 && Words(words) && forall j :: 0 <= j < |words| ==> Operand(words[j])
    ensures Words(Unwrapped(words)) && Text.Strip(Conjunct(words), Wrapping) == Conjunct(Unwrapped(words))
  {
    var n := |words|;
    var started := [Text.StripLeft(words[0], Wrapping)] + words[1..];
    OperandStrips(words[0]);
    OperandStrips(words[n - 1]);
    UnwrapLeft(words);
    assert started[..n - 1] == Unwrapped(words)[..n - 1];
    UnwrapRight(started);
  }

  lemma UnwrapLeft(words: seq<string>)
    requires |words| > 1 && Text.StripLeft(words[0], Wrapping) != ""
    ensures Text.StripLeft(Conjunct(words), Wrapping) == Conjunct([Text.StripLeft(words[0], Wrapping)] + words[1..])
  {
    var started := [Text.StripLeft(words[0], Wrapping)] + words[1..];
    var rest := Spaced(AND) + Conjunct(words[1..]);
    assert Conjunct(words) == words[0] + rest;
    assert started[1..] == words[1..];
    assert Conjunct(started) == started[0] + rest;
    StripLeftOf(words[0], rest);
  }

  lemma UnwrapRight(words: seq<string>)
    requires |words| > 1 && Text.StripRight(words[|words| - 1], Wrapping) != ""
    ensures Text.StripRight(Conjunct(words), Wrapping) ==
      Conjunct(words[..|words| - 1] + [Text.StripRight(words[|words| - 1], Wrapping)])
  {
    var front, last := words[..|words| - 1], words[|words| - 1];
    assert words == front + [last];
    JoinAppend(Spaced(AND), front, last);
    JoinAppend(Spaced(AND), front, Text.StripRight(last, Wrapping));
    StripRightOf(Conjunct(front) + Spaced(AND), last);
  }

  // ---------------------------------------------------------------- one group

  /** `lead` before the first part and `end` after the last. */
  function Framed(lead: string, parts: seq<string>, end: string): (r: seq<string>)
    requires |parts| > 1
    ensures |r| == |parts|
  {
    [lead + parts[0]] + parts[1..|parts| - 1] + [parts[|parts| - 1] + end]
  }

  lemma JoinFramed(sep: string, lead: string, parts: seq<string>, end: string)
    requires |parts| > 1
    ensures Text.Join(sep, Framed(lead, parts, end)) == lead + Text.Join(sep, parts) + end
  {
    var n := |parts|;
    var front := [lead + parts[0]] + parts[1..n - 1];
    assert parts == parts[..n - 1] + [parts[n - 1]];
    JoinAppend(sep, parts[..n - 1], parts[n - 1]);
    JoinAppend(sep, front, parts[n - 1] + end);
    JoinLead(sep, lead, parts[..n - 1]);
    assert front == [lead + parts[..n - 1][0]] + parts[..n - 1][1..];
  }

  lemma JoinLead(sep: string, lead: string, parts: seq<string>)
    requires parts != []
    ensures Text.Join(sep, [lead + parts[0]] + parts[1..]) == lead + Text.Join(sep, parts)
  {
    assert ([lead + parts[0]] + parts[1..])[1..] == parts[1..];
  }

  function Lead(before: seq<string>): string {
    if before == [] then "(" else Conjunct(before) + Spaced(AND) + "("
  }

  function End(after: seq<string>): string {
    if after == [] then ")" else ")" + Spaced(AND) + Conjunct(after)
  }

  /** `A AND (B OR C OR …) AND D`: a choice in parentheses among obligations. */
  function Group(before: seq<string>, ids: seq<string>, after: seq<string>): string {
    Lead(before) + Text.Join(Spaced(OR), ids) + End(after)
  }

  /** How the splitter sees it: what is outside goes with the alternative it stands next to. */
  function GroupClauses(before: seq<string>, ids: seq<string>, after: seq<string>): (r: seq<seq<string>>)
    requires |ids| > 1
    ensures |r| == |ids|
    ensures r[0] == before + ["(" + ids[0]] && r[|ids| - 1] == [ids[|ids| - 1] + ")"] + after
    ensures forall i :: 0 < i < |ids| - 1 ==> r[i] == [ids[i]]
  {
    seq(|ids|, i requires 0 <= i < |ids| =>
      if i == 0 then before + ["(" + ids[0]] else if i == |ids| - 1 then [ids[i] + ")"] + after else [ids[i]])
  }

  lemma LeadWords(before: seq<string>, word: string)
    ensures Conjunct(before + ["(" + word]) == Lead(before) + word
  {
    if before == [] {
      assert before + ["(" + word] == ["(" + word];
    } else {
      JoinAppend(Spaced(AND), before, "(" + word);
    }
  }

  lemma EndWords(after: seq<string>, word: string)
    ensures Conjunct([word + ")"] + after) == word + End(after)
  {
    if after == [] {
      assert [word + ")"] + after == [word + ")"];
    } else {
      assert ([word + ")"] + after)[1..] == after;
      assert word + ")" + Spaced(AND) + Conjunct(after) == word + (")" + Spaced(AND) + Conjunct(after));
    }
  }

  lemma GroupIsClauses(before: seq<string>, ids: seq<string>, after: seq<string>)
    requires |ids| > 1
    ensures Group(before, ids, after) == Disjunct(GroupClauses(before, ids, after))
  {
    var parts, framed := Conjuncts(GroupClauses(before, ids, after)), Framed(Lead(before), ids, End(after));
    LeadWords(before, ids[0]);
    EndWords(after, ids[|ids| - 1]);
    forall i | 0 <= i < |ids| ensures parts[i] == framed[i] {
      assert 0 < i < |ids| - 1 ==> Conjunct([ids[i]]) == ids[i];
    }
    assert parts == framed;
    JoinFramed(Spaced(OR), Lead(before), ids, End(after));
  }

  lemma ParenthesisOperands(id: string)
    requires Identifier(id)
    ensures Operand(id) && Operand("(" + id) && Operand(id + ")")
    ensures Text.Strip(id, Wrapping) == id
    ensures Text.Strip("(" + id, Wrapping) == id && Text.Strip(id + ")", Wrapping) == id
  {
    Text.StripFixed(id, Wrapping);
    Text.StripPadded("(", id, "", Wrapping);
    Text.StripPadded("", id, ")", Wrapping);
    assert "(" + id + "" == "(" + id && "" + id + ")" == id + ")";
  }

  /** Identifiers outside a group, none of them the word `OR`. */
  predicate Outside(ids: seq<string>) {
    forall j :: 0 <= j < |ids| ==> Identifier(ids[j]) && Fold(ids[j]) != Fold(OR)
  }

  lemma GroupOperands(before: seq<string>, ids: seq<string>, after: seq<string>)
    requires Identifiers(ids) && |ids| > 1 && Outside(before) && Outside(after)
    ensures Operands(GroupClauses(before, ids, after))
  {
    var clauses := GroupClauses(before, ids, after);
    forall i, j | 0 <= i < |clauses| && 0 <= j < |clauses[i]|
      ensures Operand(clauses[i][j]) && (j > 0 ==> Fold(clauses[i][j]) != Fold(OR))
    {
      ParenthesisOperands(ids[i]);
      if i == 0 {
        NotTheWord(ids[0]);
        if j < |before| {
          ParenthesisOperands(before[j]);
        }
      } else if i == |ids| - 1 && j > 0 {
        ParenthesisOperands(after[j - 1]);
      }
    }
  }

  lemma NotTheWord(id: string)
    ensures Fold("(" + id) != Fold(OR)
  {
    assert Fold("(" + id)[0] == '(' && Fold(OR)[0] == 'o';
  }

  // ---------------------------------------------------------------- case and spacing

  /** Nothing but the case of letters tells the characters apart. */
  predicate SameLetter(c: char, d: char) {
    c == d || ('A' <= c <= 'Z' && c as int + 32 == d as int) || ('A' <= d <= 'Z' && d as int + 32 == c as int)
  }

  lemma FoldIgnoresCase(a: string, b: string)
    ensures Fold(a) == Fold(b) <==> |a| == |b| && forall i :: 0 <= i < |a| ==> SameLetter(a[i], b[i])
  {
    if Fold(a) == Fold(b) {
      assert |a| == |Fold(a)| == |b|;
      forall i | 0 <= i < |a| ensures SameLetter(a[i], b[i]) {
        assert Fold(a)[i] == FoldChar(a[i]) && Fold(b)[i] == FoldChar(b[i]);
      }
    }
  }

  /** White space, and nothing else. */
  predicate Blank(s: string) {
    s != "" && forall i :: 0 <= i < |s| ==> Text.IsSpace(s[i])
  }

  /** `head`, white space, a spelling of the operator, white space and `rest`. */
  predicate Spread(s: string, head: string, gap: string, spelt: string, gap': string, rest: string) {
    s == head + (gap + (spelt + (gap' + rest)))
  }

  lemma GapOver(s: string, i: nat, gap: string)
    requires i + |gap| <= |s| && s[i..i + |gap|] == gap && (forall k :: 0 <= k < |gap| ==> Text.IsSpace(gap[k]))
    requires i + |gap| < |s| ==> !Text.IsSpace(s[i + |gap|])
    ensures Gap(s, i) == i + |gap|
  {
    forall k | i <= k < i + |gap| ensures Text.IsSpace(s[k]) {
      assert s[k] == s[i..i + |gap|][k - i];
    }
    GapIs(s, i, i + |gap|);
  }

  lemma SpreadPieces(s: string, head: string, gap: string, spelt: string, gap': string, rest: string)
    requires Spread(s, head, gap, spelt, gap', rest)
    ensures var i, j, k, m := |head|, |head| + |gap|, |head| + |gap| + |spelt|, |head| + |gap| + |spelt| + |gap'|;
      m + |rest| == |s| && s[..i] == head && s[i..j] == gap && s[j..k] == spelt && s[k..m] == gap' && s[m..] == rest
  {
    Text.DropAppend(head, gap + (spelt + (gap' + rest)), 0);
    assert s[|head|..] == gap + (spelt + (gap' + rest));
    assert s[|head| + |gap|..] == spelt + (gap' + rest);
    assert s[|head| + |gap| + |spelt|..] == gap' + rest;
  }

  lemma SpreadMatches(s: string, head: string, gap: string, spelt: string, gap': string, rest: string, word: string)
    requires Spread(s, head, gap, spelt, gap', rest) && Blank(gap) && Blank(gap') && Word(spelt)
    requires Fold(spelt) == Fold(word) && rest != "" && !Text.IsSpace(rest[0])
    ensures Operator(s, word, |head|) && OperatorEnd(s, word, |head|) == |s| - |rest|
  {
    SpreadPieces(s, head, gap, spelt, gap', rest);
    var i, j, k, m := |head|, |head| + |gap|, |head| + |gap| + |spelt|, |head| + |gap| + |spelt| + |gap'|;
    assert s[j] == s[j..k][0] && s[m] == s[m..][0];
    GapOver(s, i, gap);
    GapOver(s, k, gap');
    assert |spelt| == |word|;
    forall x | 0 <= x < |word| ensures FoldChar(s[j + x]) == FoldChar(word[x]) {
      assert s[j + x] == s[j..k][x] && Fold(spelt)[x] == Fold(word)[x];
    }
  }

  /** An operator is found in any case, and whatever white space is around it. */
  lemma AnySpellingSplits(s: string, head: string, gap: string, spelt: string, gap': string, rest: string, word: string)
    requires Spread(s, head, gap, spelt, gap', rest) && Blank(gap) && Blank(gap') && Word(spelt)
    requires Fold(spelt) == Fold(word) && Solid(head) && rest != "" && !Text.IsSpace(rest[0])
    ensures SplitOn(s, word) == [head] + SplitOn(rest, word)
  {
    SpreadPieces(s, head, gap, spelt, gap', rest);
    SpreadMatches(s, head, gap, spelt, gap', rest, word);
    SolidIsQuiet(s, head, word);
    SplitsAt(s, word, |head|, |s| - |rest|, head, rest);
  }

  /** Parentheses and spaces around an identifier come off in any number. */
  lemma WrappingComesOff(before: string, id: string, after: string)
    requires Identifier(id)
    requires forall c :: c in before || c in after ==> c == ' ' || c == '(' || c == ')'
    ensures Unwrap([before + id + after]) == [id]
  {
    Text.StripPadded(before, id, after, Wrapping);
  }
}
