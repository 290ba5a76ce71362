/**
 How names of places are compared: the words of a name count, whatever their case and whatever
 blanks and dashes stand between them, and exactly when a stored name can be found at all.
 */
module ListingPlaces {
  import opened Common
  import opened ListingQuery
  import opened Strings
  import Slugs

  // ----- Words -----

  predicate Gap(c: char) {
    Blank(c) || c == '-'
  }

  /** The maximal runs of characters other than blanks and dashes. */
  function Words(s: string): (words: seq<string>)
    ensures s != "" && !Gap(s[0]) ==> words != []
  {
    if s == "" then []
    else if Gap(s[0]) then Words(s[1..])
    else if |s| == 1 || Gap(s[1]) then [[s[0]]] + Words(s[1..])
    else
      var rest := Words(s[1..]);
      [[s[0]] + rest[0]] + rest[1..]
  }

  /** Words with one space between them. */
  function Spaced(words: seq<string>): string {
    if words == [] then "" else if |words| == 1 then words[0] else words[0] + " " + Spaced(words[1..])
  }

  predicate Word(w: string) {
    w != "" && forall i | 0 <= i < |w| :: !Gap(w[i])
  }

  ghost predicate AllWords(words: seq<string>) {
    forall i | 0 <= i < |words| :: Word(words[i])
  }

  lemma {:induction false} WordsAreWords(s: string)
    ensures AllWords(Words(s))
    decreases |s|
  {
    if s != "" {
      WordsAreWords(s[1..]);
    }
  }

  lemma {:induction false} SpacedIsTrimmed(words: seq<string>)
    requires AllWords(words)
    ensures Trimmed(Spaced(words)) && (words != [] ==> Spaced(words) != "" && !Gap(Spaced(words)[0]))
    decreases |words|
  {
    if |words| > 1 {
      assert AllWords(words[1..]);
      SpacedIsTrimmed(words[1..]);
    }
  }

  /** One character in front of a text that goes on with its first word. */
  lemma SpacedGrows(c: char, words: seq<string>)
    requires words != []
    ensures Spaced([[c] + words[0]] + words[1..]) == [c] + Spaced(words)
  {
    var grown := [[c] + words[0]] + words[1..];
    assert grown[1..] == words[1..];
  }

  lemma SpacedAdds(c: char, words: seq<string>)
    ensures Spaced([[c]] + words) == if words == [] then [c] else [c] + " " + Spaced(words)
  {
    assert ([[c]] + words)[1..] == words;
  }

  lemma {:induction false} WordsOfSame(s: string, r: string)
    requires |s| == |r| && forall i | 0 <= i < |s| :: r[i] == s[i] || (Gap(s[i]) && Gap(r[i]))
    ensures Words(r) == Words(s)
    decreases |s|
  {
    if s != "" {
      WordsOfSame(s[1..], r[1..]);
    }
  }

  lemma {:induction false} WordsOfSpaced(words: seq<string>)
    requires AllWords(words)
    ensures Words(Spaced(words)) == words
    decreases |words|
  {
    if |words| == 1 {
      WordThen(words[0], "");
      assert words[0] + "" == words[0];
    } else if words != [] {
      assert AllWords(words[1..]);
      WordsOfSpaced(words[1..]);
      WordThen(words[0], " " + Spaced(words[1..]));
      assert words[0] + " " + Spaced(words[1..]) == words[0] + (" " + Spaced(words[1..]));
      assert (" " + Spaced(words[1..]))[1..] == Spaced(words[1..]);
    }
  }

  lemma {:induction false} WordThen(w: string, rest: string)
    requires Word(w) && (rest == "" || Gap(rest[0]))
    ensures Words(w + rest) == [w] + Words(rest)
    decreases |w|
  {
    assert (w + rest)[1..] == w[1..] + rest;
    assert [w[0]] + w[1..] == w;
    if |w| == 1 {
      assert w[1..] + rest == rest;
      assert [w[0]] == w;
    } else {
      WordThen(w[1..], rest);
      assert (w + rest)[1] == w[1];
    }
  }

  // ----- The words of a query -----

  /** Whether a text begins, or ends, with a gap. */
  function Edge(gap: bool): string {
    if gap then " " else ""
  }

  /** One space is left between words, and at the edges where there was a gap. */
  ghost predicate SpacedOut(s: string, r: string) {
    if Words(s) == [] then r == Edge(s != "") else r == Edge(Gap(s[0])) + Spaced(Words(s)) + Edge(Gap(s[|s| - 1]))
  }

  lemma {:induction false} OneSpaceIs(s: string)
    requires forall i | 0 <= i < |s| :: s[i] != '-'
    ensures SpacedOut(s, OneSpace(s))
    decreases |s|
  {
    if s != "" {
      OneSpaceIs(s[1..]);
      if Gap(s[0]) { OneSpaceOfGap(s); } else { OneSpaceOfWord(s); }
    }
  }

  lemma OneSpaceOfGap(s: string)
    requires s != "" && s[0] != '-' && (|s| > 1 ==> s[1] != '-') && Gap(s[0]) && SpacedOut(s[1..], OneSpace(s[1..]))
    ensures SpacedOut(s, OneSpace(s))
  {
    var rest := s[1..];
    if rest != "" {
      LastOfTail(s);
      if !Gap(s[1]) {
        GapInFront(Spaced(Words(rest)), Edge(Gap(s[|s| - 1])));
      }
    }
  }

  lemma LastOfTail(s: string)
    requires |s| > 1
    ensures s[1..][0] == s[1] && s[1..][|s[1..]| - 1] == s[|s| - 1]
  {}

  lemma GapInFront(text: string, end: string)
    ensures " " + (Edge(false) + text + end) == Edge(true) + text + end
  {
    assert "" + text + end == text + end;
  }

  lemma OneSpaceOfWord(s: string)
    requires s != "" && !Gap(s[0]) && SpacedOut(s[1..], OneSpace(s[1..]))
    ensures SpacedOut(s, OneSpace(s))
  {
    var c, rest := s[0], s[1..];
    assert OneSpace(s) == [c] + OneSpace(rest);
    if rest != "" {
      LastOfTail(s);
      if Words(rest) == [] {
        NoWords(rest);
      } else {
        WordInFront(s);
        OneFront(c, Edge(Gap(s[1])), Spaced(Words(rest)), Edge(Gap(s[|s| - 1])));
      }
    }
  }

  lemma WordInFront(s: string)
    requires |s| > 1 && !Gap(s[0]) && Words(s[1..]) != []
    ensures Words(s) != [] && Spaced(Words(s)) == [s[0]] + Edge(Gap(s[1])) + Spaced(Words(s[1..]))
  {
    var words := Words(s[1..]);
    if Gap(s[1]) {
      SpacedAdds(s[0], words);
    } else {
      SpacedGrows(s[0], words);
    }
  }

  lemma {:induction false} NoWords(s: string)
    requires Words(s) == []
    ensures forall i | 0 <= i < |s| :: Gap(s[i])
    decreases |s|
  {
    if s != "" {
      NoWords(s[1..]);
      forall i | 0 <= i < |s| ensures Gap(s[i]) { if i > 0 { assert s[i] == s[1..][i - 1]; } }
    }
  }

  lemma OneFront(c: char, gap: string, text: string, end: string)
    ensures [c] + (gap + text + end) == Edge(false) + ([c] + gap + text) + end
  {}

  lemma TrimSpacedOut(s: string, r: string)
    requires SpacedOut(s, r)
    ensures Trim(r) == Spaced(Words(s))
  {
    WordsAreWords(s);
    SpacedIsTrimmed(Words(s));
    if Words(s) == [] {
      TrimAround("", "", r);
      assert "" + "" + r == r;
    } else {
      TrimAround(Edge(Gap(s[0])), Spaced(Words(s)), Edge(Gap(s[|s| - 1])));
    }
  }

  /** A query is washed to its words in lower case. */
  lemma PlaceIs(value: string)
    ensures Place(value) == Spaced(Words(Slugs.Lower(value)))
  {
    var s := Replaced(Slugs.Lower(value), '-', ' ');
    WordsOfSame(Slugs.Lower(value), s);
    OneSpaceIs(s);
    TrimSpacedOut(s, OneSpace(s));
  }

  // ----- The words of a stored name -----

  /** Spaces only, never three in a row, and none at the end. */
  ghost predicate Neat(s: string) {
    && (forall i | 0 <= i < |s| :: Gap(s[i]) ==> s[i] == ' ')
    && (forall i | 0 <= i < |s| - 2 :: s[i] != ' ' || s[i + 1] != ' ' || s[i + 2] != ' ')
    && (s != "" ==> !Gap(s[|s| - 1]))
  }

  lemma {:induction false} HalveIs(s: string)
    requires (s == "" || !Gap(s[0])) && Neat(s)
    ensures HalveSpaces(s) == Spaced(Words(s))
    decreases |s|
  {
    if |s| > 1 {
      if !Gap(s[1]) {
        NeatTail(s, 1);
        HalveIs(s[1..]);
        SpacedGrows(s[0], Words(s[1..]));
      } else {
        var n := if s[2] == ' ' then 3 else 2;
        NeatTail(s, n);
        HalveIs(s[n..]);
        HalveGap(s, n);
        SpacedAdds(s[0], Words(s[n..]));
      }
    }
  }

  lemma HalveGap(s: string, n: nat)
    requires 2 <= n < |s| && n <= 3 && !Gap(s[0]) && !Gap(s[n]) && s[1] == ' ' && (n == 3 <==> s[2] == ' ')
    ensures HalveSpaces(s) == [s[0]] + " " + HalveSpaces(s[n..])
    ensures Words(s) == [[s[0]]] + Words(s[n..]) && Words(s[n..]) != []
  {
    assert s[n..][0] == s[n];
    SplitGap(s, n);
    if n == 2 { SpaceInside(s[0], s[n..]); } else { SpacesInside(s[0], s[n..]); }
  }

  lemma SplitGap(s: string, n: nat)
    requires 2 <= n < |s| && n <= 3 && s[1] == ' ' && (n == 3 ==> s[2] == ' ')
    ensures s == [s[0]] + (if n == 2 then " " else "  ") + s[n..]
  {}

  lemma SpaceInside(c: char, t: string)
    requires !Gap(c) && t != "" && t[0] != ' '
    ensures HalveSpaces([c] + " " + t) == [c] + " " + HalveSpaces(t)
    ensures Words([c] + " " + t) == [[c]] + Words(t)
  {
    var s := [c] + " " + t;
    assert s[1..] == " " + t && (" " + t)[1..] == t;
    assert HalveSpaces(" " + t) == " " + HalveSpaces(t);
    assert Words(" " + t) == Words(t);
  }

  lemma SpacesInside(c: char, t: string)
    requires !Gap(c)
    ensures HalveSpaces([c] + "  " + t) == [c] + " " + HalveSpaces(t)
    ensures Words([c] + "  " + t) == [[c]] + Words(t)
  {
    var s := [c] + "  " + t;
    assert s[1..] == "  " + t;
    TwoSpaces(t);
  }

  lemma TwoSpaces(t: string)
    ensures HalveSpaces("  " + t) == " " + HalveSpaces(t)
    ensures Words("  " + t) == Words(t)
  {
    assert ("  " + t)[2..] == t && ("  " + t)[1..] == " " + t && (" " + t)[1..] == t;
    assert Words("  " + t) == Words(" " + t);
  }

  lemma NeatTail(s: string, n: nat)
    requires Neat(s) && n < |s|
    ensures Neat(s[n..])
  {
    var t := s[n..];
    assert forall i | 0 <= i < |t| :: t[i] == s[n + i];
  }

  lemma {:induction false} HalveKeepsFirst(s: string)
    requires s != ""
    ensures HalveSpaces(s) != "" && HalveSpaces(s)[0] == s[0]
  {}

  lemma {:induction false} HalveKeepsWords(s: string)
    ensures Words(HalveSpaces(s)) == Words(s)
    decreases |s|
  {
    if |s| >= 2 {
      if s[0] == ' ' && s[1] == ' ' {
        HalveKeepsWords(s[2..]);
        assert s[1..][1..] == s[2..] && (" " + HalveSpaces(s[2..]))[1..] == HalveSpaces(s[2..]);
      } else {
        HalveKeepsWords(s[1..]);
        HalveKeepsFirst(s[1..]);
        assert ([s[0]] + HalveSpaces(s[1..]))[1..] == HalveSpaces(s[1..]);
      }
    }
  }

  /** Single spaces only, and none at the end. */
  ghost predicate Single(s: string) {
    && (forall i | 0 <= i < |s| :: Gap(s[i]) ==> s[i] == ' ')
    && (forall i | 0 <= i < |s| - 1 :: s[i] != ' ' || s[i + 1] != ' ')
    && (s != "" ==> !Gap(s[|s| - 1]))
  }

  lemma SingleTail(c: char, s: string)
    requires Single([c] + s)
    ensures Single(s) && (Gap(c) ==> c == ' ' && s != "" && s[0] != ' ')
  {
    var cs := [c] + s;
    assert cs[0] == c && forall i | 0 <= i < |s| :: s[i] == cs[i + 1];
  }

  lemma {:induction false} HalvedIsNeat(s: string)
    requires Single(HalveSpaces(s))
    ensures Neat(s)
    decreases |s|
  {
    if |s| >= 2 {
      if s[0] == ' ' && s[1] == ' ' {
        var rest := s[2..];
        SingleTail(' ', HalveSpaces(rest));
        HalvedIsNeat(rest);
        HalveKeepsFirst(rest);
        assert forall i | 2 <= i < |s| :: s[i] == rest[i - 2];
      } else {
        var rest := s[1..];
        SingleTail(s[0], HalveSpaces(rest));
        HalvedIsNeat(rest);
        assert forall i | 1 <= i < |s| :: s[i] == rest[i - 1];
      }
    }
  }

  lemma {:induction false} SpacedIsSingle(words: seq<string>)
    requires AllWords(words)
    ensures Single(Spaced(words))
    decreases |words|
  {
    if |words| > 1 {
      var rest := Spaced(words[1..]);
      assert AllWords(words[1..]);
      SpacedIsSingle(words[1..]);
      SpacedIsTrimmed(words[1..]);
      var s := words[0] + " " + rest;
      forall i | 0 <= i < |s|
        ensures s[i] == if i < |words[0]| then words[0][i] else if i == |words[0]| then ' ' else rest[i - |words[0]| - 1]
      {}
    }
  }

  // ----- Lower case, dashes and the spaces around -----

  lemma {:induction false} LowerHalve(s: string)
    ensures Slugs.Lower(HalveSpaces(s)) == HalveSpaces(Slugs.Lower(s))
    decreases |s|
  {
    var lower := Slugs.Lower(s);
    if |s| >= 2 {
      assert Slugs.Lower(s[1..]) == lower[1..] && Slugs.Lower(s[2..]) == lower[2..];
      LowerHalve(s[1..]);
      LowerHalve(s[2..]);
    }
  }

  lemma {:induction false} TrimSpacesIs(s: string) returns (i: nat, j: nat)
    ensures i <= j <= |s| && TrimSpaces(s) == s[i..j]
    ensures (forall k | 0 <= k < i :: s[k] == ' ') && (forall k | j <= k < |s| :: s[k] == ' ')
    ensures i < j ==> s[i] != ' ' && s[j - 1] != ' '
    decreases |s|
  {
    if s != "" && s[0] == ' ' {
      var a, b := TrimSpacesIs(s[1..]);
      i, j := a + 1, b + 1;
      assert s[1..][a..b] == s[i..j];
    } else if s != "" && s[|s| - 1] == ' ' {
      i, j := TrimSpacesIs(s[..|s| - 1]);
      assert s[..|s| - 1][i..j] == s[i..j];
    } else {
      i, j := 0, |s|;
      assert s[0..|s|] == s;
    }
  }

  lemma {:induction false} WordsBehind(before: string, s: string)
    requires forall k | 0 <= k < |before| :: Gap(before[k])
    ensures Words(before + s) == Words(s)
    decreases |before|
  {
    if before == "" {
      assert before + s == s;
    } else {
      assert (before + s)[1..] == before[1..] + s;
      WordsBehind(before[1..], s);
    }
  }

  lemma {:induction false} WordsBefore(s: string, after: string)
    requires forall k | 0 <= k < |after| :: Gap(after[k])
    ensures Words(s + after) == Words(s)
    decreases |s|
  {
    if s == "" {
      WordsBehind(after, "");
      assert "" + after == after == after + "";
    } else {
      assert (s + after)[1..] == s[1..] + after;
      WordsBefore(s[1..], after);
    }
  }

  /** Lower case, spaces for dashes: what the database halves the double spaces of. */
  function Prepared(stored: string): string {
    Replaced(Slugs.Lower(TrimSpaces(stored)), '-', ' ')
  }

  lemma PlaceColumnIs(stored: string)
    ensures PlaceColumn(stored) == HalveSpaces(Prepared(stored))
  {
    var t := TrimSpaces(stored);
    LowerHalve(Replaced(t, '-', ' '));
    assert Slugs.Lower(Replaced(t, '-', ' ')) == Prepared(stored);
  }

  lemma WordsInside(before: string, name: string, after: string)
    requires (forall k | 0 <= k < |before| :: Gap(before[k])) && (forall k | 0 <= k < |after| :: Gap(after[k]))
    ensures Words(before + (name + after)) == Words(name)
  {
    WordsBehind(before, name + after);
    WordsBefore(name, after);
  }

  lemma InThree(s: string, i: nat, j: nat)
    requires i <= j <= |s|
    ensures s == s[..i] + (s[i..j] + s[j..])
  {}

  lemma WordsWithin(s: string, i: nat, j: nat)
    requires i <= j <= |s| && forall k | 0 <= k < |s| :: k < i || j <= k ==> Gap(s[k])
    ensures Words(s) == Words(s[i..j])
  {
    InThree(s, i, j);
    WordsInside(s[..i], s[i..j], s[j..]);
  }

  /** What became of each character. */
  lemma PreparedAt(stored: string, i: nat, j: nat)
    requires i <= j <= |stored| && TrimSpaces(stored) == stored[i..j]
    ensures |Prepared(stored)| == j - i
    ensures forall k | i <= k < j ::
              && Prepared(stored)[k - i] == (if stored[k] == '-' then ' ' else Slugs.LowerChar(stored[k]))
              && (Gap(Prepared(stored)[k - i]) <==> Gap(stored[k]))
              && (Prepared(stored)[k - i] == ' ' <==> stored[k] in {' ', '-'})
  {}

  lemma PreparedWords(stored: string)
    ensures Words(Prepared(stored)) == Words(Slugs.Lower(stored))
  {
    var i, j := TrimSpacesIs(stored);
    var lower := Slugs.Lower(stored);
    WordsWithin(lower, i, j);
    PreparedAt(stored, i, j);
    forall k | 0 <= k < j - i
      ensures Prepared(stored)[k] == lower[i..j][k] || (Gap(lower[i..j][k]) && Gap(Prepared(stored)[k]))
    {
      assert lower[i..j][k] == Slugs.LowerChar(stored[i + k]);
      assert Prepared(stored)[(i + k) - i] == if stored[i + k] == '-' then ' ' else Slugs.LowerChar(stored[i + k]);
    }
    WordsOfSame(lower[i..j], Prepared(stored));
  }

  /**
   The name from i to j, with spaces around it: only spaces and dashes between its words, at most two
   together, and none at its ends.
   */
  ghost predicate NameAt(stored: string, i: nat, j: nat) {
    && i <= j <= |stored|
    && (forall k | 0 <= k < |stored| :: k < i || j <= k ==> stored[k] == ' ')
    && (i < j ==> !Gap(stored[i]) && !Gap(stored[j - 1]))
    && (forall k | i <= k < j :: Gap(stored[k]) ==> stored[k] in {' ', '-'})
    && (forall k | i <= k < j - 2 :: !Gap(stored[k]) || !Gap(stored[k + 1]) || !Gap(stored[k + 2]))
  }

  ghost predicate Findable(stored: string) {
    exists i: nat, j: nat :: NameAt(stored, i, j)
  }

  lemma FindableIff(stored: string)
    ensures Findable(stored)
            <==> Neat(Prepared(stored)) && (Prepared(stored) != "" ==> !Gap(Prepared(stored)[0]))
  {
    var a, b := TrimSpacesIs(stored);
    forall i: nat, j: nat | NameAt(stored, i, j)
      ensures NameAt(stored, a, b)
    {
      assert i < j ==> i == a && j == b;
    }
    if NameAt(stored, a, b) { FindableIsNeat(stored, a, b); }
    if Neat(Prepared(stored)) && (Prepared(stored) != "" ==> !Gap(Prepared(stored)[0])) { NeatIsFindable(stored, a, b); }
  }

  lemma FindableIsNeat(stored: string, a: nat, b: nat)
    requires NameAt(stored, a, b) && TrimSpaces(stored) == stored[a..b]
    ensures Neat(Prepared(stored)) && (Prepared(stored) != "" ==> !Gap(Prepared(stored)[0]))
  {
    var r := Prepared(stored);
    PreparedAt(stored, a, b);
    forall k | 0 <= k < |r| ensures Gap(r[k]) <==> Gap(stored[k + a]) { assert r[(k + a) - a] == r[k]; }
    forall k | 0 <= k < |r| ensures Gap(r[k]) ==> r[k] == ' ' { assert r[(k + a) - a] == r[k]; }
    forall k | 0 <= k < |r| - 2 ensures !Gap(r[k]) || !Gap(r[k + 1]) || !Gap(r[k + 2]) {
      assert !Gap(stored[k + a]) || !Gap(stored[k + a + 1]) || !Gap(stored[k + a + 2]);
    }
  }

  lemma NeatIsFindable(stored: string, a: nat, b: nat)
    requires a <= b <= |stored| && TrimSpaces(stored) == stored[a..b]
    requires forall k | 0 <= k < |stored| :: k < a || b <= k ==> stored[k] == ' '
    requires Neat(Prepared(stored)) && (Prepared(stored) != "" ==> !Gap(Prepared(stored)[0]))
    ensures NameAt(stored, a, b)
  {
    var r := Prepared(stored);
    PreparedAt(stored, a, b);
    forall k | a <= k < b - 2 ensures !Gap(stored[k]) || !Gap(stored[k + 1]) || !Gap(stored[k + 2]) {
      var m := k - a;
      assert r[m] != ' ' || r[m + 1] != ' ' || r[m + 2] != ' ';
    }
  }

  /**
   A stored name matches a query if and only if it can be found and both have the same words,
   whatever their case and whatever blanks and dashes the query is written with.
   */
  lemma PlaceFoundIff(stored: string, value: string)
    ensures PlaceColumn(stored) == Place(value)
            <==> Findable(stored) && Words(Slugs.Lower(stored)) == Words(Slugs.Lower(value))
  {
    var r, words := Prepared(stored), Words(Slugs.Lower(value));
    PlaceIs(value);
    PlaceColumnIs(stored);
    PreparedWords(stored);
    FindableIff(stored);
    WordsAreWords(Slugs.Lower(value));
    SpacedIsTrimmed(words);
    SpacedIsSingle(words);
    WordsOfSpaced(words);
    HalveKeepsWords(r);
    if Findable(stored) {
      HalveIs(r);
    }
    if HalveSpaces(r) == Spaced(words) {
      HalvedIsNeat(r);
      if r != "" { HalveKeepsFirst(r); }
    }
  }

  lemma TwoWords(a: string, gap: string, b: string)
    requires Word(a) && Word(b) && gap != "" && forall k | 0 <= k < |gap| :: Gap(gap[k])
    ensures Words(a + (gap + b)) == [a, b]
  {
    WordThen(a, gap + b);
    WordsBehind(gap, b);
    WordThen(b, "");
    assert b + "" == b;
  }

  lemma LowerWord(w: string)
    requires Word(w)
    ensures Word(Slugs.Lower(w))
  {}

  lemma LowerParts(a: string, gap: string, b: string)
    requires forall k | 0 <= k < |gap| :: gap[k] in {' ', '-'}
    ensures Slugs.Lower(a + (gap + b)) == Slugs.Lower(a) + (gap + Slugs.Lower(b))
  {
    var lower := Slugs.Lower(a + (gap + b));
    forall k | 0 <= k < |lower| ensures lower[k] == (Slugs.Lower(a) + (gap + Slugs.Lower(b)))[k] {}
  }

  /** A name stored with a dash between spaces has the same words as one typed with a space, and is not found by it. */
  lemma SpacedDashIsLost(a: string, b: string)
    requires Word(a) && Word(b)
    ensures var stored, typed := a + (" - " + b), a + (" " + b);
            && Words(Slugs.Lower(stored)) == Words(Slugs.Lower(typed)) == [Slugs.Lower(a), Slugs.Lower(b)]
            && PlaceColumn(stored) != Place(typed)
  {
    var stored, typed := a + (" - " + b), a + (" " + b);
    LowerWord(a);
    LowerWord(b);
    LowerParts(a, " - ", b);
    LowerParts(a, " ", b);
    TwoWords(Slugs.Lower(a), " - ", Slugs.Lower(b));
    TwoWords(Slugs.Lower(a), " ", Slugs.Lower(b));
    PlaceFoundIff(stored, typed);
    ThreeApart(stored, |a|);
  }

  lemma ThreeApart(stored: string, k: nat)
    requires 0 < k && k + 3 < |stored| && !Gap(stored[0]) && !Gap(stored[|stored| - 1])
    requires Gap(stored[k]) && Gap(stored[k + 1]) && Gap(stored[k + 2])
    ensures !Findable(stored)
  {
    forall i: nat, j: nat
      ensures NameAt(stored, i, j) ==> i == 0 && j == |stored|
    {}
    assert !NameAt(stored, 0, |stored|);
  }
}
