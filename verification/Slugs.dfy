/**
 How display names become URL slugs.  Trimming is not a step of its own here: blanks at
 either end turn into a dash that the last step removes anyway.
 */
module Slugs {

  predicate Alnum(c: char) {
    'a' <= c <= 'z' || '0' <= c <= '9'
  }

  function LowerChar(c: char): char {
    if 'A' <= c <= 'Z' then c - 'A' + 'a' else c
  }

  function Lower(s: string): (r: string)
    ensures |r| == |s| && forall i | 0 <= i < |s| :: r[i] == LowerChar(s[i])
  {
    if s == "" then "" else [LowerChar(s[0])] + Lower(s[1..])
  }

  /** Replaces every ampersand by the word "and". */
  function SpellAmpersand(s: string): string {
    if s == "" then "" else (if s[0] == '&' then "and" else [s[0]]) + SpellAmpersand(s[1..])
  }

  function DropQuotes(s: string): string {
    if s == "" then "" else (if s[0] in "'’‘`" then "" else [s[0]]) + DropQuotes(s[1..])
  }

  function SkipToAlnum(s: string): (r: string)
    ensures |r| <= |s| && (r != "" ==> Alnum(r[0]))
  {
    if s == "" || Alnum(s[0]) then s else SkipToAlnum(s[1..])
  }

  /** Every maximal run of other characters becomes one dash. */
  function Dashed(s: string): string
    decreases |s|
  {
    if s == "" then ""
    else if Alnum(s[0]) then [s[0]] + Dashed(s[1..])
    else "-" + Dashed(SkipToAlnum(s[1..]))
  }

  function TrimDash(s: string): string {
    var front := if s != "" && s[0] == '-' then s[1..] else s;
    if front != "" && front[|front| - 1] == '-' then front[..|front| - 1] else front
  }

  /** The slug of a city, a locality or a type. */
  function Slug(s: string): string {
    TrimDash(Dashed(SpellAmpersand(Lower(s))))
  }

  /** The slug of a property; apostrophes vanish instead of becoming dashes. */
  function NormalizeSeoSlug(s: string): string {
    TrimDash(Dashed(DropQuotes(SpellAmpersand(Lower(s)))))
  }

  predicate SingleDashes(s: string) {
    && (forall i | 0 <= i < |s| :: Alnum(s[i]) || s[i] == '-')
    && (forall i | 0 < i < |s| :: s[i - 1] == '-' ==> s[i] != '-')
  }

  /** Words of letters and digits, joined by single dashes. */
  predicate SafeSlug(s: string) {
    SingleDashes(s) && s != "" && Alnum(s[0]) && Alnum(s[|s| - 1])
  }

  lemma {:induction false} DashedShape(s: string)
    ensures SingleDashes(Dashed(s))
    ensures s != "" ==> Dashed(s) != "" && (Alnum(s[0]) ==> Alnum(Dashed(s)[0]))
    decreases |s|
  {
    if s != "" {
      if Alnum(s[0]) {
        DashedShape(s[1..]);
      } else {
        DashedShape(SkipToAlnum(s[1..]));
      }
    }
  }

  lemma {:induction false} DashedKeepsSafe(s: string)
    requires SingleDashes(s) && (s != "" ==> Alnum(s[|s| - 1]))
    ensures Dashed(s) == s
    decreases |s|
  {
    if s != "" {
      DashedKeepsSafe(s[1..]);
      assert s == [s[0]] + s[1..];
    }
  }

  lemma {:induction false} LettersUntouched(s: string)
    requires forall i | 0 <= i < |s| :: Alnum(s[i]) || s[i] == '-'
    ensures Lower(s) == s && SpellAmpersand(s) == s && DropQuotes(s) == s
    decreases |s|
  {
    if s != "" {
      LettersUntouched(s[1..]);
      assert s == [s[0]] + s[1..];
    }
  }

  lemma TrimDashMakesSafe(d: string)
    requires SingleDashes(d)
    ensures TrimDash(d) == "" || SafeSlug(TrimDash(d))
    ensures SafeSlug(d) ==> TrimDash(d) == d
  {
    var front := if d != "" && d[0] == '-' then d[1..] else d;
    assert front != "" ==> Alnum(front[0]) by { assert |d| > 1 ==> d[1] == d[1..][0]; }
    assert SingleDashes(front);
    assert |front| > 1 && front[|front| - 1] == '-' ==> Alnum(front[|front| - 2]);
  }

  /** Both slug functions produce nothing but safe slugs. */
  lemma SlugsAreSafe(s: string)
    ensures Slug(s) == "" || SafeSlug(Slug(s))
    ensures NormalizeSeoSlug(s) == "" || SafeSlug(NormalizeSeoSlug(s))
  {
    var spelled := SpellAmpersand(Lower(s));
    DashedShape(spelled);
    TrimDashMakesSafe(Dashed(spelled));
    DashedShape(DropQuotes(spelled));
    TrimDashMakesSafe(Dashed(DropQuotes(spelled)));
  }

  /** Safe slugs are left alone. */
  lemma SafeSlugsAreFixed(s: string)
    requires SafeSlug(s)
    ensures Slug(s) == s && NormalizeSeoSlug(s) == s
  {
    LettersUntouched(s);
    DashedKeepsSafe(s);
    TrimDashMakesSafe(s);
  }

  // ----- Slugs of names -----

  predicate Word(s: string) {
    s != "" && forall i | 0 <= i < |s| :: 'a' <= s[i] <= 'z' || 'A' <= s[i] <= 'Z'
  }

  lemma {:induction false} NothingToSpell(s: string)
    requires forall i | 0 <= i < |s| :: s[i] != '&'
    ensures SpellAmpersand(s) == s
  {
    if s != "" {
      NothingToSpell(s[1..]);
      assert s == [s[0]] + s[1..];
    }
  }

  lemma {:induction false} DashedWord(word: string, rest: string)
    requires forall i | 0 <= i < |word| :: Alnum(word[i])
    ensures Dashed(word + rest) == word + Dashed(rest)
    decreases |word|
  {
    if word == "" {
      assert word + rest == rest;
    } else {
      assert (word + rest)[1..] == word[1..] + rest;
      DashedWord(word[1..], rest);
      assert word == [word[0]] + word[1..];
    }
  }

  lemma LowerWord(word: string)
    requires Word(word)
    ensures forall i | 0 <= i < |word| :: Alnum(Lower(word)[i])
  {}

  /** The slug of a word is the word in lower case. */
  lemma SlugOfWord(word: string)
    requires Word(word)
    ensures Slug(word) == Lower(word)
  {
    var w := Lower(word);
    LowerWord(word);
    NothingToSpell(w);
    DashedWord(w, "");
    assert w + "" == w;
    TrimDashMakesSafe(w);
  }

  predicate AllAlnum(s: string) {
    s != "" && forall i | 0 <= i < |s| :: Alnum(s[i])
  }

  lemma {:induction false} LowerConcat(a: string, b: string)
    ensures Lower(a + b) == Lower(a) + Lower(b)
    decreases |a|
  {
    if a == "" {
      assert a + b == b;
    } else {
      assert (a + b)[1..] == a[1..] + b;
      LowerConcat(a[1..], b);
    }
  }

  lemma LowerTwo(first: string, second: string)
    ensures Lower(first + " " + second) == Lower(first) + " " + Lower(second)
  {
    LowerConcat(first + " ", second);
    LowerConcat(first, " ");
    assert Lower(" ") == " ";
  }

  lemma DashedTwo(a: string, b: string)
    requires AllAlnum(a) && AllAlnum(b)
    ensures Dashed(a + " " + b) == a + "-" + b
  {
    var tail := " " + b;
    assert a + " " + b == a + tail && tail[1..] == b;
    DashedWord(a, tail);
    DashedWord(b, "");
    assert b + "" == b;
    assert Dashed(tail) == "-" + b;
    assert a + ("-" + b) == a + "-" + b;
  }

  lemma JoinedIsSafe(a: string, b: string)
    requires AllAlnum(a) && AllAlnum(b)
    ensures SafeSlug(a + "-" + b)
  {
    var s := a + "-" + b;
    forall i | 0 <= i < |s| ensures if i == |a| then s[i] == '-' else Alnum(s[i]) {
      assert s[i] == if i < |a| then a[i] else if i == |a| then '-' else b[i - |a| - 1];
    }
  }

  /** Two words are joined by a dash. */
  lemma SlugOfTwoWords(first: string, second: string)
    requires Word(first) && Word(second)
    ensures Slug(first + " " + second) == Lower(first) + "-" + Lower(second)
  {
    var a, b := Lower(first), Lower(second);
    LowerWord(first);
    LowerWord(second);
    LowerTwo(first, second);
    var spoken := a + " " + b;
    forall i | 0 <= i < |spoken| ensures spoken[i] != '&' {
      assert spoken[i] == if i < |a| then a[i] else if i == |a| then ' ' else b[i - |a| - 1];
    }
    NothingToSpell(spoken);
    DashedTwo(a, b);
    JoinedIsSafe(a, b);
    TrimDashMakesSafe(a + "-" + b);
  }

  /** `to` is what an unsafe slug `from` is renamed to. */
  predicate Sanitises(from: string, to: string) {
    to == NormalizeSeoSlug(from) && SafeSlug(to) && !SafeSlug(from)
  }
}
