/**
 The path patterns of robots.txt: how the policy checker matches them, and what section 2.2.3
 of RFC 9309 says they mean.
 */
module RobotsMatch {

  // ----- The matcher: split on stars, then match the parts in order -----

  function SplitStar(p: string): (parts: seq<string>)
    ensures parts != []
  {
    if p == "" then [""]
    else
      var rest := SplitStar(p[1..]);
      if p[0] == '*' then [""] + rest else [[p[0]] + rest[0]] + rest[1..]
  }

  /**
   Where one part may end when it starts at the front of u.  All special characters are escaped
   except the dollar, which therefore demands the end of the URL wherever it stands.
   */
  predicate PartFits(part: string, u: string, len: nat)
    decreases |part|
  {
    if part == "" then len == 0
    else if part[0] == '$' then u == "" && PartFits(part[1..], u, len)
    else u != "" && len > 0 && u[0] == part[0] && PartFits(part[1..], u[1..], len - 1)
  }

  /** The remaining parts, each after any gap. */
  predicate GapsFit(parts: seq<string>, u: string)
    decreases |parts|
  {
    parts == [] ||
    exists gap, len | 0 <= gap <= |u| && 0 <= len <= |u| - gap ::
      PartFits(parts[0], u[gap..], len) && GapsFit(parts[1..], u[gap..][len..])
  }

  predicate Matches(p: string, u: string) {
    var parts := SplitStar(p);
    exists len | 0 <= len <= |u| :: PartFits(parts[0], u, len) && GapsFit(parts[1..], u[len..])
  }

  // ----- What a pattern means -----

  /** w is the pattern with every star replaced by some text. */
  ghost predicate Spells(p: string, w: string)
    decreases |p|
  {
    if p == "" then w == ""
    else if p[0] == '*' then exists k | 0 <= k <= |w| :: Spells(p[1..], w[k..])
    else w != "" && w[0] == p[0] && Spells(p[1..], w[1..])
  }

  /** Patterns match prefixes; a final dollar asks for the whole URL. */
  ghost predicate Means(p: string, u: string) {
    if p != "" && p[|p| - 1] == '$' then Spells(p[..|p| - 1], u)
    else exists n | 0 <= n <= |u| :: Spells(p, u[..n])
  }

  predicate NoInnerDollar(p: string) {
    forall i | 0 <= i < |p| - 1 :: p[i] != '$'
  }

  // ----- The matcher character by character -----

  ghost predicate Scan(p: string, u: string)
    decreases |p|
  {
    if p == "" then true
    else if p[0] == '*' then exists k | 0 <= k <= |u| :: Scan(p[1..], u[k..])
    else if p[0] == '$' then u == "" && Scan(p[1..], u)
    else u != "" && u[0] == p[0] && Scan(p[1..], u[1..])
  }

  lemma {:induction false} PartsScan(p: string, u: string)
    ensures Matches(p, u) <==> Scan(p, u)
    decreases |p|
  {
    var parts := SplitStar(p);
    if p == "" {
      assert PartFits(parts[0], u, 0) && GapsFit(parts[1..], u[0..]);
    } else {
      var rest := SplitStar(p[1..]);
      if p[0] == '*' {
        StarScan(p, u);
      } else if p[0] == '$' {
        PartsScan(p[1..], u);
        assert parts[1..] == rest[1..] && parts[0][1..] == rest[0];
        if u == "" {
          assert forall len | 0 <= len <= |u| :: PartFits(parts[0], u, len) <==> PartFits(rest[0], u, len);
        }
      } else {
        LetterScan(p, u);
      }
    }
  }

  lemma {:induction false} StarScan(p: string, u: string)
    requires p != "" && p[0] == '*'
    ensures Matches(p, u) <==> Scan(p, u)
    decreases |p|, 0
  {
    var parts, rest := SplitStar(p), SplitStar(p[1..]);
    assert parts[0] == "" && parts[1..] == rest;
    assert u[0..] == u;
    assert Matches(p, u) <==> GapsFit(rest, u) by {
      assert PartFits("", u, 0);
    }
    forall k | 0 <= k <= |u| ensures Matches(p[1..], u[k..]) <==> Scan(p[1..], u[k..]) { PartsScan(p[1..], u[k..]); }
    if GapsFit(rest, u) {
      var gap, len :| 0 <= gap <= |u| && 0 <= len <= |u| - gap
        && PartFits(rest[0], u[gap..], len) && GapsFit(rest[1..], u[gap..][len..]);
      assert Matches(p[1..], u[gap..]);
    }
    if k :| 0 <= k <= |u| && Matches(p[1..], u[k..]) {
      var len :| 0 <= len <= |u[k..]| && PartFits(rest[0], u[k..], len) && GapsFit(rest[1..], u[k..][len..]);
      assert GapsFit(rest, u);
    }
  }

  lemma {:induction false} LetterScan(p: string, u: string)
    requires p != "" && p[0] != '*' && p[0] != '$'
    ensures Matches(p, u) <==> Scan(p, u)
    decreases |p|, 0
  {
    var parts, rest := SplitStar(p), SplitStar(p[1..]);
    assert parts[1..] == rest[1..] && parts[0][1..] == rest[0];
    if u != "" && u[0] == p[0] {
      PartsScan(p[1..], u[1..]);
      if len :| 0 <= len <= |u| && PartFits(parts[0], u, len) && GapsFit(parts[1..], u[len..]) {
        assert u[1..][len - 1..] == u[len..];
        assert Matches(p[1..], u[1..]);
      }
      if len :| 0 <= len <= |u[1..]| && PartFits(rest[0], u[1..], len) && GapsFit(rest[1..], u[1..][len..]) {
        assert u[1..][len..] == u[len + 1..];
        assert PartFits(parts[0], u, len + 1);
      }
    }
  }

  // ----- Agreement with the standard -----

  lemma {:induction false} ScanPrefix(p: string, u: string)
    requires forall i | 0 <= i < |p| :: p[i] != '$'
    ensures Scan(p, u) <==> exists n | 0 <= n <= |u| :: Spells(p, u[..n])
    decreases |p|
  {
    if p == "" {
      assert Spells(p, u[..0]);
    } else if p[0] == '*' {
      forall k | 0 <= k <= |u|
        ensures Scan(p[1..], u[k..]) <==> exists n | 0 <= n <= |u[k..]| :: Spells(p[1..], u[k..][..n])
      {
        ScanPrefix(p[1..], u[k..]);
      }
      if k :| 0 <= k <= |u| && Scan(p[1..], u[k..]) {
        var n :| 0 <= n <= |u[k..]| && Spells(p[1..], u[k..][..n]);
        assert u[..k + n][k..] == u[k..][..n];
        assert Spells(p, u[..k + n]);
      }
      if n :| 0 <= n <= |u| && Spells(p, u[..n]) {
        var k :| 0 <= k <= n && Spells(p[1..], u[..n][k..]);
        assert u[..n][k..] == u[k..][..n - k];
      }
    } else if u != "" {
      ScanPrefix(p[1..], u[1..]);
      if n :| 0 <= n <= |u| && Spells(p, u[..n]) {
        assert u[..n][1..] == u[1..][..n - 1];
      }
      if n :| 0 <= n <= |u[1..]| && Spells(p[1..], u[1..][..n]) && u[0] == p[0] {
        assert u[..n + 1][1..] == u[1..][..n];
        assert Spells(p, u[..n + 1]);
      }
    }
  }

  lemma {:induction false} ScanWhole(p: string, u: string)
    requires forall i | 0 <= i < |p| :: p[i] != '$'
    ensures Scan(p + "$", u) <==> Spells(p, u)
    decreases |p|
  {
    var q := p + "$";
    if p == "" {
      assert q[1..] == "";
    } else {
      assert q[1..] == p[1..] + "$" && q[0] == p[0];
      if p[0] == '*' {
        forall k | 0 <= k <= |u| ensures Scan(q[1..], u[k..]) <==> Spells(p[1..], u[k..]) { ScanWhole(p[1..], u[k..]); }
      } else if u != "" {
        ScanWhole(p[1..], u[1..]);
      }
    }
  }

  lemma PrefixMatches(p: string, u: string)
    requires forall i | 0 <= i < |p| :: p[i] != '$'
    ensures Matches(p, u) <==> exists n | 0 <= n <= |u| :: Spells(p, u[..n])
  {
    PartsScan(p, u);
    ScanPrefix(p, u);
  }

  lemma WholeMatches(p: string, u: string)
    requires forall i | 0 <= i < |p| :: p[i] != '$'
    ensures Matches(p + "$", u) <==> Spells(p, u)
  {
    PartsScan(p + "$", u);
    ScanWhole(p, u);
  }

  /** Without a dollar before its end, a pattern matches exactly the URLs it should. */
  lemma MatcherMeansPattern(p: string, u: string)
    requires NoInnerDollar(p)
    ensures Matches(p, u) <==> Means(p, u)
  {
    if p != "" && p[|p| - 1] == '$' {
      var q := p[..|p| - 1];
      assert p == q + "$";
      WholeMatches(q, u);
    } else {
      PrefixMatches(p, u);
    }
  }

  /** The shortest text a pattern spells: its stars left empty. */
  function Shortest(p: string): string {
    if p == "" then "" else (if p[0] == '*' then "" else [p[0]]) + Shortest(p[1..])
  }

  lemma {:induction false} ShortestSpelled(p: string)
    ensures Spells(p, Shortest(p))
    ensures forall c :: c in Shortest(p) ==> c in p
    decreases |p|
  {
    if p != "" {
      ShortestSpelled(p[1..]);
      var w := Shortest(p);
      if p[0] == '*' {
        assert w[0..] == w;
      } else {
        assert w[1..] == Shortest(p[1..]);
      }
    }
  }

  lemma {:induction false} SpelledLetter(p: string, w: string, i: nat)
    requires Spells(p, w) && i < |p| && p[i] != '*'
    ensures p[i] in w
    decreases |p|
  {
    if i > 0 {
      if p[0] == '*' {
        var k :| 0 <= k <= |w| && Spells(p[1..], w[k..]);
        SpelledLetter(p[1..], w[k..], i - 1);
      } else {
        SpelledLetter(p[1..], w[1..], i - 1);
      }
    }
  }

  /** After a dollar only stars and dollars can still match. */
  lemma {:induction false} NothingAfterDollar(a: string, b: string, u: string, i: nat)
    requires i < |b| && b[i] != '*' && b[i] != '$'
    ensures !Scan(a + "$" + b, u)
    decreases |a|
  {
    var p := a + "$" + b;
    if a == "" {
      assert p[1..] == b;
      LetterNeedsText(b, i);
    } else {
      assert p[1..] == a[1..] + "$" + b && p[0] == a[0];
      if p[0] == '*' {
        forall k | 0 <= k <= |u| ensures !Scan(p[1..], u[k..]) { NothingAfterDollar(a[1..], b, u[k..], i); }
      } else if p[0] == '$' {
        NothingAfterDollar(a[1..], b, u, i);
      } else if u != "" {
        NothingAfterDollar(a[1..], b, u[1..], i);
      }
    }
  }

  lemma {:induction false} LetterNeedsText(b: string, i: nat)
    requires i < |b| && b[i] != '*' && b[i] != '$'
    ensures !Scan(b, "")
    decreases |b|
  {
    if i > 0 {
      LetterNeedsText(b[1..], i - 1);
      assert ""[0..] == "";
    }
  }

  /** A pattern whose dollar is followed by stars and dollars only matches its own beginning. */
  lemma {:induction false} BeginningMatches(a: string, b: string)
    requires forall i | 0 <= i < |a| :: a[i] != '$'
    requires forall i | 0 <= i < |b| :: b[i] == '*' || b[i] == '$'
    ensures Scan(a + "$" + b, Shortest(a))
    decreases |a|
  {
    var p, w := a + "$" + b, Shortest(a);
    if a == "" {
      assert p[1..] == b;
      EmptyMatches(b);
    } else {
      assert p[1..] == a[1..] + "$" + b && p[0] == a[0];
      BeginningMatches(a[1..], b);
      if a[0] == '*' {
        assert w[0..] == w;
      } else {
        assert w[1..] == Shortest(a[1..]);
      }
    }
  }

  lemma {:induction false} EmptyMatches(b: string)
    requires forall i | 0 <= i < |b| :: b[i] == '*' || b[i] == '$'
    ensures Scan(b, "")
    decreases |b|
  {
    if b != "" {
      EmptyMatches(b[1..]);
      assert ""[0..] == "";
    }
  }

  function IndexOf(s: string, c: char): (i: nat)
    ensures i <= |s| && (i < |s| ==> s[i] == c)
    ensures forall j | 0 <= j < i :: s[j] != c
  {
    if s == "" || s[0] == c then 0 else 1 + IndexOf(s[1..], c)
  }

  function Body(p: string): string {
    if p != "" && p[|p| - 1] == '$' then p[..|p| - 1] else p
  }

  lemma LetterAfterDollarDiffers(p: string, d: nat, i: nat)
    requires d < i < |p| && p[d] == '$' && p[i] != '*' && p[i] != '$'
    ensures !Matches(p, Shortest(Body(p))) && Means(p, Shortest(Body(p)))
  {
    var u := Shortest(Body(p));
    var a, b := p[..d], p[d + 1..];
    assert p == a + "$" + b && b[i - d - 1] == p[i];
    NothingAfterDollar(a, b, u, i - d - 1);
    PartsScan(p, u);
    ShortestSpelled(Body(p));
    assert u[..|u|] == u;
  }

  lemma StarsAfterDollarDiffer(p: string, d: nat)
    requires d < |p| - 1 && p[d] == '$' && (forall i | 0 <= i < d :: p[i] != '$')
    requires forall i | d < i < |p| :: p[i] == '*' || p[i] == '$'
    ensures Matches(p, Shortest(p[..d])) && !Means(p, Shortest(p[..d]))
  {
    var u := Shortest(p[..d]);
    var a, b := p[..d], p[d + 1..];
    assert p == a + "$" + b;
    BeginningMatches(a, b);
    PartsScan(p, u);
    ShortestSpelled(a);
    assert Body(p)[d] == '$' && '$' !in a && '$' !in u;
    forall n | 0 <= n <= |u| ensures !Spells(Body(p), u[..n]) {
      if Spells(Body(p), u[..n]) {
        SpelledLetter(Body(p), u[..n], d);
      }
    }
    assert u[..|u|] == u;
  }

  /** Such a pattern is read differently from the standard on some URL. */
  lemma InnerDollarDiffers(p: string) returns (u: string)
    requires !NoInnerDollar(p)
    ensures Matches(p, u) != Means(p, u)
  {
    var d := IndexOf(p, '$');
    if i :| d < i < |p| && p[i] != '*' && p[i] != '$' {
      u := Shortest(Body(p));
      LetterAfterDollarDiffers(p, d, i);
    } else {
      u := Shortest(p[..d]);
      StarsAfterDollarDiffer(p, d);
    }
  }

  /** The matcher is faithful on every URL exactly when the pattern has no dollar before its end. */
  lemma FaithfulIff(p: string)
    ensures (forall u :: Matches(p, u) <==> Means(p, u)) <==> NoInnerDollar(p)
  {
    if NoInnerDollar(p) {
      forall u ensures Matches(p, u) <==> Means(p, u) { MatcherMeansPattern(p, u); }
    } else {
      var u := InnerDollarDiffers(p);
    }
  }

  /** A pattern without a dollar that matches a URL matches everything below it. */
  lemma MatchExtends(p: string, u: string, v: string)
    requires '$' !in p && Matches(p, u)
    ensures Matches(p, u + v)
  {
    PartsScan(p, u);
    PartsScan(p, u + v);
    ScanPrefix(p, u);
    ScanPrefix(p, u + v);
    var n :| 0 <= n <= |u| && Spells(p, u[..n]);
    assert (u + v)[..n] == u[..n];
  }
}
