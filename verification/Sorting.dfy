/**
 A stable sort by a comparison function, as the engine's Array.prototype.sort, and what
 every user of it relies on.
 */
module Sorting {

  ghost predicate TotalPreorder<T(!new)>(le: (T, T) -> bool) {
    && (forall a, b :: le(a, b) || le(b, a))
    && (forall a, b, c :: le(a, b) && le(b, c) ==> le(a, c))
  }

  ghost predicate Sorted<T>(le: (T, T) -> bool, s: seq<T>) {
    forall i, j | 0 <= i < j < |s| :: le(s[i], s[j])
  }

  /** Puts x in front of the first element it may precede. */
  function Insert<T>(le: (T, T) -> bool, x: T, s: seq<T>): (r: seq<T>)
    ensures multiset(r) == multiset{x} + multiset(s)
    ensures |r| == |s| + 1
  {
    if s == [] then [x]
    else if le(x, s[0]) then [x] + s
    else
      assert multiset(s) == multiset{s[0]} + multiset(s[1..]) by { assert s == [s[0]] + s[1..]; }
      [s[0]] + Insert(le, x, s[1..])
  }

  /** The sorted sequence holds exactly the elements of s; equals keep their order. */
  function Sort<T>(le: (T, T) -> bool, s: seq<T>): (r: seq<T>)
    ensures multiset(r) == multiset(s)
    ensures |r| == |s|
  {
    if s == [] then []
    else
      assert s == [s[0]] + s[1..];
      Insert(le, s[0], Sort(le, s[1..]))
  }

  lemma {:induction false} InsertSorted<T(!new)>(le: (T, T) -> bool, x: T, s: seq<T>)
    requires TotalPreorder(le) && Sorted(le, s)
    ensures Sorted(le, Insert(le, x, s))
    decreases |s|
  {
    if s != [] && !le(x, s[0]) {
      var rest := Insert(le, x, s[1..]);
      InsertSorted(le, x, s[1..]);
      forall j | 0 <= j < |rest| ensures le(s[0], rest[j]) {
        assert rest[j] in multiset(rest);
        assert rest[j] == x || rest[j] in s[1..];
      }
    }
  }

  lemma {:induction false} SortSorted<T(!new)>(le: (T, T) -> bool, s: seq<T>)
    requires TotalPreorder(le)
    ensures Sorted(le, Sort(le, s))
    decreases |s|
  {
    if s != [] {
      SortSorted(le, s[1..]);
      InsertSorted(le, s[0], Sort(le, s[1..]));
    }
  }

  lemma SameMembers<T>(s: seq<T>, r: seq<T>)
    requires multiset(s) == multiset(r)
    ensures forall x :: x in s <==> x in r
  {
    forall x ensures x in s <==> x in r {
      assert x in multiset(s) <==> x in multiset(r);
    }
  }

  lemma HeadsAgree<T(!new)>(le: (T, T) -> bool, s: seq<T>, r: seq<T>)
    requires forall a, b | a in s && b in s :: le(a, b) && le(b, a) ==> a == b
    requires Sorted(le, s) && Sorted(le, r) && multiset(s) == multiset(r) && s != []
    ensures r != [] && s[0] == r[0]
  {
    SameMembers(s, r);
    assert s[0] in r && r[0] in s;
    var i :| 0 <= i < |s| && s[i] == r[0];
    var j :| 0 <= j < |r| && r[j] == s[0];
    assert i > 0 ==> le(s[0], s[i]);
    assert j > 0 ==> le(r[0], r[j]);
  }

  /** A strict total order leaves no choice: two sorted arrangements of the same elements are equal. */
  lemma {:induction false} SortedIsUnique<T(!new)>(le: (T, T) -> bool, s: seq<T>, r: seq<T>)
    requires forall a, b | a in s && b in s :: le(a, b) && le(b, a) ==> a == b
    requires Sorted(le, s) && Sorted(le, r) && multiset(s) == multiset(r)
    ensures s == r
    decreases |s|
  {
    if s == [] {
      assert |multiset(r)| == |r|;
    } else {
      HeadsAgree(le, s, r);
      TailMembers(s);
      TailMembers(r);
      SortedIsUnique(le, s[1..], r[1..]);
      assert s == [s[0]] + s[1..] && r == [r[0]] + r[1..];
    }
  }

  lemma TailMembers<T>(s: seq<T>)
    requires s != []
    ensures multiset(s[1..]) == multiset(s) - multiset{s[0]}
  {
    assert s == [s[0]] + s[1..];
  }

  // ----- The best few -----

  /** `best` and `rest` share out the elements, and nothing in `rest` belongs before one of `best`. */
  ghost predicate BestOf<T(!new)>(le: (T, T) -> bool, all: seq<T>, best: seq<T>, rest: seq<T>, most: nat) {
    && multiset(best) + multiset(rest) == multiset(all)
    && Sorted(le, best)
    && (forall a, b | a in best && b in rest :: le(a, b))
    && |best| <= most && (rest != [] ==> |best| == most)
  }

  lemma TakeBest<T(!new)>(le: (T, T) -> bool, all: seq<T>, most: nat)
    requires TotalPreorder(le)
    ensures var sorted := Sort(le, all);
            var cut := if |sorted| < most then |sorted| else most;
            BestOf(le, all, sorted[..cut], sorted[cut..], most)
  {
    var sorted := Sort(le, all);
    SortSorted(le, all);
    var cut := if |sorted| < most then |sorted| else most;
    var best, rest := sorted[..cut], sorted[cut..];
    assert sorted == best + rest;
    forall a, b | a in best && b in rest ensures le(a, b) {
      var i :| 0 <= i < |best| && best[i] == a;
      var j :| 0 <= j < |rest| && rest[j] == b;
      assert sorted[i] == a && sorted[cut + j] == b;
    }
  }

  lemma BestOfMembers<T(!new)>(le: (T, T) -> bool, all: seq<T>, best: seq<T>, rest: seq<T>, most: nat)
    requires BestOf(le, all, best, rest, most)
    ensures |best| == if |all| < most then |all| else most
    ensures forall x :: x in all <==> x in best || x in rest
  {
    assert |multiset(best) + multiset(rest)| == |best| + |rest| == |all|;
    forall x ensures x in all <==> x in best || x in rest {
      assert x in multiset(all) <==> x in multiset(best) || x in multiset(rest);
    }
  }
}
