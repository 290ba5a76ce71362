/** Choosing which of the reviews that Google returned are shown. */
module ReviewSelection {
  import opened Common
  import opened Strings
  import Sorting

  datatype RawReview = RawReview(author: Option<string>, time: Option<int>, rating: Option<real>, text: Option<string>,
                                 authorUrl: Option<string>)
  datatype Review = Review(authorName: string, rating: real, text: string, time: int, authorUrl: Option<string>)

  const MIN_RATING := 4.0
  const MIN_LENGTH := 60
  const MAX_SHOWN := 6

  /** Two raw reviews with one key are copies of one review. */
  function Key(r: RawReview): (string, Option<int>) {
    (r.author.GetOr(""), r.time)
  }

  predicate Eligible(r: RawReview) {
    r.rating.GetOr(0.0) >= MIN_RATING && |Trim(r.text.GetOr(""))| >= MIN_LENGTH
  }

  function Shown(r: RawReview): Review {
    var name := Trim(r.author.GetOr(""));
    Review(if name == "" then "Google user" else name, r.rating.GetOr(0.0), Trim(r.text.GetOr("")), r.time.GetOr(0),
           r.authorUrl)
  }

  /** Higher rated first, then longer, then newer. */
  predicate Before(a: Review, b: Review) {
    a.rating > b.rating
    || (a.rating == b.rating && (|a.text| > |b.text| || (|a.text| == |b.text| && a.time >= b.time)))
  }

  predicate FirstOccurrence(raw: seq<RawReview>, i: nat) {
    i < |raw| && forall j | 0 <= j < i :: Key(raw[j]) != Key(raw[i])
  }

  /** The reviews that compete: the first copy of each, if that copy is good enough. */
  function Candidates(raw: seq<RawReview>): (indices: seq<nat>)
    ensures forall k | 0 <= k < |indices| :: indices[k] < |raw|
  {
    if raw == [] then []
    else
      var last := |raw| - 1;
      Candidates(raw[..last]) + if FirstOccurrence(raw, last) && Eligible(raw[last]) then [last] else []
  }

  lemma {:induction false} CandidatesAre(raw: seq<RawReview>, i: nat)
    ensures i in Candidates(raw) <==> FirstOccurrence(raw, i) && Eligible(raw[i])
  {
    if raw != [] {
      var before := raw[..|raw| - 1];
      CandidatesAre(before, i);
      if i < |before| {
        assert FirstOccurrence(before, i) <==> FirstOccurrence(raw, i);
      }
    }
  }

  /** Each competes once. */
  lemma {:induction false} CandidatesRise(raw: seq<RawReview>)
    ensures forall a, b | 0 <= a < b < |Candidates(raw)| :: Candidates(raw)[a] < Candidates(raw)[b]
  {
    if raw != [] {
      CandidatesRise(raw[..|raw| - 1]);
    }
  }

  function ShownAt(raw: seq<RawReview>, indices: seq<nat>): seq<Review>
    requires forall k | 0 <= k < |indices| :: indices[k] < |raw|
  {
    seq(|indices|, k requires 0 <= k < |indices| => Shown(raw[indices[k]]))
  }

  /** The selection as the shown form of some competing reviews. */
  ghost predicate Selects(raw: seq<RawReview>, shown: seq<Review>) {
    exists rest: seq<Review> :: Sorting.BestOf(Before, ShownAt(raw, Candidates(raw)), shown, rest, MAX_SHOWN)
  }

  lemma BeforeIsTotal()
    ensures Sorting.TotalPreorder(Before)
  {}

  method SelectBestReviews(raw: seq<RawReview>) returns (shown: seq<Review>)
    ensures Selects(raw, shown)
  {
    var seen: set<(string, Option<int>)> := {};
    var unique: seq<Review> := [];
    for i := 0 to |raw|
      invariant seen == set j | 0 <= j < i :: Key(raw[j])
      invariant unique == ShownAt(raw[..i], Candidates(raw[..i]))
    {
      MoreCandidates(raw, i);
      var key := Key(raw[i]);
      assert key in seen <==> !FirstOccurrence(raw, i);
      if key !in seen {
        seen := seen + {key};
        if Eligible(raw[i]) {
          unique := unique + [Shown(raw[i])];
        }
      }
    }
    assert raw[..|raw|] == raw;
    var sorted := Sorting.Sort(Before, unique);
    shown := sorted[..if |sorted| < MAX_SHOWN then |sorted| else MAX_SHOWN];
    BeforeIsTotal();
    Sorting.TakeBest(Before, unique, MAX_SHOWN);
  }

  lemma MoreCandidates(raw: seq<RawReview>, i: nat)
    requires i < |raw|
    ensures ShownAt(raw[..i + 1], Candidates(raw[..i + 1]))
            == ShownAt(raw[..i], Candidates(raw[..i]))
               + if FirstOccurrence(raw, i) && Eligible(raw[i]) then [Shown(raw[i])] else []
  {
    var prefix := raw[..i + 1];
    assert prefix[..i] == raw[..i] && prefix[i] == raw[i];
    assert FirstOccurrence(prefix, i) <==> FirstOccurrence(raw, i);
  }

  /** Nothing about b speaks for showing it above a. */
  ghost predicate NotOutdone(a: Review, b: Review) {
    && a.rating >= b.rating
    && (a.rating == b.rating ==> |a.text| >= |b.text|)
    && (a.rating == b.rating && |a.text| == |b.text| ==> a.time >= b.time)
  }

  /** A raw review that may be shown as r: well rated, wordy, and the first of its author and time. */
  ghost predicate MayShow(raw: seq<RawReview>, i: nat, r: Review) {
    && i < |raw| && r.rating >= 4.0 && |r.text| >= 60
    && raw[i].rating == Some(r.rating) && Trim(raw[i].text.GetOr("")) == r.text
    && r.time == raw[i].time.GetOr(0) && r.authorUrl == raw[i].authorUrl
    && r.authorName == (if Trim(raw[i].author.GetOr("")) == "" then "Google user" else Trim(raw[i].author.GetOr("")))
    && forall j | 0 <= j < i :: raw[j].author.GetOr("") != raw[i].author.GetOr("") || raw[j].time != raw[i].time
  }

  lemma MayShowIff(raw: seq<RawReview>, i: nat, r: Review)
    ensures MayShow(raw, i, r) <==> i in Candidates(raw) && r == Shown(raw[i])
  {
    CandidatesAre(raw, i);
  }

  /**
   What a visitor sees: at most six reviews, the higher rated first, then the longer, then the newer,
   each the first copy of a good enough review; and one that may be shown and is missing outdoes none
   of them. As many are shown as there are first copies good enough, up to six.
   */
  lemma ShownAreTheBest(raw: seq<RawReview>, shown: seq<Review>)
    requires Selects(raw, shown)
    ensures forall i, j | 0 <= i < j < |shown| :: NotOutdone(shown[i], shown[j])
    ensures forall r | r in shown :: exists i: nat :: MayShow(raw, i, r)
    ensures forall i: nat, r | MayShow(raw, i, r) && r !in shown ::
              |shown| == 6 && forall best | best in shown :: NotOutdone(best, r)
    ensures |shown| == (if |Candidates(raw)| < 6 then |Candidates(raw)| else 6)
    ensures forall a, b | 0 <= a < b < |Candidates(raw)| :: Candidates(raw)[a] < Candidates(raw)[b]
  {
    CandidatesRise(raw);
    var all := ShownAt(raw, Candidates(raw));
    var rest :| Sorting.BestOf(Before, all, shown, rest, MAX_SHOWN);
    Sorting.BestOfMembers(Before, all, shown, rest, MAX_SHOWN);
    forall r | r in shown ensures exists i: nat :: MayShow(raw, i, r) {
      var i := CompetitorAt(raw, r);
    }
    forall i: nat, r | MayShow(raw, i, r) && r !in shown
      ensures |shown| == 6 && forall best | best in shown :: NotOutdone(best, r)
    {
      Competes(raw, i, r);
      forall best | best in shown ensures NotOutdone(best, r) { assert Before(best, r); }
    }
  }

  lemma CompetitorAt(raw: seq<RawReview>, r: Review) returns (i: nat)
    requires r in ShownAt(raw, Candidates(raw))
    ensures MayShow(raw, i, r)
  {
    var k :| 0 <= k < |Candidates(raw)| && Shown(raw[Candidates(raw)[k]]) == r;
    i := Candidates(raw)[k];
    MayShowIff(raw, i, r);
  }

  lemma Competes(raw: seq<RawReview>, i: nat, r: Review)
    requires MayShow(raw, i, r)
    ensures r in ShownAt(raw, Candidates(raw))
  {
    MayShowIff(raw, i, r);
    var k :| 0 <= k < |Candidates(raw)| && Candidates(raw)[k] == i;
    assert ShownAt(raw, Candidates(raw))[k] == r;
  }
}
