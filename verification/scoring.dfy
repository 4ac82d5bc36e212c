/**
  The tie-break both comparators of the service use: seniority first, then
  the current-room priority, both descending, with exact ties broken by a
  shuffle before a stable sort. After such a sort the first element is one of
  the elements with the best score, and every one of them can come first; the
  model picks among them with a draw from the random stream.
 */
module Scoring {

  /** The sort key: a seniority score and a room-priority score. */
  datatype Score = Score(seniority: int, priority: int)

  /** `a` sorts strictly ahead of `b` under the descending comparator. */
  predicate Beats(a: Score, b: Score) {
    a.seniority > b.seniority || (a.seniority == b.seniority && a.priority > b.priority)
  }

  /** Position `k` holds a score that nothing in `xs` beats. */
  predicate IsBest(xs: seq<Score>, k: int) {
    0 <= k < |xs| && forall j :: 0 <= j < |xs| ==> !Beats(xs[j], xs[k])
  }

  /** The best score of a non-empty list. */
  function Best(xs: seq<Score>): (b: Score)
    requires |xs| > 0
    ensures b in xs
    ensures forall j :: 0 <= j < |xs| ==> !Beats(xs[j], b)
  {
    if |xs| == 1 then xs[0]
    else
      var b := Best(xs[1..]);
      assert forall j :: 1 <= j < |xs| ==> xs[j] == xs[1..][j - 1];
      if Beats(xs[0], b) then xs[0] else b
  }

  /** Two scores neither of which beats the other are the same score. */
  lemma NoBeatsMeansEqual(a: Score, b: Score)
    requires !Beats(a, b) && !Beats(b, a)
    ensures a == b
  {
  }

  /** The positions of `xs` below `n` holding the score `b`, in increasing order. */
  function Ties(xs: seq<Score>, b: Score, n: nat): (t: seq<nat>)
    requires n <= |xs|
    ensures forall k: int :: k in t <==> 0 <= k < n && xs[k] == b
    ensures forall p :: 0 <= p < |t| ==> t[p] < n
  {
    if n == 0 then []
    else
      var t := Ties(xs, b, n - 1);
      if xs[n - 1] == b then t + [n - 1] else t
  }

  lemma BestIsTied(xs: seq<Score>)
    requires |xs| > 0
    ensures |Ties(xs, Best(xs), |xs|)| > 0
  {
    var w :| 0 <= w < |xs| && xs[w] == Best(xs);
    assert w in Ties(xs, Best(xs), |xs|);
  }

  /** The element of a non-empty list selected by `roll`. */
  function Nth(t: seq<nat>, roll: nat): nat
    requires |t| > 0
  {
    t[roll % |t|]
  }

  /** A roll below the length selects that very position: `Nth(t, p) == t[p]`. */
  lemma NthSmall(t: seq<nat>, p: nat)
    requires p < |t|
    ensures Nth(t, p) == t[p]
  {
  }

  /**
    The winner of a shuffle followed by a stable sort: one of the positions
    holding the best score, selected by `roll`.
   */
  function PickBest(xs: seq<Score>, roll: nat): (k: nat)
    requires |xs| > 0
    ensures IsBest(xs, k)
  {
    var t := Ties(xs, Best(xs), |xs|);
    BestIsTied(xs);
    assert Nth(t, roll) in t;
    Nth(t, roll)
  }

  /** Any position holding a best score is the winner for some draw. */
  lemma PickBestComplete(xs: seq<Score>, k: nat)
    requires IsBest(xs, k)
    ensures exists roll: nat :: PickBest(xs, roll) == k
  {
    var b := Best(xs);
    NoBeatsMeansEqual(xs[k], b);
    var t := Ties(xs, b, |xs|);
    assert k in t;
    var p :| 0 <= p < |t| && t[p] == k;
    NthSmall(t, p);
    assert PickBest(xs, p) == k;
  }
}
