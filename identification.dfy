/** Identification of the faces found in a query image: each query embedding
    is compared with every stored row, the best-scoring row wins, and a match
    below the confidence threshold is reported as "unknown". The similarity
    measure (a dot product of normalised embeddings) is a parameter. */
module Identification {
  import opened Embeddings

  /** The name reported when nothing matches well enough. */
  const Unknown: string := "unknown"

  /** The confidence threshold: a best score below it is not a match. */
  const Threshold: real := 0.6

  /** The score the scan starts from, below every similarity a match can have. */
  const NoScore: real := -1.0

  /** One entry of the results list: the person decided on and the best similarity seen. */
  datatype Match = Match(person: string, similarity: real)

  /** The similarity of `query` to each stored row, in table order. */
  function Scores<V>(stored: seq<FaceEmbedding<V>>, query: V, sim: (V, V) -> real): seq<real> {
    seq(|stored|, i requires 0 <= i < |stored| => sim(query, stored[i].embedding))
  }

  /** The largest of the scores and of the starting score -1. */
  function MaxScore(s: seq<real>): real {
    if s == [] then NoScore
    else
      var m := MaxScore(s[..|s| - 1]);
      if s[|s| - 1] > m then s[|s| - 1] else m
  }

  /** The position of the first occurrence of `x` in `s`, or |s| when it does not occur. */
  function FirstIndex(s: seq<real>, x: real): (k: nat)
    ensures k <= |s|
    ensures k < |s| ==> s[k] == x
    ensures forall j | 0 <= j < k :: s[j] != x
  {
    if s == [] || s[0] == x then 0 else 1 + FirstIndex(s[1..], x)
  }

  /** MaxScore is the maximum of -1 and every score, and it is either -1 or one of the scores. */
  lemma {:induction false} MaxScoreIsMaximum(s: seq<real>)
    ensures NoScore <= MaxScore(s)
    ensures forall i | 0 <= i < |s| :: s[i] <= MaxScore(s)
    ensures MaxScore(s) == NoScore || MaxScore(s) in s
  {
    if s != [] {
      var init := s[..|s| - 1];
      MaxScoreIsMaximum(init);
      assert forall i | 0 <= i < |s| - 1 :: s[i] == init[i];
      assert forall x | x in init :: x in s;
    }
  }

  /** What the scan's best score and first best position mean, stated on the
      similarities themselves. */
  lemma BestScoreFacts<V>(stored: seq<FaceEmbedding<V>>, query: V, sim: (V, V) -> real)
    ensures var s := Scores(stored, query, sim);
      var best := MaxScore(s);
      && NoScore <= best
      && (forall i | 0 <= i < |stored| :: sim(query, stored[i].embedding) <= best)
      && (best == NoScore || exists i | 0 <= i < |stored| :: sim(query, stored[i].embedding) == best)
      && (NoScore < best ==>
            var k := FirstIndex(s, best);
            && k < |stored|
            && sim(query, stored[k].embedding) == best
            && forall j | 0 <= j < k :: sim(query, stored[j].embedding) < best)
  {
    var s := Scores(stored, query, sim);
    var best := MaxScore(s);
    MaxScoreIsMaximum(s);
    assert forall i | 0 <= i < |stored| :: s[i] == sim(query, stored[i].embedding);
    if best != NoScore {
      var i :| 0 <= i < |s| && s[i] == best;
      var k := FirstIndex(s, best);
      assert forall j | 0 <= j < k :: s[j] < best;
    }
  }

  /** The decision for one query. The reported similarity is the best of -1
      and all scores; below the threshold the name is "unknown"; at or above
      it, the earliest row reaching the best score names the person. */
  function Decide<V>(stored: seq<FaceEmbedding<V>>, query: V, sim: (V, V) -> real): (m: Match)
    ensures NoScore <= m.similarity
    ensures forall i | 0 <= i < |stored| :: sim(query, stored[i].embedding) <= m.similarity
    ensures m.similarity == NoScore || exists i | 0 <= i < |stored| :: sim(query, stored[i].embedding) == m.similarity
    ensures m.similarity < Threshold ==> m.person == Unknown
    ensures Threshold <= m.similarity ==>
      exists k | 0 <= k < |stored| ::
        && sim(query, stored[k].embedding) == m.similarity
        && stored[k].person == m.person
        && forall j | 0 <= j < k :: sim(query, stored[j].embedding) < m.similarity
  {
    var s := Scores(stored, query, sim);
    var best := MaxScore(s);
    BestScoreFacts(stored, query, sim);
    if best < Threshold then Match(Unknown, best)
    else Match(stored[FirstIndex(s, best)].person, best)
  }

  /** With no stored rows the decision is exactly ("unknown", -1). */
  lemma DecideWithEmptyTable<V>(query: V, sim: (V, V) -> real)
    ensures Decide([], query, sim) == Match(Unknown, NoScore)
  {
  }

  /** With a single stored row the decision is that row's person exactly when
      its score reaches the threshold: a score of exactly 0.6 keeps the
      person, anything below reports "unknown" with the same score. */
  lemma SingleRowDecision<V>(person: string, stored: V, query: V, sim: (V, V) -> real)
    requires NoScore <= sim(query, stored)
    ensures var score := sim(query, stored);
      Decide([FaceEmbedding(person, stored)], query, sim)
        == if score < Threshold then Match(Unknown, score) else Match(person, score)
  {
    var s := Scores([FaceEmbedding(person, stored)], query, sim);
    var score := sim(query, stored);
    assert s == [score];
    assert s[..0] == [];
    assert MaxScore(s) == score;
    assert FirstIndex(s, score) == 0;
  }

  /** The scan for one query embedding (the inner loop of identify_image):
      keep the first row with the highest score, then apply the threshold. */
  method BestMatch<V>(stored: seq<FaceEmbedding<V>>, query: V, sim: (V, V) -> real) returns (m: Match)
    ensures m == Decide(stored, query, sim)
  {
    ghost var s := Scores(stored, query, sim);
    var bestName, bestScore := Unknown, NoScore;
    for i := 0 to |stored|
      invariant bestScore == MaxScore(s[..i])
      invariant NoScore < bestScore ==>
        FirstIndex(s[..i], bestScore) < i && bestName == stored[FirstIndex(s[..i], bestScore)].person
    {
      var score := sim(query, stored[i].embedding);
      assert s[..i + 1][..i] == s[..i];
      MaxScoreIsMaximum(s[..i]);
      if score > bestScore {
        FirstIndexAfterNewMaximum(s[..i + 1], score);
        bestScore, bestName := score, stored[i].person;
      } else if NoScore < bestScore {
        FirstIndexOfPrefix(s[..i + 1], i, bestScore);
      }
    }
    assert s[..|stored|] == s;
    if bestScore < Threshold {
      bestName := Unknown;
    }
    m := Match(bestName, bestScore);
  }

  /** A score that beats everything before it occurs first at the end. */
  lemma FirstIndexAfterNewMaximum(s: seq<real>, x: real)
    requires s != [] && s[|s| - 1] == x
    requires forall j | 0 <= j < |s| - 1 :: s[j] < x
    ensures FirstIndex(s, x) == |s| - 1
  {
  }

  /** A value that occurs in a prefix occurs first where it does in that prefix. */
  lemma {:induction false} FirstIndexOfPrefix(s: seq<real>, n: nat, x: real)
    requires n <= |s|
    requires FirstIndex(s[..n], x) < n
    ensures FirstIndex(s, x) == FirstIndex(s[..n], x)
  {
    if s[0] != x {
      assert s[..n][1..] == s[1..][..n - 1];
      FirstIndexOfPrefix(s[1..], n - 1, x);
    }
  }

  /** identify_image's loop over the query embeddings: one decision per query,
      in query order, each depending on its own query only. */
  method Identify<V>(stored: seq<FaceEmbedding<V>>, queries: seq<V>, sim: (V, V) -> real)
    returns (results: seq<Match>)
    ensures |results| == |queries|
    ensures forall i | 0 <= i < |queries| :: results[i] == Decide(stored, queries[i], sim)
  {
    results := [];
    for q := 0 to |queries|
      invariant |results| == q
      invariant forall i | 0 <= i < q :: results[i] == Decide(stored, queries[i], sim)
    {
      var m := BestMatch(stored, queries[q], sim);
      results := results + [m];
    }
  }
}
