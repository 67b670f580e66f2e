/**
 * `recommend_recipes`: keeps the processed recipes within the calorie budget, scores
 * each against the requested ingredients, orders them by descending score with a
 * stable sort and returns the first `num_recommendations`.
 *
 * The score is a parameter: `score(str_ingredients)` stands for
 * `calculate_similarity(ingredients_list, [row['str_ingredients']])[0]`, whose value
 * depends only on the query (fixed for one call) and the row's `str_ingredients`.
 */
module Recommender {
  import opened Ingredients
  import opened StableSort

  /** One row of the answer: `(name, energy, ingredients, similarity)`, the columns
      `nome`, `calorias`, `ingredientes` and `similaridade`. */
  datatype Match = Match(name: string, energy: nat, ingredients: Dict, similarity: real)

  /** The sort key `lambda x: x[3]`. */
  function Similarity(m: Match): real {
    m.similarity
  }

  /** The tuple appended for a recipe that passes the filter. */
  function MatchOf(r: Record, score: string -> real): Match {
    Match(r.name, r.energy, r.ingredients, score(r.strIngredients))
  }

  /** `row['energy'] <= max_kcals`; the budget may be an integer or a float. */
  predicate WithinBudget(r: Record, maxKcals: real) {
    r.energy as real <= maxKcals
  }

  /** The list `similarities` after the loop: one tuple per recipe within the budget,
      in corpus order. */
  function Candidates(recipes: seq<Record>, score: string -> real, maxKcals: real): (c: seq<Match>)
    ensures |c| <= |recipes|
  {
    if recipes == [] then []
    else
      var last := recipes[|recipes| - 1];
      Candidates(recipes[..|recipes| - 1], score, maxKcals)
        + (if WithinBudget(last, maxKcals) then [MatchOf(last, score)] else [])
  }

  function Min(a: nat, b: nat): (m: nat)
    ensures m <= a && m <= b && (m == a || m == b)
  {
    if a <= b then a else b
  }

  /** The answer: the candidates sorted by descending similarity, cut to the first n;
      a slice bound beyond the end keeps the whole list. */
  function Recommendation(recipes: seq<Record>, score: string -> real, maxKcals: real, n: nat): seq<Match> {
    var sorted := SortDesc(Candidates(recipes, score, maxKcals), Similarity);
    sorted[..Min(n, |sorted|)]
  }

  /** `recommend_recipes(ingredients_list, max_kcals, num_recommendations)`. */
  method RecommendRecipes(recipes: seq<Record>, score: string -> real, maxKcals: real, numRecommendations: nat)
    returns (result: seq<Match>)
    ensures result == Recommendation(recipes, score, maxKcals, numRecommendations)
    ensures forall i :: 0 <= i < |result| ==> result[i].energy as real <= maxKcals
    ensures forall i, j :: 0 <= i < j < |result| ==> result[i].similarity >= result[j].similarity
  {
    var similarities: seq<Match> := [];
    var idx := 0;
    while idx < |recipes|
      invariant 0 <= idx <= |recipes|
      invariant similarities == Candidates(recipes[..idx], score, maxKcals)
    {
      var row := recipes[idx];
      if row.energy as real <= maxKcals {
        var similarity := score(row.strIngredients);
        similarities := similarities + [Match(row.name, row.energy, row.ingredients, similarity)];
      }
      assert recipes[..idx + 1][..idx] == recipes[..idx];
      idx := idx + 1;
    }
    assert recipes[..idx] == recipes;
    similarities := SortDesc(similarities, Similarity);
    result := similarities[..Min(numRecommendations, |similarities|)];
    RecommendationWithinBudget(recipes, score, maxKcals, numRecommendations);
    RecommendationOrdered(recipes, score, maxKcals, numRecommendations);
  }

  // ---------------------------------------------------------------- the filter

  /** The indices of the recipes within the budget. */
  ghost function Passing(recipes: seq<Record>, maxKcals: real): set<nat> {
    set i: nat | i < |recipes| && WithinBudget(recipes[i], maxKcals)
  }

  /** Filtering distributes over concatenation of corpora, so the candidates stand in
      corpus order. */
  lemma {:induction false} CandidatesAppend(a: seq<Record>, b: seq<Record>, score: string -> real, maxKcals: real)
    ensures Candidates(a + b, score, maxKcals) == Candidates(a, score, maxKcals) + Candidates(b, score, maxKcals)
    decreases |b|
  {
    if b == [] {
      assert a + b == a;
    } else {
      var front := b[..|b| - 1];
      assert (a + b)[..|a + b| - 1] == a + front;
      assert (a + b)[|a + b| - 1] == b[|b| - 1];
      CandidatesAppend(a, front, score, maxKcals);
    }
  }

  /** There are as many candidates as recipes within the budget. */
  lemma {:induction false} CandidatesCount(recipes: seq<Record>, score: string -> real, maxKcals: real)
    ensures |Candidates(recipes, score, maxKcals)| == |Passing(recipes, maxKcals)|
  {
    if recipes != [] {
      var n := |recipes| - 1;
      var front := recipes[..n];
      CandidatesCount(front, score, maxKcals);
      var pf := Passing(front, maxKcals);
      var p := Passing(recipes, maxKcals);
      assert forall i :: 0 <= i < n ==> front[i] == recipes[i];
      assert n !in pf;
      if WithinBudget(recipes[n], maxKcals) {
        assert p == pf + {n};
      } else {
        assert p == pf;
      }
    }
  }

  /** A candidate is exactly the tuple of a recipe within the budget. */
  lemma {:induction false} CandidatesMembers(recipes: seq<Record>, score: string -> real, maxKcals: real)
    ensures forall m :: m in Candidates(recipes, score, maxKcals) ==>
      exists i :: 0 <= i < |recipes| && WithinBudget(recipes[i], maxKcals) && m == MatchOf(recipes[i], score)
    ensures forall i :: 0 <= i < |recipes| && WithinBudget(recipes[i], maxKcals) ==>
      MatchOf(recipes[i], score) in Candidates(recipes, score, maxKcals)
  {
    if recipes != [] {
      var n := |recipes| - 1;
      var front := recipes[..n];
      var last := recipes[n];
      CandidatesMembers(front, score, maxKcals);
      var c := Candidates(recipes, score, maxKcals);
      var cf := Candidates(front, score, maxKcals);
      var tail := if WithinBudget(last, maxKcals) then [MatchOf(last, score)] else [];
      assert c == cf + tail;
      forall m | m in c
        ensures exists i :: 0 <= i < |recipes| && WithinBudget(recipes[i], maxKcals) && m == MatchOf(recipes[i], score)
      {
        if m in cf {
          var i :| 0 <= i < |front| && WithinBudget(front[i], maxKcals) && m == MatchOf(front[i], score);
          assert recipes[i] == front[i];
        } else {
          assert m in tail;
          assert WithinBudget(recipes[n], maxKcals) && m == MatchOf(recipes[n], score);
        }
      }
      forall i | 0 <= i < |recipes| && WithinBudget(recipes[i], maxKcals)
        ensures MatchOf(recipes[i], score) in c
      {
        if i < n {
          assert front[i] == recipes[i];
          assert MatchOf(front[i], score) in cf;
        } else {
          assert MatchOf(recipes[i], score) in tail;
        }
      }
    }
  }

  // ---------------------------------------------------------------- the answer

  lemma SortedCandidates(recipes: seq<Record>, score: string -> real, maxKcals: real)
    ensures multiset(SortDesc(Candidates(recipes, score, maxKcals), Similarity)) ==
      multiset(Candidates(recipes, score, maxKcals))
    ensures SortedDesc(SortDesc(Candidates(recipes, score, maxKcals), Similarity), Similarity)
  {
    SortDescPerm(Candidates(recipes, score, maxKcals), Similarity);
    SortDescSorted(Candidates(recipes, score, maxKcals), Similarity);
  }

  /** The answer holds candidates only, each at most as often as it is a candidate. */
  lemma RecommendationSubset(recipes: seq<Record>, score: string -> real, maxKcals: real, n: nat)
    ensures multiset(Recommendation(recipes, score, maxKcals, n)) <= multiset(Candidates(recipes, score, maxKcals))
  {
    var sorted := SortDesc(Candidates(recipes, score, maxKcals), Similarity);
    var k := Min(n, |sorted|);
    SortedCandidates(recipes, score, maxKcals);
    assert sorted == sorted[..k] + sorted[k..];
  }

  /** Every answer row is the tuple of some recipe of the corpus within the budget, so
      its energy is within the budget. */
  lemma RecommendationWithinBudget(recipes: seq<Record>, score: string -> real, maxKcals: real, n: nat)
    ensures forall m :: m in Recommendation(recipes, score, maxKcals, n) ==>
      m.energy as real <= maxKcals &&
      exists i :: 0 <= i < |recipes| && WithinBudget(recipes[i], maxKcals) && m == MatchOf(recipes[i], score)
  {
    RecommendationSubset(recipes, score, maxKcals, n);
    CandidatesMembers(recipes, score, maxKcals);
    var r := Recommendation(recipes, score, maxKcals, n);
    forall m | m in r
      ensures m.energy as real <= maxKcals &&
        exists i :: 0 <= i < |recipes| && WithinBudget(recipes[i], maxKcals) && m == MatchOf(recipes[i], score)
    {
      assert m in multiset(r);
      assert m in Candidates(recipes, score, maxKcals);
    }
  }

  /** The answer has min(n, number of recipes within the budget) rows. */
  lemma RecommendationLength(recipes: seq<Record>, score: string -> real, maxKcals: real, n: nat)
    ensures |Recommendation(recipes, score, maxKcals, n)| == Min(n, |Passing(recipes, maxKcals)|)
  {
    CandidatesCount(recipes, score, maxKcals);
  }

  /** The similarities along the answer never increase. */
  lemma RecommendationOrdered(recipes: seq<Record>, score: string -> real, maxKcals: real, n: nat)
    ensures SortedDesc(Recommendation(recipes, score, maxKcals, n), Similarity)
  {
    SortedCandidates(recipes, score, maxKcals);
  }

  /** Top n: a candidate left out of the answer scores no higher than any row in it. */
  lemma RecommendationTopK(recipes: seq<Record>, score: string -> real, maxKcals: real, n: nat)
    ensures forall m, m' ::
      m in Recommendation(recipes, score, maxKcals, n) &&
      m' in Candidates(recipes, score, maxKcals) && m' !in Recommendation(recipes, score, maxKcals, n) ==>
      m.similarity >= m'.similarity
  {
    var sorted := SortDesc(Candidates(recipes, score, maxKcals), Similarity);
    var k := Min(n, |sorted|);
    var r := sorted[..k];
    SortedCandidates(recipes, score, maxKcals);
    forall m, m' | m in r && m' in Candidates(recipes, score, maxKcals) && m' !in r
      ensures m.similarity >= m'.similarity
    {
      var p :| 0 <= p < k && r[p] == m;
      assert m' in multiset(sorted);
      var q :| 0 <= q < |sorted| && sorted[q] == m';
      assert forall t :: 0 <= t < k ==> r[t] == sorted[t];
      assert sorted[p] == m;
      assert Similarity(sorted[p]) >= Similarity(sorted[q]);
    }
  }

  /** Ties keep corpus order: for every score, the answer rows with that score are the
      first ones, in candidate order, of the candidates with that score. */
  lemma RecommendationTies(recipes: seq<Record>, score: string -> real, maxKcals: real, n: nat)
    ensures forall v ::
      WithKey(Recommendation(recipes, score, maxKcals, n), Similarity, v) <= WithKey(Candidates(recipes, score, maxKcals), Similarity, v)
  {
    var c := Candidates(recipes, score, maxKcals);
    var sorted := SortDesc(c, Similarity);
    var k := Min(n, |sorted|);
    SortDescStable(c, Similarity);
    forall v ensures WithKey(sorted[..k], Similarity, v) <= WithKey(c, Similarity, v) {
      assert sorted == sorted[..k] + sorted[k..];
      WithKeyAppend(sorted[..k], sorted[k..], Similarity, v);
    }
  }
}
