/** The scoring and ordering part of the `/rank` route of the embedding service
    (backend/app/main.py): cosine similarity of the job-description vector with every stored resume
    embedding, a stable sort by score (highest first), and the copy into the response list. The
    database reads and writes around it are left out; the embeddings arrive as parameters. */
module EmbeddingRanking {
  import opened Wrappers
  import opened Vectors
  import opened StableSort

  /** The 1e-10 added to the denominator so that a zero vector never causes a division by zero. */
  const EPSILON: real := 0.0000000001

  /** A row of the `resume_embeddings` table. */
  datatype EmbeddingRow = EmbeddingRow(resumeId: string, embedding: seq<real>)

  /** The `(resume_id, sim)` pair appended to `results`. */
  datatype Scored = Scored(resumeId: string, score: real)

  /** An entry of the returned `results` list (the resume metadata looked up by id is left out). */
  datatype RankedResume = RankedResume(resumeId: string, score: real)

  /** `np.dot` raises when the stored embedding and the query vector differ in length. */
  datatype RankError = DimensionMismatch

  function ScoreOf(s: Scored): real
  {
    s.score
  }

  /** `np.linalg.norm(q) * np.linalg.norm(emb) + 1e-10`: never zero, so the division always succeeds. */
  function Denominator(q: seq<real>, e: seq<real>, norm: seq<real> -> real): (d: real)
    requires IsEuclideanNorm(norm)
    ensures d >= EPSILON > 0.0
  {
    NormZeroIff(norm, q);
    NormZeroIff(norm, e);
    ProdNonNegative(norm(q), norm(e));
    norm(q) * norm(e) + EPSILON
  }

  lemma ScaleBeyondUnit(r: real, D: real)
    requires D > 0.0
    ensures r >= 1.0 ==> Prod(r, D) >= D
    ensures r <= -1.0 ==> Prod(r, D) <= -D
  {
    if r >= 1.0 {
      ProdNonNegative(r - 1.0, D);
      assert Prod(r - 1.0, D) == Prod(r, D) - D;
    }
    if r <= -1.0 {
      ProdNonNegative(-1.0 - r, D);
      assert Prod(-1.0 - r, D) == -D - Prod(r, D);
    }
  }

  lemma QuotientInOpenUnit(d: real, D: real)
    requires D > 0.0 && -D < d < D
    ensures -1.0 < d / D < 1.0
  {
    var r := d / D;
    assert Prod(r, D) == d;
    ScaleBeyondUnit(r, D);
  }

  /** The cosine similarity of the query and a resume embedding, as computed by the route. It lies
      strictly between -1 and 1, and it is exactly 0 when either vector is all zeros. */
  function Cosine(q: seq<real>, e: seq<real>, norm: seq<real> -> real): (r: real)
    requires |q| == |e| && IsEuclideanNorm(norm)
    ensures IsZero(q) || IsZero(e) ==> r == 0.0
    ensures -1.0 < r < 1.0
  {
    var d, D := Dot(q, e), Denominator(q, e, norm);
    DotBound(norm, q, e);
    assert IsZero(q) || IsZero(e) ==> d == 0.0 by {
      if IsZero(q) || IsZero(e) { DotZero(q, e); }
    }
    QuotientInOpenUnit(d, D);
    d / D
  }

  /** Cosine similarity of a non-zero vector with itself falls short of 1 by exactly
      EPSILON / (|v|^2 + EPSILON): it is positive and as close to the maximum as the epsilon allows. */
  lemma SelfSimilarity(v: seq<real>, norm: seq<real> -> real)
    requires IsEuclideanNorm(norm) && !IsZero(v)
    ensures Cosine(v, v, norm) > 0.0
    ensures 1.0 - Cosine(v, v, norm) == EPSILON / (Dot(v, v) + EPSILON)
  {
    DotSelfZeroIff(v);
    var d := Dot(v, v);
    assert norm(v) * norm(v) == d;
    var D := d + EPSILON;
    assert Denominator(v, v, norm) == D;
    var c := d / D;
    assert Prod(c, D) == d;
    assert Prod(1.0 - c, D) == D - Prod(c, D);
    assert (1.0 - c) == EPSILON / D;
    QuotientPositive(d, D);
  }

  lemma QuotientPositive(d: real, D: real)
    requires d > 0.0 && D > 0.0
    ensures d / D > 0.0
  {
    var c := d / D;
    assert Prod(c, D) == d;
    ScaleSign(c, D);
  }

  lemma ScaleSign(c: real, D: real)
    requires D > 0.0
    ensures c <= 0.0 ==> Prod(c, D) <= 0.0
  {
    if c <= 0.0 {
      ProdNonNegative(-c, D);
      assert Prod(-c, D) == -Prod(c, D);
    }
  }

  /** Every row has the query's dimension, so `np.dot` does not raise. */
  predicate SameDimension(q: seq<real>, rows: seq<EmbeddingRow>)
  {
    forall i :: 0 <= i < |rows| ==> |rows[i].embedding| == |q|
  }

  /** The `results` list before sorting: one pair per row, in row order. */
  function Scores(q: seq<real>, rows: seq<EmbeddingRow>, norm: seq<real> -> real): (r: seq<Scored>)
    requires IsEuclideanNorm(norm) && SameDimension(q, rows)
    ensures |r| == |rows|
    ensures forall i :: 0 <= i < |rows| ==>
      r[i].resumeId == rows[i].resumeId && r[i].score == Cosine(q, rows[i].embedding, norm)
  {
    if rows == [] then []
    else
      var last := rows[|rows| - 1];
      Scores(q, rows[..|rows| - 1], norm) + [Scored(last.resumeId, Cosine(q, last.embedding, norm))]
  }

  /** Sorting only reorders the pairs, so every ranked score is still a cosine similarity of some row:
      strictly between -1 and 1, and 0 for every row when the query vector is all zeros. */
  lemma RankedScoresBounded(q: seq<real>, rows: seq<EmbeddingRow>, norm: seq<real> -> real)
    requires IsEuclideanNorm(norm) && SameDimension(q, rows)
    ensures var ranked := SortByKeyDesc(Scores(q, rows, norm), ScoreOf);
      forall i :: 0 <= i < |ranked| ==>
        && -1.0 < ranked[i].score < 1.0
        && (IsZero(q) ==> ranked[i].score == 0.0)
  {
    var unsorted := Scores(q, rows, norm);
    var ranked := SortByKeyDesc(unsorted, ScoreOf);
    forall i | 0 <= i < |ranked|
      ensures -1.0 < ranked[i].score < 1.0
      ensures IsZero(q) ==> ranked[i].score == 0.0
    {
      assert ranked[i] in multiset(unsorted);
      var j :| 0 <= j < |unsorted| && unsorted[j] == ranked[i];
    }
  }

  /** The response entries for the sorted pairs, one per pair, in the same order. */
  function Response(ranked: seq<Scored>): seq<RankedResume>
  {
    seq(|ranked|, i requires 0 <= i < |ranked| => RankedResume(ranked[i].resumeId, ranked[i].score))
  }

  /** What the route returns when every embedding has the query's dimension: one entry per stored
      embedding, scores never increasing down the list, every score strictly between -1 and 1, and
      all scores 0 when the query vector is all zeros. */
  lemma ResponseProperties(q: seq<real>, rows: seq<EmbeddingRow>, norm: seq<real> -> real)
    requires IsEuclideanNorm(norm) && SameDimension(q, rows)
    ensures var out := Response(SortByKeyDesc(Scores(q, rows, norm), ScoreOf));
      && |out| == |rows|
      && (forall i, j :: 0 <= i < j < |out| ==> out[i].score >= out[j].score)
      && (forall i :: 0 <= i < |out| ==> -1.0 < out[i].score < 1.0)
      && (IsZero(q) ==> forall i :: 0 <= i < |out| ==> out[i].score == 0.0)
  {
    var ranked := SortByKeyDesc(Scores(q, rows, norm), ScoreOf);
    var out := Response(ranked);
    RankedScoresBounded(q, rows, norm);
    forall i, j | 0 <= i < j < |out| ensures out[i].score >= out[j].score {
      assert ScoreOf(ranked[i]) >= ScoreOf(ranked[j]);
    }
  }

  /** Lines 93-113 of the route: score every stored embedding, stable-sort the pairs by score
      (highest first) and copy them into the response. */
  method Rank(q: seq<real>, rows: seq<EmbeddingRow>, norm: seq<real> -> real)
    returns (r: Result<seq<RankedResume>, RankError>)
    requires IsEuclideanNorm(norm)
    ensures r.Failure? <==> !SameDimension(q, rows)
    ensures r.Success? ==> r.value == Response(SortByKeyDesc(Scores(q, rows, norm), ScoreOf))
  {
    var results: seq<Scored> := [];
    for i := 0 to |rows|
      invariant SameDimension(q, rows[..i])
      invariant results == Scores(q, rows[..i], norm)
    {
      var emb := rows[i].embedding;
      if |emb| != |q| {
        return Failure(DimensionMismatch);
      }
      var sim := Cosine(q, emb, norm);
      assert rows[..i + 1][..i] == rows[..i];
      results := results + [Scored(rows[i].resumeId, sim)];
    }
    assert rows[..|rows|] == rows;
    results := SortByKeyDesc(results, ScoreOf);
    var out := BuildResponse(results);
    return Success(out);
  }

  /** The second loop of the route: one response entry per sorted pair, in the same order and with
      the same score. */
  method BuildResponse(results: seq<Scored>) returns (out: seq<RankedResume>)
    ensures out == Response(results)
  {
    out := [];
    for i := 0 to |results|
      invariant out == Response(results[..i])
    {
      assert results[..i + 1][..i] == results[..i];
      out := out + [RankedResume(results[i].resumeId, results[i].score)];
    }
    assert results[..|results|] == results;
  }
}
