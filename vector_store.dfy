/** The hand-rolled vector store of Day_04_Vector_Store/main.py: cosine similarity with its
    zero-magnitude guard, the ingestion loop that builds the store, and the search that scores
    every entry, sorts by descending score and reports element 0 as the winner.

    Vectors hold exact reals. The embedding service is the parameter `embed`; the square root
    inside `np.linalg.norm` is the parameter `sqrt`, and the lemmas that need it to be the real
    square root say so with IsSqrt. */
module VectorStore {
  import opened Ranking

  /** One `{"text": doc, "vector": vec}` entry of the store. */
  datatype StoreEntry = StoreEntry(text: string, vector: seq<real>)

  // ---------------------------------------------------------------------------------------
  // Cosine similarity

  /** `np.dot` of two equal-length vectors, summed from index 0 upwards. */
  function Dot(a: seq<real>, b: seq<real>): real
    requires |a| == |b|
  {
    if a == [] then 0.0 else a[0] * b[0] + Dot(a[1..], b[1..])
  }

  /** `np.linalg.norm` of a vector: the square root of its dot product with itself. */
  function Norm(a: seq<real>, sqrt: real -> real): real {
    sqrt(Dot(a, a))
  }

  /** `sqrt` is the real square root on the non-negative reals. */
  ghost predicate IsSqrt(sqrt: real -> real) {
    forall x :: 0.0 <= x ==> 0.0 <= sqrt(x) && sqrt(x) * sqrt(x) == x
  }

  predicate IsZeroVector(a: seq<real>) {
    forall i :: 0 <= i < |a| ==> a[i] == 0.0
  }

  /** `cosine_similarity(vec_a, vec_b)`: 0.0 when either magnitude is 0, otherwise the dot
      product divided by the product of the magnitudes. */
  function CosineSimilarity(a: seq<real>, b: seq<real>, sqrt: real -> real): real
    requires |a| == |b|
  {
    var dotProduct := Dot(a, b);
    var normA := Norm(a, sqrt);
    var normB := Norm(b, sqrt);
    if normA == 0.0 || normB == 0.0 then 0.0
    else dotProduct / (normA * normB)
  }

  lemma {:induction false} DotSymmetric(a: seq<real>, b: seq<real>)
    requires |a| == |b|
    ensures Dot(a, b) == Dot(b, a)
  {
    if a != [] {
      DotSymmetric(a[1..], b[1..]);
    }
  }

  lemma ZeroProduct(x: real, y: real)
    requires x * y == 0.0
    ensures x == 0.0 || y == 0.0
  {
  }

  /** A sum of squares is never negative, and it is 0 exactly for the zero vector. */
  lemma {:induction false} SumOfSquaresZero(a: seq<real>)
    ensures Dot(a, a) >= 0.0
    ensures Dot(a, a) == 0.0 <==> IsZeroVector(a)
  {
    if a != [] {
      SumOfSquaresZero(a[1..]);
      assert a[0] * a[0] >= 0.0;
      if IsZeroVector(a) {
        assert IsZeroVector(a[1..]) by {
          forall i | 0 <= i < |a[1..]| ensures a[1..][i] == 0.0 {
            assert a[1..][i] == a[i + 1];
          }
        }
      }
      if Dot(a, a) == 0.0 {
        assert a[0] * a[0] == 0.0;
        ZeroProduct(a[0], a[0]);
        assert IsZeroVector(a[1..]);
        forall i | 0 <= i < |a| ensures a[i] == 0.0 {
          if i > 0 {
            assert a[i] == a[1..][i - 1];
          }
        }
      }
    }
  }

  /** The magnitude is 0 exactly when every component is 0. */
  lemma NormZeroIff(a: seq<real>, sqrt: real -> real)
    requires IsSqrt(sqrt)
    ensures Norm(a, sqrt) >= 0.0
    ensures Norm(a, sqrt) == 0.0 <==> IsZeroVector(a)
  {
    SumOfSquaresZero(a);
    var s := Dot(a, a);
    var n := sqrt(s);
    assert n * n == s;
    if n == 0.0 {
      assert s == 0.0;
    }
    if s == 0.0 {
      ZeroProduct(n, n);
    }
  }

  /** The zero guard: a zero vector has similarity 0.0 to every vector, a zero vector included;
      between two non-zero vectors the similarity is the dot product over the magnitudes. */
  lemma CosineZeroGuard(a: seq<real>, b: seq<real>, sqrt: real -> real)
    requires |a| == |b| && IsSqrt(sqrt)
    ensures IsZeroVector(a) || IsZeroVector(b) ==> CosineSimilarity(a, b, sqrt) == 0.0
    ensures !IsZeroVector(a) && !IsZeroVector(b) ==>
      Norm(a, sqrt) > 0.0 && Norm(b, sqrt) > 0.0 &&
      CosineSimilarity(a, b, sqrt) == Dot(a, b) / (Norm(a, sqrt) * Norm(b, sqrt))
  {
    NormZeroIff(a, sqrt);
    NormZeroIff(b, sqrt);
  }

  /** Swapping the arguments changes nothing. */
  lemma CosineSymmetric(a: seq<real>, b: seq<real>, sqrt: real -> real)
    requires |a| == |b|
    ensures CosineSimilarity(a, b, sqrt) == CosineSimilarity(b, a, sqrt)
  {
    DotSymmetric(a, b);
    var na, nb := Norm(a, sqrt), Norm(b, sqrt);
    assert na * nb == nb * na;
  }

  /** A non-zero vector has similarity 1 to itself. */
  lemma CosineSelf(a: seq<real>, sqrt: real -> real)
    requires IsSqrt(sqrt) && !IsZeroVector(a)
    ensures CosineSimilarity(a, a, sqrt) == 1.0
  {
    NormZeroIff(a, sqrt);
    SumOfSquaresZero(a);
    var n := Norm(a, sqrt);
    assert n * n == Dot(a, a);
    assert n * n != 0.0;
    assert n != 0.0;
    assert CosineSimilarity(a, a, sqrt) == Dot(a, a) / (n * n);
    assert Dot(a, a) / (n * n) == 1.0;
  }

  // ---------------------------------------------------------------------------------------
  // The similarity lies between -1 and 1 (Cauchy-Schwarz)

  /** `x * a - y * b`, component by component. */
  function Combine(a: seq<real>, b: seq<real>, x: real, y: real): (c: seq<real>)
    requires |a| == |b|
    ensures |c| == |a|
  {
    if a == [] then [] else [x * a[0] - y * b[0]] + Combine(a[1..], b[1..], x, y)
  }

  /** `x * u - y * v`: one component of Combine, and the dot product of a combination. */
  function Combination(x: real, u: real, y: real, v: real): real {
    x * u - y * v
  }

  lemma LinearStep(p: real, q: real, r: real, x: real, y: real,
                   restA: real, restB: real, restC: real)
    requires restC == Combination(x, restA, y, restB)
    ensures (x * p - y * q) * r + restC == Combination(x, p * r + restA, y, q * r + restB)
  {
  }

  /** The dot product is linear in its first argument. */
  lemma {:induction false} DotCombineLeft(a: seq<real>, b: seq<real>, w: seq<real>, x: real, y: real)
    requires |a| == |b| == |w|
    ensures Dot(Combine(a, b, x, y), w) == Combination(x, Dot(a, w), y, Dot(b, w))
  {
    if a != [] {
      var c := Combine(a, b, x, y);
      DotCombineLeft(a[1..], b[1..], w[1..], x, y);
      assert c[1..] == Combine(a[1..], b[1..], x, y);
      LinearStep(a[0], b[0], w[0], x, y, Dot(a[1..], w[1..]), Dot(b[1..], w[1..]), Dot(c[1..], w[1..]));
    }
  }

  /** x^2 A - 2xy D + y^2 B: the squared length of `x * a - y * b` when A = a.a, B = b.b and
      D = a.b. It is a function of its own so that the expansion is matched as one term. */
  function Expansion(x: real, y: real, A: real, B: real, D: real): real {
    x * x * A - 2.0 * x * y * D + y * y * B
  }

  lemma QuadraticForm(x: real, y: real, A: real, B: real, D: real, CA: real, CB: real, C: real)
    requires C == Combination(x, CA, y, CB)
    requires CA == Combination(x, A, y, D) && CB == Combination(x, D, y, B)
    ensures C == Expansion(x, y, A, B, D)
  {
  }

  /** The squared length of `x * a - y * b`, expanded. */
  lemma ExpandCombine(a: seq<real>, b: seq<real>, x: real, y: real)
    requires |a| == |b|
    ensures Dot(Combine(a, b, x, y), Combine(a, b, x, y)) == Expansion(x, y, Dot(a, a), Dot(b, b), Dot(a, b))
  {
    var c := Combine(a, b, x, y);
    DotCombineLeft(a, b, c, x, y);
    DotSymmetric(a, c);
    DotSymmetric(b, c);
    DotCombineLeft(a, b, a, x, y);
    DotCombineLeft(a, b, b, x, y);
    DotSymmetric(a, b);
    QuadraticForm(x, y, Dot(a, a), Dot(b, b), Dot(a, b), Dot(a, c), Dot(b, c), Dot(c, c));
  }

  /** The dot product with a zero vector is 0. */
  lemma {:induction false} DotWithZero(a: seq<real>, b: seq<real>)
    requires |a| == |b| && IsZeroVector(b)
    ensures Dot(a, b) == 0.0
  {
    if a != [] {
      assert IsZeroVector(b[1..]) by {
        forall i | 0 <= i < |b[1..]| ensures b[1..][i] == 0.0 {
          assert b[1..][i] == b[i + 1];
        }
      }
      DotWithZero(a[1..], b[1..]);
      assert a[0] * b[0] == 0.0;
    }
  }

  /** d^2 <= A B. */
  predicate SquareAtMostProduct(d: real, A: real, B: real) {
    d * d <= A * B
  }

  lemma NonNegativeFactor(k: real, x: real)
    requires k > 0.0 && k * x >= 0.0
    ensures x >= 0.0
  {
  }

  lemma Discriminant(A: real, B: real, D: real, E: real)
    requires B > 0.0 && E >= 0.0 && E == Expansion(B, D, A, B, D)
    ensures SquareAtMostProduct(D, A, B)
  {
    assert E == B * (B * A - D * D);
    NonNegativeFactor(B, B * A - D * D);
  }

  /** Cauchy-Schwarz: (a.b)^2 <= (a.a)(b.b). */
  lemma CauchySchwarz(a: seq<real>, b: seq<real>)
    requires |a| == |b|
    ensures SquareAtMostProduct(Dot(a, b), Dot(a, a), Dot(b, b))
  {
    SumOfSquaresZero(a);
    SumOfSquaresZero(b);
    if Dot(b, b) == 0.0 {
      DotWithZero(a, b);
    } else {
      // the squared length of B * a - D * b is never negative
      var c := Combine(a, b, Dot(b, b), Dot(a, b));
      ExpandCombine(a, b, Dot(b, b), Dot(a, b));
      SumOfSquaresZero(c);
      Discriminant(Dot(a, a), Dot(b, b), Dot(a, b), Dot(c, c));
    }
  }

  lemma ProductSquare(x: real, y: real)
    ensures (x * y) * (x * y) == (x * x) * (y * y)
  {
  }

  lemma PositiveProduct(x: real, y: real)
    requires x > 0.0 && y > 0.0
    ensures x * y > 0.0
  {
  }

  lemma NonNegativeFactors(u: real, v: real)
    requires u * v >= 0.0 && u + v > 0.0
    ensures u >= 0.0 && v >= 0.0
  {
  }

  /** A number whose square is at most p * p lies between -p and p. */
  lemma BoundFromSquare(d: real, p: real)
    requires p > 0.0 && d * d <= p * p
    ensures -p <= d <= p
  {
    assert (p - d) * (p + d) == p * p - d * d;
    NonNegativeFactors(p - d, p + d);
  }

  lemma QuotientBound(d: real, p: real)
    requires p > 0.0 && -p <= d <= p
    ensures -1.0 <= d / p <= 1.0
  {
  }

  /** q = d / (na * nb) lies in [-1, 1] when d^2 is at most na^2 nb^2. */
  lemma UnitRatio(d: real, A: real, B: real, na: real, nb: real, q: real)
    requires na > 0.0 && nb > 0.0 && na * na == A && nb * nb == B
    requires SquareAtMostProduct(d, A, B) && q == d / (na * nb)
    ensures -1.0 <= q <= 1.0
  {
    ProductSquare(na, nb);
    PositiveProduct(na, nb);
    BoundFromSquare(d, na * nb);
    QuotientBound(d, na * nb);
  }

  /** The squared magnitude is the sum of squares. */
  lemma NormSquared(a: seq<real>, sqrt: real -> real)
    requires IsSqrt(sqrt)
    ensures Norm(a, sqrt) * Norm(a, sqrt) == Dot(a, a)
  {
    SumOfSquaresZero(a);
  }

  lemma CosineBoundsNonZero(a: seq<real>, b: seq<real>, sqrt: real -> real)
    requires |a| == |b| && IsSqrt(sqrt) && !IsZeroVector(a) && !IsZeroVector(b)
    ensures -1.0 <= CosineSimilarity(a, b, sqrt) <= 1.0
  {
    NormZeroIff(a, sqrt);
    NormZeroIff(b, sqrt);
    NormSquared(a, sqrt);
    NormSquared(b, sqrt);
    CauchySchwarz(a, b);
    UnitRatio(Dot(a, b), Dot(a, a), Dot(b, b), Norm(a, sqrt), Norm(b, sqrt), CosineSimilarity(a, b, sqrt));
  }

  /** With the real square root, the similarity of any two vectors lies in [-1, 1]. */
  lemma CosineBounds(a: seq<real>, b: seq<real>, sqrt: real -> real)
    requires |a| == |b| && IsSqrt(sqrt)
    ensures -1.0 <= CosineSimilarity(a, b, sqrt) <= 1.0
  {
    if IsZeroVector(a) || IsZeroVector(b) {
      CosineZeroGuard(a, b, sqrt);
    } else {
      CosineBoundsNonZero(a, b, sqrt);
    }
  }

  /** The similarity is non-negative exactly when the dot product is, or a vector is zero. */
  lemma CosineSign(a: seq<real>, b: seq<real>, sqrt: real -> real)
    requires |a| == |b| && IsSqrt(sqrt)
    ensures CosineSimilarity(a, b, sqrt) >= 0.0 <==>
      Dot(a, b) >= 0.0 || IsZeroVector(a) || IsZeroVector(b)
  {
    CosineZeroGuard(a, b, sqrt);
    if !IsZeroVector(a) && !IsZeroVector(b) {
      PositiveProduct(Norm(a, sqrt), Norm(b, sqrt));
      QuotientSign(Dot(a, b), Norm(a, sqrt) * Norm(b, sqrt));
    }
  }

  lemma QuotientSign(d: real, p: real)
    requires p > 0.0
    ensures d / p >= 0.0 <==> d >= 0.0
  {
    assert d == (d / p) * p;
  }

  /** The similarity is not confined to [0, 1]: two opposite unit vectors give -1. */
  lemma OppositeVectors(sqrt: real -> real)
    requires IsSqrt(sqrt)
    ensures CosineSimilarity([1.0], [-1.0], sqrt) == -1.0
  {
    var a, b := [1.0], [-1.0];
    assert Dot(a, a) == 1.0 && Dot(b, b) == 1.0 && Dot(a, b) == -1.0;
    NormSquared(a, sqrt);
    NormSquared(b, sqrt);
    NormZeroIff(a, sqrt);
    NormZeroIff(b, sqrt);
    var na, nb := Norm(a, sqrt), Norm(b, sqrt);
    assert (na - 1.0) * (na + 1.0) == 0.0;
    ZeroProduct(na - 1.0, na + 1.0);
    assert (nb - 1.0) * (nb + 1.0) == 0.0;
    ZeroProduct(nb - 1.0, nb + 1.0);
  }

  // ---------------------------------------------------------------------------------------
  // Building the store

  /** The ingestion loop: one `{"text": doc, "vector": embed(doc)}` appended per document,
      in document order. */
  method BuildVectorStore(documents: seq<string>, embed: string -> seq<real>)
    returns (store: seq<StoreEntry>)
    ensures |store| == |documents|
    ensures forall i :: 0 <= i < |store| ==>
      store[i].text == documents[i] && store[i].vector == embed(documents[i])
  {
    store := [];
    for n := 0 to |documents|
      invariant |store| == n
      invariant forall i :: 0 <= i < n ==>
        store[i].text == documents[i] && store[i].vector == embed(documents[i])
    {
      var doc := documents[n];
      var vec := embed(doc);
      store := store + [StoreEntry(doc, vec)];
    }
  }

  // ---------------------------------------------------------------------------------------
  // Searching the store

  /** Every stored vector has the dimension of the query vector (`np.dot` raises otherwise). */
  predicate SameDimension(store: seq<StoreEntry>, queryVec: seq<real>) {
    forall i :: 0 <= i < |store| ==> |store[i].vector| == |queryVec|
  }

  /** The unsorted results: one `{"text", "score"}` per store entry, in store order. */
  function ScoreStore(store: seq<StoreEntry>, queryVec: seq<real>, sqrt: real -> real)
    : (results: seq<ScoredText>)
    requires SameDimension(store, queryVec)
    ensures |results| == |store|
    ensures forall i :: 0 <= i < |store| ==>
      results[i] == ScoredText(store[i].text, CosineSimilarity(queryVec, store[i].vector, sqrt))
  {
    if store == [] then []
    else
      [ScoredText(store[0].text, CosineSimilarity(queryVec, store[0].vector, sqrt))]
      + ScoreStore(store[1..], queryVec, sqrt)
  }

  /** Element 0 of the sorted results is entry `k` of the store, an entry with the largest
      score, and every entry before it scores strictly less. */
  lemma TopResultIsFirstBest(store: seq<StoreEntry>, queryVec: seq<real>, sqrt: real -> real)
    returns (k: nat)
    requires store != [] && SameDimension(store, queryVec)
    ensures k < |store|
    ensures SortByScore(ScoreStore(store, queryVec, sqrt))[0] ==
      ScoredText(store[k].text, CosineSimilarity(queryVec, store[k].vector, sqrt))
    ensures forall j :: 0 <= j < |store| ==>
      CosineSimilarity(queryVec, store[j].vector, sqrt) <= CosineSimilarity(queryVec, store[k].vector, sqrt)
    ensures forall j :: 0 <= j < k ==>
      CosineSimilarity(queryVec, store[j].vector, sqrt) < CosineSimilarity(queryVec, store[k].vector, sqrt)
  {
    var unsorted := ScoreStore(store, queryVec, sqrt);
    SortedHeadIsFirstBest(unsorted);
    k := FirstBest(unsorted);
  }

  /** `search_vector_store(query)`: embed the query, score every entry, sort the results by
      descending score (stably) and take element 0 as the winner; an empty store makes reading
      element 0 fail with IndexError. `ranked` is the list the search prints. */
  method SearchVectorStore(store: seq<StoreEntry>, query: string,
                           embed: string -> seq<real>, sqrt: real -> real)
    returns (ranked: seq<ScoredText>, winner: Lookup<ScoredText>)
    requires SameDimension(store, embed(query))
    ensures |ranked| == |store|
    ensures SortedByScore(ranked)
    ensures multiset(ranked) == multiset(ScoreStore(store, embed(query), sqrt))
    ensures forall v :: WithScore(ranked, v) == WithScore(ScoreStore(store, embed(query), sqrt), v)
    ensures winner == IndexError <==> store == []
    ensures winner.Ok? ==> winner.value == ranked[0]
    ensures winner.Ok? ==> exists k :: (0 <= k < |store| &&
      winner.value == ScoredText(store[k].text, CosineSimilarity(embed(query), store[k].vector, sqrt)) &&
      (forall j :: 0 <= j < |store| ==>
        CosineSimilarity(embed(query), store[j].vector, sqrt) <= winner.value.score) &&
      (forall j :: 0 <= j < k ==>
        CosineSimilarity(embed(query), store[j].vector, sqrt) < winner.value.score))
  {
    var queryVec := embed(query);
    var results: seq<ScoredText> := [];
    for n := 0 to |store|
      invariant |results| == n
      invariant forall i :: 0 <= i < n ==>
        results[i] == ScoredText(store[i].text, CosineSimilarity(queryVec, store[i].vector, sqrt))
    {
      var docVec := store[n].vector;
      var score := CosineSimilarity(queryVec, docVec, sqrt);
      results := results + [ScoredText(store[n].text, score)];
    }
    assert results == ScoreStore(store, queryVec, sqrt);
    ghost var unsorted := results;
    results := SortByScore(results);
    forall v
      ensures WithScore(results, v) == WithScore(unsorted, v)
    {
      SortByScoreStable(unsorted, v);
    }
    ranked := results;
    if |results| == 0 {
      winner := IndexError;
    } else {
      winner := Ok(results[0]);
      ghost var k := TopResultIsFirstBest(store, queryVec, sqrt);
    }
  }
}
