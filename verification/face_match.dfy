/**
 * Matching a check-in face against the enrolled ones (`FacialRecognitionService`
 * in both backends): the cosine distance of the api backend, the distance to
 * confidence map of both backends (cut-off 0.5 in the api backend, 0.6 in the
 * older one), and `findBestMatch`.
 *
 * Vectors are sequences of reals; single-precision rounding is not modelled.
 * A distance that JavaScript would compute as NaN is `None`: NaN compares
 * false with everything, so such a candidate is never preferred.
 */
module FaceMatch {
  import opened Wrappers

  /** `Math.round`: the nearest integer, halves rounded up. */
  function Round(x: real): (n: int)
    ensures n as real - 0.5 <= x < n as real + 0.5
  {
    (x + 0.5).Floor
  }

  /** `Math.max(0, Math.min(100, x))`. */
  function Clamp(x: real): real {
    if x > 100.0 then 100.0 else if x < 0.0 then 0.0 else x
  }

  const ApiCutoff: real := 0.5
  const BackendCutoff: real := 0.6

  /**
   * `calculateConfidence`: distance 0 is 100%, the cut-off distance and
   * beyond are 0%, linear in between, rounded to a whole percentage.
   */
  function Confidence(distance: real, cutoff: real): (c: int)
    requires cutoff > 0.0
    ensures 0 <= c <= 100
    ensures distance <= 0.0 ==> c == 100
    ensures distance >= cutoff ==> c == 0
  {
    var x := (1.0 - distance / cutoff) * 100.0;
    assert distance <= 0.0 ==> distance / cutoff <= 0.0;
    assert distance >= cutoff ==> distance / cutoff >= 1.0;
    Round(Clamp(x))
  }

  lemma DivMonotone(a: real, b: real, k: real)
    requires k > 0.0 && a <= b
    ensures a / k <= b / k
  {
    assert b / k - a / k == (b - a) / k;
  }

  /** A larger distance never gives a larger confidence. */
  lemma ConfidenceNonIncreasing(d1: real, d2: real, cutoff: real)
    requires cutoff > 0.0 && d1 <= d2
    ensures Confidence(d2, cutoff) <= Confidence(d1, cutoff)
  {
    DivMonotone(d1, d2, cutoff);
    var x1 := (1.0 - d1 / cutoff) * 100.0;
    var x2 := (1.0 - d2 / cutoff) * 100.0;
    assert x2 <= x1;
    assert Clamp(x2) <= Clamp(x1);
    assert Clamp(x2) + 0.5 <= Clamp(x1) + 0.5;
  }

  /** Dividing by a positive k keeps an upper bound, scaled. */
  lemma DivAtMost(d: real, k: real, m: real)
    requires k > 0.0
    ensures d / k <= m <==> d <= k * m
  {
    var q := d / k;
    assert q * k == d;
    if q <= m {
      assert (m - q) * k >= 0.0;
    } else {
      assert (q - m) * k > 0.0;
    }
  }

  lemma RoundAtLeast(y: real, t: int)
    ensures Round(y) >= t <==> y >= t as real - 0.5
  {
  }

  /**
   * A whole-percentage threshold t in 1..100 is reached exactly when the
   * distance is at most cutoff * (100.5 - t) / 100: rounding moves the
   * boundary half a percentage point.
   */
  lemma ConfidenceThreshold(d: real, cutoff: real, t: int)
    requires cutoff > 0.0 && 1 <= t <= 100
    ensures Confidence(d, cutoff) >= t <==> d <= cutoff * (100.5 - t as real) / 100.0
  {
    var m := (100.5 - t as real) / 100.0;
    var x := (1.0 - d / cutoff) * 100.0;
    RoundAtLeast(Clamp(x), t);
    assert Clamp(x) >= t as real - 0.5 <==> x >= t as real - 0.5;
    assert x >= t as real - 0.5 <==> d / cutoff <= m;
    DivAtMost(d, cutoff, m);
    assert cutoff * m == cutoff * (100.5 - t as real) / 100.0;
  }

  // ---------------------------------------------------------------------
  // Cosine distance (api backend `compareEmbeddings`)
  // ---------------------------------------------------------------------

  /** The sum of the products a[i] * b[i] over the indices of `a`. */
  function Dot(a: seq<real>, b: seq<real>): real
    requires |a| <= |b|
    decreases |a|
  {
    if |a| == 0 then 0.0 else a[0] * b[0] + Dot(a[1..], b[1..])
  }

  /**
   * The loop runs over the first vector's indices: a shorter second vector
   * yields `undefined` products (NaN), and extra entries of a longer one are
   * ignored. With a zero norm the quotient is 0/0, NaN again. `sqrt` is
   * `Math.sqrt`, a parameter.
   */
  function CosineDistance(a: seq<real>, b: seq<real>, sqrt: real -> real): (d: Option<real>)
    ensures |b| < |a| ==> d.None?
  {
    if |b| < |a| then None
    else
      var b' := b[..|a|];
      match Similarity(Dot(a, b'), sqrt(Dot(a, a)), sqrt(Dot(b', b')))
      case None => None
      case Some(similarity) => Some(ToDistance(similarity))
  }

  /** Similarity 1 is distance 0 and similarity -1 is distance 1. */
  function ToDistance(similarity: real): (d: real)
    ensures -1.0 <= similarity <= 1.0 ==> 0.0 <= d <= 1.0
    ensures similarity == 1.0 ==> d == 0.0
  {
    (1.0 - similarity) / 2.0
  }

  /** `dotProduct / (Math.sqrt(norm1) * Math.sqrt(norm2))`; `None` when the divisor is zero. */
  function Similarity(dot: real, root1: real, root2: real): Option<real> {
    if root1 * root2 == 0.0 then None else Some(dot / (root1 * root2))
  }

  lemma SquareOfDifference(p: real, q: real)
    ensures (p - q) * (p - q) == p * p - 2.0 * p * q + q * q
  {
  }

  /** The sum of the squares (x*a[i] - y*b[i])^2 is never negative, expanded. */
  lemma {:induction false} Lagrange(a: seq<real>, b: seq<real>, x: real, y: real)
    requires |a| == |b|
    ensures x * x * Dot(a, a) - 2.0 * x * y * Dot(a, b) + y * y * Dot(b, b) >= 0.0
    decreases |a|
  {
    if |a| > 0 {
      Lagrange(a[1..], b[1..], x, y);
      var p := x * a[0];
      var q := y * b[0];
      SquareOfDifference(p, q);
      assert p * p == x * x * (a[0] * a[0]);
      assert q * q == y * y * (b[0] * b[0]);
      assert p * q == x * y * (a[0] * b[0]);
      var ra, rab, rb := Dot(a[1..], a[1..]), Dot(a[1..], b[1..]), Dot(b[1..], b[1..]);
      assert Dot(a, a) == a[0] * a[0] + ra;
      assert Dot(a, b) == a[0] * b[0] + rab;
      assert Dot(b, b) == b[0] * b[0] + rb;
      calc {
        x * x * Dot(a, a) - 2.0 * x * y * Dot(a, b) + y * y * Dot(b, b);
        (p * p - 2.0 * p * q + q * q) + (x * x * ra - 2.0 * x * y * rab + y * y * rb);
        (p - q) * (p - q) + (x * x * ra - 2.0 * x * y * rab + y * y * rb);
      }
    }
  }

  lemma ProductSign(x: real, y: real)
    ensures x > 0.0 && y > 0.0 ==> x * y > 0.0
    ensures x > 0.0 && y < 0.0 ==> x * y < 0.0
    ensures x != 0.0 ==> x * x > 0.0
  {
  }

  /** The arithmetic half of Cauchy-Schwarz: from the expanded square to the bound. */
  lemma BoundFromSquare(n1: real, n2: real, s1: real, s2: real, dot: real)
    requires s1 >= 0.0 && s2 >= 0.0 && s1 * s1 == n1 && s2 * s2 == n2
    requires s2 * s2 * n1 - 2.0 * s2 * s1 * dot + s1 * s1 * n2 >= 0.0
    requires s1 * s2 > 0.0
    ensures dot <= s1 * s2
  {
    var p := s1 * s2;
    assert s2 * s2 * n1 == p * p;
    assert s1 * s1 * n2 == p * p;
    assert s2 * s1 * dot == p * dot;
    assert p * (p - dot) >= 0.0;
    ProductSign(p, p - dot);
  }

  /** Cauchy-Schwarz: |a.b| <= |a| |b|, given the two (non-zero) square roots. */
  lemma CauchySchwarz(a: seq<real>, b: seq<real>, s1: real, s2: real)
    requires |a| == |b|
    requires s1 >= 0.0 && s1 * s1 == Dot(a, a)
    requires s2 >= 0.0 && s2 * s2 == Dot(b, b)
    requires s1 * s2 > 0.0
    ensures -(s1 * s2) <= Dot(a, b) <= s1 * s2
  {
    var n1, n2, dot := Dot(a, a), Dot(b, b), Dot(a, b);
    Lagrange(a, b, s2, s1);
    BoundFromSquare(n1, n2, s1, s2, dot);
    Lagrange(a, b, s2, -s1);
    assert s2 * s2 * n1 - 2.0 * s2 * (-s1) * dot + (-s1) * (-s1) * n2
        == s2 * s2 * n1 - 2.0 * s2 * s1 * (-dot) + s1 * s1 * n2;
    BoundFromSquare(n1, n2, s1, s2, -dot);
  }

  lemma {:induction false} DotSymmetric(a: seq<real>, b: seq<real>)
    requires |a| == |b|
    ensures Dot(a, b) == Dot(b, a)
    decreases |a|
  {
    if |a| > 0 {
      DotSymmetric(a[1..], b[1..]);
    }
  }

  lemma SimilarityInUnit(dot: real, root1: real, root2: real)
    requires root1 * root2 > 0.0 && -(root1 * root2) <= dot <= root1 * root2
    ensures Similarity(dot, root1, root2).Some?
    ensures -1.0 <= Similarity(dot, root1, root2).value <= 1.0
  {
    var p := root1 * root2;
    DivAtMost(dot, p, 1.0);
    DivAtMost(-dot, p, 1.0);
    assert (-dot) / p == -(dot / p);
  }

  lemma SimilarityOfEqual(dot: real, root1: real, root2: real)
    requires root1 * root2 == dot && dot != 0.0
    ensures Similarity(dot, root1, root2) == Some(1.0)
  {
    var p := root1 * root2;
    assert dot / p == dot / dot == 1.0;
  }

  /** Whenever `sqrt` is a true square root at the two norms, the distance lies in [0, 1]. */
  lemma CosineDistanceInRange(a: seq<real>, b: seq<real>, sqrt: real -> real)
    requires |a| <= |b|
    requires IsRoot(sqrt(Dot(a, a)), Dot(a, a))
    requires IsRoot(sqrt(Dot(b[..|a|], b[..|a|])), Dot(b[..|a|], b[..|a|]))
    ensures CosineDistance(a, b, sqrt).Some? ==> 0.0 <= CosineDistance(a, b, sqrt).value <= 1.0
  {
    var b' := b[..|a|];
    var s1, s2 := sqrt(Dot(a, a)), sqrt(Dot(b', b'));
    if s1 * s2 != 0.0 {
      ProductSign(s1, s2);
      CauchySchwarz(a, b', s1, s2);
      SimilarityInUnit(Dot(a, b'), s1, s2);
    }
  }

  /** `s` is the non-negative square root of `n`. */
  predicate IsRoot(s: real, n: real) {
    s >= 0.0 && s * s == n
  }

  function Scale(a: seq<real>, c: real): (r: seq<real>)
    ensures |r| == |a|
    ensures forall i :: 0 <= i < |a| ==> r[i] == c * a[i]
  {
    seq(|a|, i requires 0 <= i < |a| => c * a[i])
  }

  lemma {:induction false} DotScale(a: seq<real>, b: seq<real>, c: real)
    requires |a| == |b|
    ensures Dot(a, Scale(b, c)) == c * Dot(a, b)
    decreases |a|
  {
    if |a| > 0 {
      assert forall i :: 0 <= i < |b| - 1 ==> Scale(b, c)[1..][i] == Scale(b[1..], c)[i];
      assert Scale(b, c)[1..] == Scale(b[1..], c);
      DotScale(a[1..], b[1..], c);
    }
  }

  /**
   * A vector compared with any positive multiple of itself (in particular
   * with itself) is at distance 0, whenever `sqrt` is a true square root.
   */
  lemma SameDirectionIsDistanceZero(a: seq<real>, c: real, sqrt: real -> real)
    requires c > 0.0 && Dot(a, a) > 0.0
    requires IsRoot(sqrt(Dot(a, a)), Dot(a, a))
    requires IsRoot(sqrt(Dot(Scale(a, c), Scale(a, c))), Dot(Scale(a, c), Scale(a, c)))
    ensures CosineDistance(a, Scale(a, c), sqrt) == Some(0.0)
  {
    var b := Scale(a, c);
    var n1 := Dot(a, a);
    assert b[..|a|] == b;
    DotScale(a, a, c);
    DotScale(b, a, c);
    DotSymmetric(a, b);
    var n2 := Dot(b, b);
    assert n2 == c * (c * n1);
    var s1, s2 := sqrt(n1), sqrt(n2);
    SameRoot(n1, c, s1, s2);
    SimilarityOfEqual(Dot(a, b), s1, s2);
  }

  /** The square root of c^2 * n is c times the square root of n. */
  lemma SameRoot(n: real, c: real, s1: real, s2: real)
    requires c > 0.0 && n > 0.0
    requires s1 >= 0.0 && s1 * s1 == n && s2 >= 0.0 && s2 * s2 == c * (c * n)
    ensures s1 * s2 == c * n && c * n > 0.0
  {
    ProductSign(c, n);
    assert s1 > 0.0;
    var t := c * s1;
    ProductSign(c, s1);
    assert t * t == c * (c * (s1 * s1));
    assert (s2 - t) * (s2 + t) == 0.0;
    if s2 != t {
      ProductSign(s2 - t, s2 - t);
      if s2 > t {
        ProductSign(s2 - t, s2 + t);
      } else {
        assert s2 - t < 0.0 && s2 + t > 0.0;
        ProductSign(s2 + t, s2 - t);
      }
    }
    assert s1 * s2 == c * (s1 * s1);
  }

  // ---------------------------------------------------------------------
  // findBestMatch
  // ---------------------------------------------------------------------

  /** An enrolled face: a Sonta Head and its stored (decrypted) embedding. */
  datatype Known = Known(sontaHeadId: string, embedding: seq<real>)

  datatype Match = Match(sontaHeadId: string, confidence: int, distance: real)

  /** `d` is defined (not NaN) and strictly below every defined distance before it. */
  predicate Improves(ds: seq<Option<real>>, i: int)
    requires 0 <= i < |ds|
  {
    ds[i].Some? && forall j :: 0 <= j < i && ds[j].Some? ==> ds[i].value < ds[j].value
  }

  /**
   * Reference definition of the winner: the first index holding the least
   * defined distance; `None` when every distance is NaN or there are none.
   */
  function Best(ds: seq<Option<real>>): (o: Option<nat>)
    ensures o.None? <==> forall i :: 0 <= i < |ds| ==> ds[i].None?
    ensures o.Some? ==> o.value < |ds| && ds[o.value].Some?
    ensures o.Some? ==> forall j :: 0 <= j < |ds| && ds[j].Some? ==> ds[o.value].value <= ds[j].value
    ensures o.Some? ==> forall j :: 0 <= j < o.value && ds[j].Some? ==> ds[o.value].value < ds[j].value
    decreases |ds|
  {
    if |ds| == 0 then None
    else
      var prefix := Best(ds[..|ds| - 1]);
      var last := ds[|ds| - 1];
      assert forall j :: 0 <= j < |ds| - 1 ==> ds[..|ds| - 1][j] == ds[j];
      if last.None? then prefix
      else if prefix.None? || last.value < ds[prefix.value].value then Some(|ds| - 1)
      else prefix
  }

  /** The index of the first candidate whose comparison throws. */
  function FirstError(probe: seq<real>, known: seq<Known>,
                      compare: (seq<real>, seq<real>) -> Result<Option<real>, string>): (o: Option<nat>)
    ensures o.None? <==> forall i :: 0 <= i < |known| ==> compare(probe, known[i].embedding).Ok?
    ensures o.Some? ==> o.value < |known| && compare(probe, known[o.value].embedding).Err?
                        && forall j :: 0 <= j < o.value ==> compare(probe, known[j].embedding).Ok?
    decreases |known|
  {
    if |known| == 0 then None
    else if compare(probe, known[0].embedding).Err? then Some(0)
    else
      match FirstError(probe, known[1..], compare)
      case None => None
      case Some(i) => Some(i + 1)
  }

  /** The distances of all candidates, once none of them throws. */
  function Distances(probe: seq<real>, known: seq<Known>,
                     compare: (seq<real>, seq<real>) -> Result<Option<real>, string>): (ds: seq<Option<real>>)
    requires forall i :: 0 <= i < |known| ==> compare(probe, known[i].embedding).Ok?
    ensures |ds| == |known|
    ensures forall i :: 0 <= i < |known| ==> compare(probe, known[i].embedding) == Ok(ds[i])
  {
    seq(|known|, i requires 0 <= i < |known| => compare(probe, known[i].embedding).value)
  }

  /**
   * Reference definition of `findBestMatch`: the first thrown error, or
   * else the candidate `Best` picks, with the confidence of its distance.
   */
  function BestMatch(probe: seq<real>, known: seq<Known>,
                     compare: (seq<real>, seq<real>) -> Result<Option<real>, string>, cutoff: real)
    : (r: Result<Option<Match>, string>)
    requires cutoff > 0.0
    ensures r.Err? <==> exists i :: 0 <= i < |known| && compare(probe, known[i].embedding).Err?
    ensures r.Err? ==> exists i :: 0 <= i < |known| && compare(probe, known[i].embedding) == Err(r.error)
    ensures r.Ok? && r.value.Some? ==>
      exists i :: 0 <= i < |known| && known[i].sontaHeadId == r.value.value.sontaHeadId
        && compare(probe, known[i].embedding) == Ok(Some(r.value.value.distance))
        && forall j :: 0 <= j < |known| && compare(probe, known[j].embedding).value.Some? ==>
             r.value.value.distance <= compare(probe, known[j].embedding).value.value
    ensures r.Ok? && r.value.Some? ==>
      0 <= r.value.value.confidence <= 100 && r.value.value.confidence == Confidence(r.value.value.distance, cutoff)
    ensures r.Ok? && r.value.None? <==>
      forall i :: 0 <= i < |known| ==> compare(probe, known[i].embedding) == Ok(None)
  {
    match FirstError(probe, known, compare)
    case Some(i) => Err(compare(probe, known[i].embedding).error)
    case None =>
      var ds := Distances(probe, known, compare);
      match Best(ds)
      case None => Ok(None)
      case Some(i) =>
        assert compare(probe, known[i].embedding) == Ok(ds[i]);
        Ok(Some(Match(known[i].sontaHeadId, Confidence(ds[i].value, cutoff), ds[i].value)))
  }

  /**
   * `findBestMatch`, with the comparison as a parameter: `compare` gives a
   * distance (`None` for NaN) or the error it throws. The first thrown
   * error ends the search; otherwise the candidate with the first strictly
   * lowest distance wins, carrying the confidence of that distance.
   */
  method FindBestMatch(probe: seq<real>, known: seq<Known>,
                       compare: (seq<real>, seq<real>) -> Result<Option<real>, string>, cutoff: real)
    returns (r: Result<Option<Match>, string>)
    requires cutoff > 0.0
    ensures |known| == 0 ==> r == Ok(None)
    ensures r.Err? <==> exists i :: 0 <= i < |known| && compare(probe, known[i].embedding).Err?
    ensures r.Err? ==> exists i :: 0 <= i < |known| && compare(probe, known[i].embedding) == Err(r.error)
                                   && forall j :: 0 <= j < i ==> compare(probe, known[j].embedding).Ok?
    ensures r.Ok? ==>
      var ds := seq(|known|, i requires 0 <= i < |known| => compare(probe, known[i].embedding).value);
      match Best(ds)
      case None => r.value.None?
      case Some(i) => r.value == Some(Match(known[i].sontaHeadId, Confidence(ds[i].value, cutoff), ds[i].value))
    ensures r == BestMatch(probe, known, compare, cutoff)
  {
    if |known| == 0 {
      return Ok(None);
    }
    var best: Option<Match> := None;
    var k := 0;
    ghost var ds: seq<Option<real>> := [];
    while k < |known|
      invariant 0 <= k <= |known| && |ds| == k
      invariant forall j :: 0 <= j < k ==> compare(probe, known[j].embedding).Ok?
      invariant forall j :: 0 <= j < k ==> ds[j] == compare(probe, known[j].embedding).value
      invariant match Best(ds)
        case None => best.None?
        case Some(i) => best == Some(Match(known[i].sontaHeadId, Confidence(ds[i].value, cutoff), ds[i].value))
    {
      var c := compare(probe, known[k].embedding);
      if c.Err? {
        return Err(c.error);
      }
      var d := c.value;
      if d.Some? && (best.None? || d.value < best.value.distance) {
        best := Some(Match(known[k].sontaHeadId, Confidence(d.value, cutoff), d.value));
      }
      assert (ds + [d])[..k] == ds;
      ds := ds + [d];
      k := k + 1;
    }
    assert ds == seq(|known|, i requires 0 <= i < |known| => compare(probe, known[i].embedding).value);
    return Ok(best);
  }

  /** The api backend's comparison: never throws. */
  function ApiCompare(sqrt: real -> real): (seq<real>, seq<real>) -> Result<Option<real>, string> {
    (a: seq<real>, b: seq<real>) => Ok(CosineDistance(a, b, sqrt))
  }

  const DimensionMsg := "Embeddings must be 128-dimensional"

  /**
   * The older backend's comparison: both vectors must have 128 entries, and
   * the Euclidean distance (`faceapi.euclideanDistance`, a parameter) is
   * then a plain number.
   */
  function BackendCompare(euclid: (seq<real>, seq<real>) -> real): (seq<real>, seq<real>) -> Result<Option<real>, string> {
    (a: seq<real>, b: seq<real>) =>
      if |a| != 128 || |b| != 128 then Err(DimensionMsg) else Ok(Some(euclid(a, b)))
  }

  /** In the older backend a probe of the wrong size fails on the first candidate. */
  lemma BackendSizeGuard(a: seq<real>, b: seq<real>, euclid: (seq<real>, seq<real>) -> real)
    ensures BackendCompare(euclid)(a, b).Err? <==> |a| != 128 || |b| != 128
    ensures BackendCompare(euclid)(a, b).Err? ==> BackendCompare(euclid)(a, b).error == DimensionMsg
    ensures BackendCompare(euclid)(a, b).Ok? ==> BackendCompare(euclid)(a, b).value.Some?
  {
  }
}
