/** The face-distance computation of the attendance server (`euclideanDistance`).

    The source folds over the indices of the QUERY encoding, adding the square of the
    difference with the stored encoding at the same index, and takes the square root
    of the sum. Here the values are mathematical reals, and the square root is never
    taken: a match is decided by comparing the squared distance with the square of the
    threshold, which `SqrtComparison` shows to be the same decision. */
module Distance {

  /** The face-match threshold of the recognition scan: a distance strictly below it is a match. */
  const Threshold: real := 0.5

  /** The square of `Threshold`, against which squared distances are compared. */
  const ThresholdSquared: real := Threshold * Threshold

  /** The sum `Σ (q[i] - s[i])²` over the indices `i` of the query `q`, accumulated left to
      right as the source's `reduce` does. Entries of `s` past the length of `q` take no part;
      a stored encoding shorter than the query has no such sum (see `IsMatch`). */
  function SquaredDistance(q: seq<real>, s: seq<real>): (d: real)
    requires |q| <= |s|
    ensures d >= 0.0
    decreases |q|
  {
    if |q| == 0 then 0.0
    else
      var n := |q| - 1;
      SquaredDistance(q[..n], s) + (q[n] - s[n]) * (q[n] - s[n])
  }

  /** Whether the stored encoding `s` is recognised for the query `q`: the distance is below
      the threshold. When `s` is shorter than `q`, the source reads `undefined` past the end
      of `s`, the sum becomes NaN, and NaN compares below nothing: never a match. */
  predicate IsMatch(q: seq<real>, s: seq<real>) {
    |q| <= |s| && SquaredDistance(q, s) < ThresholdSquared
  }

  /** Comparing the distance `r` (the non-negative square root of the squared distance `d`)
      with the threshold decides exactly what comparing `d` with the squared threshold does. */
  lemma SqrtComparison(d: real, r: real)
    requires r >= 0.0 && r * r == d
    ensures r < Threshold <==> d < ThresholdSquared
  {
    if r < Threshold {
      assert r * r <= r * Threshold;
      assert r * Threshold < Threshold * Threshold;
    } else {
      assert r * r >= r * Threshold;
      assert r * Threshold >= Threshold * Threshold;
    }
  }

  /** The match test decides what the source's `Math.sqrt(sum) < 0.5` decides: for `r`, the
      non-negative square root of the squared distance, the stored encoding is recognised
      exactly when `r` is strictly below the threshold. A distance of exactly 0.5 is no match. */
  lemma IsMatchIffDistanceBelowThreshold(q: seq<real>, s: seq<real>, r: real)
    requires |q| <= |s|
    requires r >= 0.0 && r * r == SquaredDistance(q, s)
    ensures IsMatch(q, s) <==> r < Threshold
    ensures r == Threshold ==> !IsMatch(q, s)
  {
    SqrtComparison(SquaredDistance(q, s), r);
  }

  /** Dividing the square of a non-zero real by that real gives the real back. */
  lemma DivideSquare(x: real)
    requires x != 0.0
    ensures (x * x) / x == x
  {
  }

  /** A real whose square is zero is zero. */
  lemma SquareIsZero(x: real)
    requires x * x == 0.0
    ensures x == 0.0
  {
    if x != 0.0 {
      DivideSquare(x);
    }
  }

  /** The squared distance is zero exactly when the query equals the stored encoding on the
      query's indices. */
  lemma {:induction false} SquaredDistanceIsZero(q: seq<real>, s: seq<real>)
    requires |q| <= |s|
    ensures SquaredDistance(q, s) == 0.0 <==> q == s[..|q|]
    decreases |q|
  {
    if |q| > 0 {
      var n := |q| - 1;
      var prefix := SquaredDistance(q[..n], s);
      var diff := q[n] - s[n];
      assert SquaredDistance(q, s) == prefix + diff * diff;
      SquaredDistanceIsZero(q[..n], s);
      assert q == q[..n] + [q[n]];
      assert s[..|q|] == s[..n] + [s[n]];
      if SquaredDistance(q, s) == 0.0 {
        assert prefix == 0.0 && diff * diff == 0.0;
        SquareIsZero(diff);
      }
    }
  }

  /** Entries of the stored encoding past the length of the query do not change the distance. */
  lemma {:induction false} SquaredDistanceIgnoresTail(q: seq<real>, s: seq<real>, t: seq<real>)
    requires |q| <= |s|
    ensures SquaredDistance(q, s + t) == SquaredDistance(q, s)
    decreases |q|
  {
    if |q| > 0 {
      var n := |q| - 1;
      SquaredDistanceIgnoresTail(q[..n], s, t);
      assert (s + t)[n] == s[n];
    }
  }

  /** For encodings of equal length the distance does not depend on which is the query. */
  lemma {:induction false} SquaredDistanceIsSymmetric(a: seq<real>, b: seq<real>)
    requires |a| == |b|
    ensures SquaredDistance(a, b) == SquaredDistance(b, a)
    decreases |a|
  {
    if |a| > 0 {
      var n := |a| - 1;
      SquaredDistanceIgnoresTail(a[..n], b[..n], b[n..]);
      SquaredDistanceIgnoresTail(b[..n], a[..n], a[n..]);
      assert b[..n] + b[n..] == b;
      assert a[..n] + a[n..] == a;
      SquaredDistanceIsSymmetric(a[..n], b[..n]);
      assert (a[n] - b[n]) * (a[n] - b[n]) == (b[n] - a[n]) * (b[n] - a[n]);
    }
  }

  /** A stored encoding that begins with the query is always recognised for it; in particular
      an encoding is recognised for itself. */
  lemma ExactEncodingMatches(q: seq<real>, s: seq<real>)
    requires |q| <= |s| && s[..|q|] == q
    ensures IsMatch(q, s)
  {
    SquaredDistanceIsZero(q, s);
  }
}
