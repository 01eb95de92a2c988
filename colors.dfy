/** Choice of one colour per variant line by rejection: candidates are drawn
    one after another, and a candidate is kept when it is not bright and lies
    farther than `minDistance` from every colour kept before it.

    The draws from the seeded random source over the named colour palette
    are the caller's `candidates`, already converted to RGB; the sequence is
    also the bound on the number of draws. */
module Colors {
  import opened Wrappers

  /** An RGB colour, components in [0, 1]. */
  datatype Color = Color(r: real, g: real, b: real)

  const BrightThreshold: real := 0.7
  const DefaultMinDistance: real := 0.2

  /** The weighted sum 0.2126 R + 0.7152 G + 0.0722 B. */
  function Luminance(c: Color): real {
    0.2126 * c.r + 0.7152 * c.g + 0.0722 * c.b
  }

  /** `is_bright`: the luminance lies strictly above the threshold. */
  predicate IsBright(c: Color, threshold: real) {
    Luminance(c) > threshold
  }

  /** The weights sum to one: a grey of level v has luminance v, and is
      bright exactly when v is above the threshold. */
  lemma GrayLuminance(v: real, threshold: real)
    ensures Luminance(Color(v, v, v)) == v
    ensures IsBright(Color(v, v, v), threshold) <==> v > threshold
  {
  }

  /** A colour with components in [0, 1] has a luminance in [0, 1]. */
  lemma LuminanceInUnitRange(c: Color)
    requires 0.0 <= c.r <= 1.0 && 0.0 <= c.g <= 1.0 && 0.0 <= c.b <= 1.0
    ensures 0.0 <= Luminance(c) <= 1.0
  {
  }

  /** The square of the Euclidean distance between two colours; it is 0
      between a colour and itself. */
  function DistanceSq(c1: Color, c2: Color): (d: real)
    ensures d >= 0.0
    ensures c1 == c2 ==> d == 0.0
  {
    var dr, dg, db := c1.r - c2.r, c1.g - c2.g, c1.b - c2.b;
    SquareSign(dr);
    SquareSign(dg);
    SquareSign(db);
    dr * dr + dg * dg + db * db
  }

  lemma PositiveProduct(p: real, q: real)
    requires p > 0.0 && q > 0.0
    ensures p * q > 0.0
  {
  }

  lemma SquareSign(x: real)
    ensures x * x >= 0.0
    ensures x == 0.0 ==> x * x == 0.0
  {
    if x < 0.0 {
      PositiveProduct(-x, -x);
      assert x * x == (-x) * (-x);
    } else if x > 0.0 {
      PositiveProduct(x, x);
    }
  }

  /** For non-negative reals, squaring keeps a strict order. */
  lemma SquareLess(a: real, b: real)
    requires 0.0 <= a < b
    ensures a * a < b * b
  {
    assert b * b - a * a == (b - a) * (b + a);
    PositiveProduct(b - a, b + a);
  }

  /** The distance between the two colours is greater than `minDistance`,
      decided without a square root: a negative bound is always exceeded,
      and otherwise the squares compare as the distances do. */
  predicate FartherThan(c1: Color, c2: Color, minDistance: real) {
    minDistance < 0.0 || DistanceSq(c1, c2) > minDistance * minDistance
  }

  /** For any `dist` that is the Euclidean distance (non-negative, squaring
      to `DistanceSq`), `FartherThan` holds exactly when `dist > minDistance`. */
  lemma FartherThanIsDistanceAbove(c1: Color, c2: Color, minDistance: real, dist: real)
    requires dist >= 0.0 && dist * dist == DistanceSq(c1, c2)
    ensures FartherThan(c1, c2, minDistance) <==> dist > minDistance
  {
    if minDistance >= 0.0 {
      if dist > minDistance {
        SquareLess(minDistance, dist);
      } else if dist < minDistance {
        SquareLess(dist, minDistance);
      }
    }
  }

  /** Whether the candidate `c` is kept after the colours `kept`. */
  predicate Acceptable(kept: seq<Color>, c: Color, minDistance: real) {
    !IsBright(c, BrightThreshold) && forall k :: 0 <= k < |kept| ==> FartherThan(c, kept[k], minDistance)
  }

  /** Every colour is farther than `minDistance` from each colour before it. */
  predicate Separated(colors: seq<Color>, minDistance: real) {
    forall i, j :: 0 <= i < j < |colors| ==> FartherThan(colors[j], colors[i], minDistance)
  }

  predicate NoneBright(colors: seq<Color>) {
    forall i :: 0 <= i < |colors| ==> !IsBright(colors[i], BrightThreshold)
  }

  /** `sub` is `s` with some elements left out, the rest in their order. */
  predicate IsSubsequence<T(==)>(sub: seq<T>, s: seq<T>)
    decreases |s|
  {
    if sub == [] then true
    else if s == [] then false
    else if sub[|sub| - 1] == s[|s| - 1] then IsSubsequence(sub[..|sub| - 1], s[..|s| - 1])
    else IsSubsequence(sub, s[..|s| - 1])
  }

  /** The colours kept after the candidates `drawn`: the loop stops drawing
      once `numColors` colours are kept, so later draws change nothing. */
  function Kept(numColors: nat, minDistance: real, drawn: seq<Color>): seq<Color>
  {
    if drawn == [] then []
    else
      var kept := Kept(numColors, minDistance, drawn[..|drawn| - 1]);
      var c := drawn[|drawn| - 1];
      if |kept| < numColors && Acceptable(kept, c, minDistance) then kept + [c] else kept
  }

  /** What the colours kept from any draws satisfy: at most `numColors` of
      them, none bright, pairwise farther apart than `minDistance`, and in the
      order they were drawn. */
  lemma {:induction false} KeptProperties(numColors: nat, minDistance: real, drawn: seq<Color>)
    ensures |Kept(numColors, minDistance, drawn)| <= numColors
    ensures NoneBright(Kept(numColors, minDistance, drawn))
    ensures Separated(Kept(numColors, minDistance, drawn), minDistance)
    ensures IsSubsequence(Kept(numColors, minDistance, drawn), drawn)
  {
    if drawn != [] {
      var front, c := drawn[..|drawn| - 1], drawn[|drawn| - 1];
      KeptProperties(numColors, minDistance, front);
      var kept := Kept(numColors, minDistance, front);
      if |kept| < numColors && Acceptable(kept, c, minDistance) {
        assert (kept + [c])[..|kept|] == kept;
        assert drawn == front + [c];
      } else {
        SubsequenceExtend(kept, front, c);
      }
    }
  }

  lemma {:induction false} SubsequenceExtend<T>(sub: seq<T>, s: seq<T>, x: T)
    requires IsSubsequence(sub, s)
    ensures IsSubsequence(sub, s + [x])
    decreases |s|, 1
  {
    assert (s + [x])[..|s|] == s;
    if sub != [] && sub[|sub| - 1] == x {
      SubsequenceDropLast(sub, s);
    }
  }

  lemma {:induction false} SubsequenceDropLast<T>(sub: seq<T>, s: seq<T>)
    requires sub != [] && IsSubsequence(sub, s)
    ensures IsSubsequence(sub[..|sub| - 1], s)
    decreases |s|, 0
  {
    var front := s[..|s| - 1];
    assert s == front + [s[|s| - 1]];
    if sub[|sub| - 1] == s[|s| - 1] {
      SubsequenceExtend(sub[..|sub| - 1], front, s[|s| - 1]);
    } else {
      SubsequenceDropLast(sub, front);
      SubsequenceExtend(sub[..|sub| - 1], front, s[|s| - 1]);
    }
  }

  /** Once `numColors` colours are kept, further draws are ignored. */
  lemma {:induction false} KeptStaysFull(numColors: nat, minDistance: real, drawn: seq<Color>, more: seq<Color>)
    requires |Kept(numColors, minDistance, drawn)| == numColors
    ensures Kept(numColors, minDistance, drawn + more) == Kept(numColors, minDistance, drawn)
    decreases |more|
  {
    if more == [] {
      assert drawn + more == drawn;
    } else {
      var front := more[..|more| - 1];
      KeptStaysFull(numColors, minDistance, drawn, front);
      assert (drawn + more)[..|drawn + more| - 1] == drawn + front;
    }
  }

  /** With a non-negative minimum distance the kept colours are distinct. */
  lemma SeparatedColorsAreDistinct(colors: seq<Color>, minDistance: real, i: int, j: int)
    requires minDistance >= 0.0 && Separated(colors, minDistance)
    requires 0 <= i < j < |colors|
    ensures colors[i] != colors[j]
  {
    assert FartherThan(colors[j], colors[i], minDistance);
    SquareSign(minDistance);
  }

  datatype ColorError = NotEnoughCandidates

  /** The outcome `random_color_generator` has for a given stream of draws:
      the first `numColors` colours kept, or a failure when the stream runs
      out before that many are kept. */
  function Generated(numColors: nat, minDistance: real, candidates: seq<Color>): Result<seq<Color>, ColorError>
  {
    var kept := Kept(numColors, minDistance, candidates);
    if |kept| == numColors then Success(kept) else Failure(NotEnoughCandidates)
  }

  /** `random_color_generator(num_colors, min_distance, seed)`: draws
      candidates until `numColors` have been kept. Its outcome is determined
      by the draws alone, and the colours it returns are exactly `numColors`,
      none bright, pairwise farther apart than `minDistance`, in the order
      they were drawn. */
  method RandomColorGenerator(numColors: nat, minDistance: real, candidates: seq<Color>)
    returns (result: Result<seq<Color>, ColorError>)
    ensures result == Generated(numColors, minDistance, candidates)
    ensures result.Success? ==>
      && |result.value| == numColors
      && NoneBright(result.value)
      && Separated(result.value, minDistance)
      && IsSubsequence(result.value, candidates)
  {
    var colors: seq<Color> := [];
    var i := 0;
    while |colors| < numColors && i < |candidates|
      invariant 0 <= i <= |candidates|
      invariant |colors| <= numColors
      invariant colors == Kept(numColors, minDistance, candidates[..i])
    {
      var c := candidates[i];
      assert candidates[..i + 1][..i] == candidates[..i];
      if !IsBright(c, BrightThreshold) {
        var farEnough := true;
        var k := 0;
        while k < |colors|
          invariant 0 <= k <= |colors|
          invariant farEnough <==> forall m :: 0 <= m < k ==> FartherThan(c, colors[m], minDistance)
        {
          farEnough := farEnough && FartherThan(c, colors[k], minDistance);
          k := k + 1;
        }
        if farEnough {
          colors := colors + [c];
        }
      }
      i := i + 1;
    }
    KeptProperties(numColors, minDistance, candidates);
    if |colors| == numColors {
      KeptStaysFull(numColors, minDistance, candidates[..i], candidates[i..]);
      assert candidates[..i] + candidates[i..] == candidates;
      result := Success(colors);
    } else {
      assert i == |candidates| && candidates[..i] == candidates;
      result := Failure(NotEnoughCandidates);
    }
  }
}
