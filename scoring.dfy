/** `score`: the Laplace-smoothed frequency of an answer among the words of one page. */
module Scoring {
  import opened Counters

  /** `score(counts, answer)`: `(counts[answer] + 1) / (sum(counts.values()) + len(counts))`.
      A divisor of 0, as an empty Counter gives, is a ZeroDivisionError the script does
      not catch, so callers must rule it out. */
  function Score(counts: Counter, answer: string): (r: real)
    requires Total(counts) + Size(counts) > 0
    ensures r > 0.0
  {
    Ratio(Get(counts, answer) + 1, Total(counts) + Size(counts))
  }

  /** The score is a likelihood: above 0, and at most 1 since no count exceeds the total. */
  lemma ScoreBounds(counts: Counter, answer: string)
    requires Valid(counts) && Total(counts) + Size(counts) > 0
    ensures 0.0 < Score(counts, answer) <= 1.0
  {
    GetAtMostTotal(counts, answer);
    RatioBounds(Get(counts, answer) + 1, Total(counts) + Size(counts));
  }

  /** `n / d` in exact arithmetic: positive when `n` is, at most 1 when `n <= d`. */
  function Ratio(n: nat, d: nat): real
    requires d > 0
  {
    n as real / d as real
  }

  lemma RatioBounds(n: nat, d: nat)
    requires d > 0
    ensures n > 0 ==> Ratio(n, d) > 0.0
    ensures n <= d ==> Ratio(n, d) <= 1.0
  {
    DivideBoth(0.0, n as real, d as real);
    DivideBoth(n as real, d as real, d as real);
  }

  /** Over one divisor, ratios compare as their numerators do. */
  lemma RatioOrder(n1: nat, n2: nat, d: nat)
    requires d > 0
    ensures Ratio(n1, d) < Ratio(n2, d) <==> n1 < n2
    ensures Ratio(n1, d) == Ratio(n2, d) <==> n1 == n2
  {
    DivideBoth(n1 as real, n2 as real, d as real);
  }

  /** An answer the page lacks scores one over the smoothed word total. */
  lemma ScoreAbsent(counts: Counter, answer: string)
    requires Total(counts) + Size(counts) > 0
    requires answer !in counts.freq
    ensures Score(counts, answer) == Ratio(1, Total(counts) + Size(counts))
  {
  }

  lemma DivideBoth(p: real, q: real, d: real)
    requires d > 0.0
    ensures p / d < q / d <==> p < q
    ensures p / d == q / d <==> p == q
  {
    assert p / d * d == p && q / d * d == q;
    if p / d < q / d {
      assert p / d * d < q / d * d;
    }
    if p < q {
      assert p / d < q / d;
    }
  }

  /** On one page the scores of two answers compare as their counts do. */
  lemma ScoreOrder(counts: Counter, x: string, y: string)
    requires Total(counts) + Size(counts) > 0
    ensures Score(counts, x) < Score(counts, y) <==> Get(counts, x) < Get(counts, y)
    ensures Score(counts, x) == Score(counts, y) <==> Get(counts, x) == Get(counts, y)
  {
    RatioOrder(Get(counts, x) + 1, Get(counts, y) + 1, Total(counts) + Size(counts));
  }

  lemma CrossMultiply(a: real, b: real, c: real, d: real)
    requires b > 0.0 && d > 0.0
    ensures a / b < c / d <==> a * d < c * b
    ensures a / b == c / d <==> a * d == c * b
  {
    assert a / b == (a * d) / (b * d);
    assert c / d == (c * b) / (b * d);
    DivideBoth(a * d, c * b, b * d);
  }

  /** `(x + 1) / (x + d)` never falls as `x` grows, and rises strictly when `d > 1`. */
  lemma SmoothedRise(x1: real, x2: real, d: real)
    requires 0.0 <= x1 < x2 && d >= 1.0
    ensures (x1 + 1.0) / (x1 + d) <= (x2 + 1.0) / (x2 + d)
    ensures (x1 + 1.0) / (x1 + d) < (x2 + 1.0) / (x2 + d) <==> d > 1.0
  {
    CrossMultiply(x1 + 1.0, x1 + d, x2 + 1.0, x2 + d);
    assert (x1 + 1.0) * (x2 + d) == x1 * x2 + x1 * d + x2 + d;
    assert (x2 + 1.0) * (x1 + d) == x1 * x2 + x2 * d + x1 + d;
    var e := d - 1.0;
    assert x2 * d - x1 * d + x1 - x2 == (x2 - x1) * e;
    if e > 0.0 {
      MulPositive(x2 - x1, e);
    }
  }

  lemma MulPositive(a: real, b: real)
    requires a > 0.0 && b > 0.0
    ensures a * b > 0.0
  {
  }

  /** Raising the count of `answer` from one positive value to another, while the other
      counts stay, never lowers its score. The score rises strictly exactly when the page
      holds some other word; on a page whose only word is `answer` the score is 1 whatever
      the count. (A `Counter` built from words never stores a count of 0; the step from an
      absent answer is `ScoreFirstOccurrence`.) */
  lemma ScoreMonotone(rest: Counter, answer: string, k1: nat, k2: nat)
    requires Valid(rest) && answer !in rest.keys
    requires 1 <= k1 < k2
    ensures Score(Put(rest, answer, k1), answer) <= Score(Put(rest, answer, k2), answer)
    ensures Score(Put(rest, answer, k1), answer) < Score(Put(rest, answer, k2), answer) <==> Size(rest) > 0
    ensures Size(rest) == 0 ==> Score(Put(rest, answer, k1), answer) == 1.0
  {
    ScoreOfNewKey(rest, answer, k1);
    ScoreOfNewKey(rest, answer, k2);
    EmptyTotal(rest);
    SmoothedRiseAt(Score(Put(rest, answer, k1), answer), Score(Put(rest, answer, k2), answer),
                   k1 as real, k2 as real, (Total(rest) + Size(rest) + 1) as real, Size(rest));
  }

  /** The step from a page without `answer` to the same page with `k` occurrences of it:
      the score never falls, and it stays the same only when one occurrence is added to a
      page of a single word. */
  lemma ScoreFirstOccurrence(ws: seq<string>, answer: string, k: nat)
    requires ws != [] && answer !in ws && k >= 1
    ensures Size(FromSeq(ws)) > 0 && Size(Put(FromSeq(ws), answer, k)) > 0
    ensures Score(FromSeq(ws), answer) <= Score(Put(FromSeq(ws), answer, k), answer)
    ensures Score(FromSeq(ws), answer) == Score(Put(FromSeq(ws), answer, k), answer) <==> k == 1 && |ws| == 1
  {
    var rest := FromSeq(ws);
    var d := PageDivisor(ws);
    assert Size(Put(rest, answer, k)) >= Size(rest);
    FromSeqValid(ws);
    var e := Total(rest) + Size(rest);
    var s1, s2 := Score(rest, answer), Score(Put(rest, answer, k), answer);
    ScoreAbsent(rest, answer);
    PutNewKey(rest, answer, k);
    ScoreIs(Put(rest, answer, k), answer, k + 1, k + e + 1);
    AbsentToPresent(s1, s2, k, e);
  }

  /** The divisor of a page of words is at least 2, and exactly 2 for a single word. */
  lemma PageDivisor(ws: seq<string>) returns (d: nat)
    requires ws != []
    ensures d == Total(FromSeq(ws)) + Size(FromSeq(ws))
    ensures d >= 2 && (d == 2 <==> |ws| == 1)
  {
    FromSeqSize(ws);
    FromSeqTotal(ws);
    DedupLength(ws);
    var total, size := Total(FromSeq(ws)), Size(FromSeq(ws));
    assert total == |ws| && 1 <= size <= |ws|;
    d := total + size;
  }

  /** `1 / d` against `(k + 1) / (k + d + 1)`, the two sides of `ScoreFirstOccurrence`. */
  lemma AbsentToPresent(s1: real, s2: real, k: nat, d: nat)
    requires k >= 1 && d >= 2
    requires s1 == Ratio(1, d) && s2 == Ratio(k + 1, k + d + 1)
    ensures s1 <= s2
    ensures s1 == s2 <==> k == 1 && d == 2
  {
    var kr, dr := k as real, d as real;
    assert s1 == 1.0 / dr;
    assert s2 == (kr + 1.0) / (kr + dr + 1.0);
    CrossMultiply(1.0, dr, kr + 1.0, kr + dr + 1.0);
    GapSign(kr, dr);
  }

  lemma GapSign(kr: real, dr: real)
    requires kr >= 1.0 && dr >= 2.0
    ensures (kr + 1.0) * dr >= 1.0 * (kr + dr + 1.0)
    ensures (kr + 1.0) * dr == 1.0 * (kr + dr + 1.0) <==> kr == 1.0 && dr == 2.0
  {
    var gap := (kr + 1.0) * dr - (kr + dr + 1.0);
    assert gap == (kr - 1.0) * (dr - 1.0) + (dr - 2.0);
    if kr > 1.0 {
      MulPositive(kr - 1.0, dr - 1.0);
    }
  }

  lemma EmptyTotal(c: Counter)
    ensures Size(c) == 0 ==> Total(c) == 0
  {
  }

  /** `SmoothedRise` for two scores `s1`, `s2` of that form, on a page of `size` other keys. */
  lemma SmoothedRiseAt(s1: real, s2: real, x1: real, x2: real, d: real, size: nat)
    requires 0.0 <= x1 < x2 && d >= 1.0 && (d > 1.0 <==> size > 0)
    requires s1 == (x1 + 1.0) / (x1 + d) && s2 == (x2 + 1.0) / (x2 + d)
    ensures s1 <= s2
    ensures s1 < s2 <==> size > 0
    ensures size == 0 ==> s1 == 1.0
  {
    SmoothedRise(x1, x2, d);
    if size == 0 {
      assert d == 1.0;
      assert (x1 + 1.0) / (x1 + d) == 1.0;
    }
  }

  /** The score of a key just added with count `k`. */
  lemma ScoreOfNewKey(rest: Counter, answer: string, k: nat)
    requires Valid(rest) && answer !in rest.keys
    ensures Score(Put(rest, answer, k), answer) ==
            (k as real + 1.0) / (k as real + (Total(rest) + Size(rest) + 1) as real)
  {
    var c := Put(rest, answer, k);
    PutNewKey(rest, answer, k);
    ScoreIs(c, answer, k + 1, k + Total(rest) + Size(rest) + 1);
    assert Ratio(k + 1, k + Total(rest) + Size(rest) + 1) ==
           (k as real + 1.0) / (k as real + (Total(rest) + Size(rest) + 1) as real);
  }

  lemma PutNewKey(rest: Counter, answer: string, k: nat)
    requires Valid(rest) && answer !in rest.keys
    ensures Get(Put(rest, answer, k), answer) == k
    ensures Total(Put(rest, answer, k)) + Size(Put(rest, answer, k)) == k + Total(rest) + Size(rest) + 1
  {
    assert Get(rest, answer) == 0;
    PutValid(rest, answer, k);
  }

  /** The score as a quotient of its numerator and divisor. */
  lemma ScoreIs(counts: Counter, answer: string, n: nat, d: nat)
    requires Get(counts, answer) + 1 == n && Total(counts) + Size(counts) == d && d > 0
    ensures Score(counts, answer) == Ratio(n, d)
  {
  }
}
