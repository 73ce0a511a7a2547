/** The BM25 formula and the explanation tree of internal/scoring/bm25.go, over the reals. */
module Scoring {

  datatype BM25 = BM25(k1: real, b: real)

  function DefaultBM25(): BM25
  {
    BM25(1.2, 0.75)
  }

  datatype Explanation = Explanation(description: string, value: real, details: seq<Explanation>)

  /** All that is used of the natural logarithm. */
  ghost predicate LogLaws(log: real -> real)
  {
    && log(1.0) == 0.0
    && forall x, y :: 0.0 < x < y ==> log(x) < log(y)
  }

  /** Parameters for which the formula never divides by zero. */
  predicate Sane(m: BM25, length: real, frequency: real)
  {
    m.k1 >= 0.0 && 0.0 <= m.b <= 1.0 && length >= 0.0 && frequency >= 0.0
  }

  function Idf(log: real -> real, documentFrequency: real, total: real): real
    requires documentFrequency >= 0.0
  {
    log(1.0 + (total - documentFrequency + 0.5) / (documentFrequency + 0.5))
  }

  /** The length-dependent part of the denominator. */
  function Damping(m: BM25, length: real, average: real): real
  {
    m.k1 * (1.0 - m.b + m.b * length / (if average <= 0.0 then 1.0 else average))
  }

  lemma DampingNonNegative(m: BM25, length: real, average: real)
    requires Sane(m, length, 0.0)
    ensures Damping(m, length, average) >= 0.0
  {
    var mean := if average <= 0.0 then 1.0 else average;
    var part := m.b * length;
    assert part >= 0.0;
    QuotientNonNegative(part, mean);
    ProductNonNegative(m.k1, 1.0 - m.b + part / mean);
  }

  lemma QuotientNonNegative(x: real, y: real)
    requires x >= 0.0 && y > 0.0
    ensures x / y >= 0.0
  {
  }

  lemma ProductNonNegative(x: real, y: real)
    requires x >= 0.0 && y >= 0.0
    ensures x * y >= 0.0
  {
  }

  function Score(m: BM25, log: real -> real, frequency: real, length: real, average: real,
                 documentFrequency: real, total: real): real
    requires Sane(m, length, documentFrequency)
  {
    if frequency <= 0.0 || total <= 0.0 then 0.0
    else
      DampingNonNegative(m, length, average);
      Idf(log, documentFrequency, total) * frequency * (m.k1 + 1.0) / (frequency + Damping(m, length, average))
  }

  // ----- what the formula promises

  lemma IdfPositive(log: real -> real, documentFrequency: real, total: real)
    requires LogLaws(log) && 0.0 <= documentFrequency <= total
    ensures Idf(log, documentFrequency, total) > 0.0
  {
    var q := (total - documentFrequency + 0.5) / (documentFrequency + 0.5);
    assert q > 0.0;
    assert log(1.0) < log(1.0 + q);
  }

  lemma PositiveFactor(p: real, u: real)
    requires u > 0.0 && p * u > 0.0
    ensures p > 0.0
  {
    if p <= 0.0 {
      ProductNonNegative(-p, u);
    }
  }

  /** The same product with a larger second factor has a smaller first one. */
  lemma SmallerFactor(p: real, q: real, u: real, v: real)
    requires 0.0 < u < v && p * u == q * v && p * u > 0.0
    ensures 0.0 < q < p
  {
    PositiveFactor(p, u);
    PositiveFactor(q, v);
    Scales(p, u, v);
    if q >= p {
      ProductNonNegative(q - p, v);
    }
  }

  lemma Quotient(x: real, u: real)
    requires u > 0.0
    ensures (x / u) * u == x
  {
  }

  lemma SharesAddUp(p: real, q: real, x: real, d: real, u: real)
    requires u > 0.0 && p * u == x && q * u == d && x + d == u
    ensures p + q == 1.0
  {
    assert (p + q - 1.0) * u == 0.0;
  }

  lemma ShareOfSum(x: real, d: real)
    requires x > 0.0 && d > 0.0
    ensures x / (x + d) == 1.0 - d / (x + d)
    ensures (d / (x + d)) * (x + d) == d
  {
    Quotient(x, x + d);
    Quotient(d, x + d);
    SharesAddUp(x / (x + d), d / (x + d), x, d, x + d);
  }

  /** x / (x + d) stays below one and grows with x. */
  lemma Saturates(x: real, y: real, d: real)
    requires 0.0 < x < y && d > 0.0
    ensures 0.0 < x / (x + d) < y / (y + d) < 1.0
  {
    ShareOfSum(x, d);
    ShareOfSum(y, d);
    var p, q := d / (x + d), d / (y + d);
    SmallerFactor(p, q, x + d, y + d);
    assert 1.0 * d == d;
    SmallerFactor(1.0, p, d, x + d);
  }

  lemma ScoreFactors(m: BM25, log: real -> real, frequency: real, length: real, average: real,
                     documentFrequency: real, total: real)
    requires Sane(m, length, documentFrequency)
    requires frequency > 0.0 && total > 0.0
    ensures Damping(m, length, average) >= 0.0
    ensures Score(m, log, frequency, length, average, documentFrequency, total) ==
      Idf(log, documentFrequency, total) * (m.k1 + 1.0) * (frequency / (frequency + Damping(m, length, average)))
  {
    DampingNonNegative(m, length, average);
    hide Idf, Damping;
    var i, k, d := Idf(log, documentFrequency, total), m.k1 + 1.0, frequency + Damping(m, length, average);
    assert i * frequency * k == (i * k) * frequency;
    MovedQuotient(i * k, frequency, d);
  }

  lemma MovedQuotient(c: real, x: real, y: real)
    requires y > 0.0
    ensures c * x / y == c * (x / y)
  {
    var q := x / y;
    assert c * x == (c * q) * y;
  }

  lemma Scales(c: real, x: real, y: real)
    requires c > 0.0 && x < y
    ensures c * x < c * y
  {
  }

  /** A term's contribution is positive, strictly increasing in its frequency, and strictly below
      idf * (k1 + 1), however often the term occurs. */
  lemma ScoreSaturates(m: BM25, log: real -> real, fewer: real, more: real, length: real, average: real,
                       documentFrequency: real, total: real)
    requires LogLaws(log) && Sane(m, length, documentFrequency) && m.k1 > 0.0 && m.b < 1.0
    requires documentFrequency <= total && 0.0 < total
    requires 0.0 < fewer < more
    ensures
      var less := Score(m, log, fewer, length, average, documentFrequency, total);
      var greater := Score(m, log, more, length, average, documentFrequency, total);
      0.0 < less < greater < Idf(log, documentFrequency, total) * (m.k1 + 1.0)
  {
    var d := Damping(m, length, average);
    DampingPositive(m, length, average);
    ScoreFactors(m, log, fewer, length, average, documentFrequency, total);
    ScoreFactors(m, log, more, length, average, documentFrequency, total);
    Saturates(fewer, more, d);
    IdfPositive(log, documentFrequency, total);
    hide Idf, Damping, Score, LogLaws;
    Scales(Idf(log, documentFrequency, total), 0.0, m.k1 + 1.0);
    ScaledChain(Idf(log, documentFrequency, total) * (m.k1 + 1.0), fewer / (fewer + d), more / (more + d));
  }

  lemma ScaledChain(c: real, p: real, q: real)
    requires c > 0.0 && 0.0 < p < q < 1.0
    ensures 0.0 < c * p < c * q < c
  {
    Scales(c, 0.0, p);
    Scales(c, p, q);
    Scales(c, q, 1.0);
  }

  lemma DampingPositive(m: BM25, length: real, average: real)
    requires Sane(m, length, 0.0) && m.k1 > 0.0 && m.b < 1.0
    ensures Damping(m, length, average) > 0.0
  {
    var mean := if average <= 0.0 then 1.0 else average;
    var part := m.b * length;
    assert part >= 0.0;
    QuotientNonNegative(part, mean);
    var rest := part / mean;
    assert 1.0 - m.b + rest > 0.0;
    Scales(m.k1, 0.0, 1.0 - m.b + rest);
    var inner := 1.0 - m.b + rest;
    assert m.k1 * inner > 0.0;
    assert Damping(m, length, average) == m.k1 * inner;
  }
}
