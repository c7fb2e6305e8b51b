/**
 * The price snapshot (`get_stock_price`) and the opportunity score
 * (`score_opportunity`). Prices are exact reals: the rounding of Python
 * floats is not modelled.
 */
module Scoring {
  import opened Wrappers
  import opened Text

  datatype PriceSnapshot = PriceSnapshot(ticker: string, todayClose: real,
                                         yesterdayClose: real, changePct: real)

  /** The snapshot built from the history's closing prices, oldest first.
      Fewer than two closes give no snapshot, and so does a previous close of
      zero, whose division raises and is caught. */
  function StockPrice(ticker: string, closes: seq<real>): (p: Option<PriceSnapshot>)
    ensures p.None? <==> |closes| < 2 || closes[|closes| - 2] == 0.0
    ensures p.Some? ==>
              p.value.ticker == Upper(ticker) &&
              p.value.todayClose == closes[|closes| - 1] &&
              p.value.yesterdayClose == closes[|closes| - 2] &&
              p.value.changePct * p.value.yesterdayClose
                == (p.value.todayClose - p.value.yesterdayClose) * 100.0
  {
    if |closes| < 2 then None
    else
      var today, yesterday := closes[|closes| - 1], closes[|closes| - 2];
      if yesterday == 0.0 then None
      else Some(PriceSnapshot(Upper(ticker), today, yesterday,
                              ((today - yesterday) / yesterday) * 100.0))
  }

  /** The price-change input of the score: absent without a snapshot. */
  function ChangeOf(p: Option<PriceSnapshot>): Option<real> {
    match p
    case None => None
    case Some(s) => Some(s.changePct)
  }

  function Abs(x: real): real {
    if x < 0.0 then -x else x
  }

  /** The price moved by more than five percent either way. */
  predicate BigMove(changePct: Option<real>) {
    changePct.Some? && Abs(changePct.value) > 5.0
  }

  /** The part of a count that adds to the score: nothing unless positive. */
  function Positive(x: int): nat {
    if x > 0 then x else 0
  }

  /** The score in closed form, with the weights 3, 2, 1 and 2. It is never
      negative, and it is zero exactly when nothing of note happened. */
  function OpportunityScore(changePct: Option<real>, filingsCount: int, newsCount: int,
                            tradesCount: int): (s: int)
    ensures s >= 0
    ensures s == 0 <==>
              !BigMove(changePct) && filingsCount <= 0 && newsCount <= 0 && tradesCount <= 0
  {
    (if BigMove(changePct) then 3 else 0)
      + 2 * Positive(filingsCount) + Positive(newsCount) + 2 * Positive(tradesCount)
  }

  /** `score_opportunity`: guarded additions to an accumulator. */
  method ScoreOpportunity(changePct: Option<real>, filingsCount: int, newsCount: int,
                          tradesCount: int) returns (score: int)
    ensures score == OpportunityScore(changePct, filingsCount, newsCount, tradesCount)
    ensures score >= 0
    ensures filingsCount >= 0 && newsCount >= 0 && tradesCount >= 0 ==>
              score == (if BigMove(changePct) then 3 else 0)
                       + 2 * filingsCount + newsCount + 2 * tradesCount
  {
    score := 0;
    if changePct.Some? && Abs(changePct.value) > 5.0 {
      score := score + 3;
    }
    if filingsCount > 0 {
      score := score + filingsCount * 2;
    }
    if newsCount > 0 {
      score := score + newsCount;
    }
    if tradesCount > 0 {
      score := score + tradesCount * 2;
    }
  }

  /** Raising any one count never lowers the score. */
  lemma ScoreMonotone(changePct: Option<real>, f: int, n: int, t: int, f': int, n': int, t': int)
    requires f <= f' && n <= n' && t <= t'
    ensures OpportunityScore(changePct, f, n, t) <= OpportunityScore(changePct, f', n', t')
  {
  }

  /** Crossing the five-percent threshold adds exactly 3; absent price data adds 0. */
  lemma ScorePriceTerm(changePct: Option<real>, f: int, n: int, t: int)
    ensures OpportunityScore(changePct, f, n, t)
              == OpportunityScore(None, f, n, t) + (if BigMove(changePct) then 3 else 0)
    ensures BigMove(changePct) <==>
              changePct.Some? && (changePct.value > 5.0 || changePct.value < -5.0)
  {
  }

  /** A negative count contributes the same as a zero count. */
  lemma ScoreIgnoresNegativeCounts(changePct: Option<real>, f: int, n: int, t: int)
    ensures OpportunityScore(changePct, f, n, t)
              == OpportunityScore(changePct, Positive(f), Positive(n), Positive(t))
  {
  }

  /** The price term read off the closing prices: with at least two closes
      and a non-zero previous close, the move counts exactly when the day's
      difference is more than five percent of the previous close; otherwise
      there is no snapshot and the term is absent. */
  lemma ScorePriceFromCloses(ticker: string, closes: seq<real>)
    ensures var p := ChangeOf(StockPrice(ticker, closes));
            if |closes| < 2 || closes[|closes| - 2] == 0.0 then p.None?
            else
              var today, yesterday := closes[|closes| - 1], closes[|closes| - 2];
              BigMove(p) <==> Abs(today - yesterday) * 100.0 > 5.0 * Abs(yesterday)
  {
    if |closes| >= 2 && closes[|closes| - 2] != 0.0 {
      var s := StockPrice(ticker, closes).value;
      var today, yesterday := closes[|closes| - 1], closes[|closes| - 2];
      var c := s.changePct;
      assert ChangeOf(StockPrice(ticker, closes)) == Some(c);
      assert c * yesterday == (today - yesterday) * 100.0;
      AbsMul(c, yesterday);
      AbsMul(today - yesterday, 100.0);
      AboveFive(Abs(c), Abs(yesterday), Abs(today - yesterday) * 100.0);
    }
  }

  /** Scaling by a positive factor keeps the comparison with five. */
  lemma AboveFive(a: real, y: real, l: real)
    requires y > 0.0 && a * y == l
    ensures a > 5.0 <==> l > 5.0 * y
  {
    assert (a - 5.0) * y == l - 5.0 * y;
    if a > 5.0 {
      assert (a - 5.0) * y > 0.0;
    } else {
      assert (5.0 - a) * y >= 0.0;
    }
  }

  lemma AbsMul(x: real, y: real)
    ensures Abs(x * y) == Abs(x) * Abs(y)
  {
  }

  /** Two worked cases: no price data with 3 filings, no news and 1 trade
      scores 8; a change of -7.5% with 2 news items and nothing else scores 5. */
  lemma ScoreExamples()
    ensures OpportunityScore(None, 3, 0, 1) == 8
    ensures OpportunityScore(Some(-7.5), 0, 2, 0) == 5
    ensures OpportunityScore(Some(5.0), 0, 0, 0) == 0
  {
  }
}
