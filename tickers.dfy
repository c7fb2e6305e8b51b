/**
 * `load_tickers`: the watch list read from `tickers.txt`, one symbol per
 * line. The file's lines are an input here; `None` stands for a file that
 * could not be opened or read.
 */
module Tickers {
  import opened Wrappers
  import opened Text

  /** The list used when the file cannot be read. */
  const FallbackTickers: seq<string> := ["MSFT", "AAPL", "NVDA"]

  /** What every symbol taken from the file looks like. */
  predicate IsTicker(t: string) {
    t != [] && IsStripped(t) && IsUpperCase(t)
  }

  /** What one line contributes: its stripped, upper-cased text, unless the
      line is blank. */
  function TickerOf(line: string): (tickers: seq<string>)
    ensures |tickers| <= 1
  {
    var t := Strip(line);
    if t != [] then [Upper(t)] else []
  }

  /** The comprehension over the file's lines, in file order. */
  function NormaliseLines(lines: seq<string>): (tickers: seq<string>)
    ensures |tickers| <= |lines|
  {
    if lines == [] then [] else TickerOf(lines[0]) + NormaliseLines(lines[1..])
  }

  lemma UpperTicker(s: string)
    requires s != [] && IsStripped(s)
    ensures IsTicker(Upper(s))
  {
    UpperSpec(s);
  }

  lemma TickerOfValid(line: string)
    ensures forall t | t in TickerOf(line) :: IsTicker(t)
  {
    var s := Strip(line);
    if s != [] {
      assert TickerOf(line) == [Upper(s)];
      UpperTicker(s);
    } else {
      assert TickerOf(line) == [];
    }
  }

  /** Every symbol taken from the file is non-empty, stripped and upper-case. */
  lemma {:induction false} NormaliseLinesValid(lines: seq<string>)
    ensures forall t | t in NormaliseLines(lines) :: IsTicker(t)
    decreases |lines|
  {
    if lines != [] {
      var h, rest := TickerOf(lines[0]), NormaliseLines(lines[1..]);
      TickerOfValid(lines[0]);
      NormaliseLinesValid(lines[1..]);
      assert NormaliseLines(lines) == h + rest;
      assert forall t | t in h + rest :: t in h || t in rest;
    }
  }

  /** The symbols keep the file's line order. */
  lemma {:induction false} NormaliseLinesConcat(a: seq<string>, b: seq<string>)
    ensures NormaliseLines(a + b) == NormaliseLines(a) + NormaliseLines(b)
    decreases |a|
  {
    if a != [] {
      assert (a + b)[0] == a[0];
      assert (a + b)[1..] == a[1..] + b;
      NormaliseLinesConcat(a[1..], b);
      var h := TickerOf(a[0]);
      assert h + (NormaliseLines(a[1..]) + NormaliseLines(b))
          == (h + NormaliseLines(a[1..])) + NormaliseLines(b);
    } else {
      assert a + b == b;
    }
  }

  /** One line gives its stripped, upper-cased text, or nothing when blank. */
  lemma NormaliseLine(line: string)
    ensures NormaliseLines([line]) == if AllSpace(line) then [] else [Upper(Strip(line))]
  {
    StripEmptyIff(line);
    assert [line][1..] == [];
  }

  lemma TickerOfEmptyIff(line: string)
    ensures TickerOf(line) == [] <==> AllSpace(line)
  {
    StripEmptyIff(line);
  }

  /** A file yields no symbol exactly when every line is blank. */
  lemma {:induction false} NormaliseLinesEmptyIff(lines: seq<string>)
    ensures NormaliseLines(lines) == [] <==> AllBlank(lines)
    decreases |lines|
  {
    if lines != [] {
      var h, rest := TickerOf(lines[0]), NormaliseLines(lines[1..]);
      assert |NormaliseLines(lines)| == |h| + |rest|;
      TickerOfEmptyIff(lines[0]);
      NormaliseLinesEmptyIff(lines[1..]);
      AllBlankUncons(lines);
    }
  }

  /** `load_tickers(path, limit)`. A truthy `limit` (present and non-zero)
      slices the list as `lines[:limit]` does, so a negative one drops that
      many symbols from the end; `None` or `0` keeps every symbol. */
  function LoadTickers(file: Option<seq<string>>, limit: Option<int>): (tickers: seq<string>)
    ensures file.None? ==> tickers == FallbackTickers
    ensures file.Some? ==> tickers <= NormaliseLines(file.value)
    ensures file.Some? ==> forall t | t in tickers :: IsTicker(t)
    ensures file.Some? && (limit.None? || limit == Some(0)) ==>
              tickers == NormaliseLines(file.value)
    ensures file.Some? && limit.Some? && limit.value > 0 ==>
              |tickers| == Min(limit.value, |NormaliseLines(file.value)|)
    ensures file.Some? && limit.Some? && limit.value < 0 ==>
              |tickers| == if |NormaliseLines(file.value)| + limit.value >= 0
                           then |NormaliseLines(file.value)| + limit.value else 0
  {
    match file
    case None => FallbackTickers
    case Some(lines) =>
      var all := NormaliseLines(lines);
      NormaliseLinesValid(lines);
      if limit.Some? && limit.value != 0 then all[..SliceStop(|all|, limit.value)] else all
  }

  /** A readable file whose lines are all blank gives the empty list, not the
      fallback list. */
  lemma LoadTickersBlankFile(lines: seq<string>, limit: Option<int>)
    requires AllBlank(lines)
    ensures LoadTickers(Some(lines), limit) == []
    ensures LoadTickers(Some(lines), limit) != LoadTickers(None, limit)
  {
    NormaliseLinesEmptyIff(lines);
  }
}
