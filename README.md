# Investment alert: a Dafny model of its data handling

`investment_alert.py` is a batch script that fetches a stock's price change,
recent SEC 13F and Form 4 filings and Google News headlines, combines the
counts into an "opportunity score" and sends the result to Telegram
recipients. This project models, with the network and the parsers removed,
the deterministic logic of the script:

- `Text` — Python's `str.strip()`, `str.upper()` and `str.split(sep)` on a one-character separator, over
  ASCII, and the stop index of a list slice `xs[:stop]` (negative stops count
  from the end).
- `Notifier` — parsing the comma-separated `TELEGRAM_CHAT_IDS` setting, and
  `send_telegram_message`: print locally when no bot is configured, otherwise
  one send attempt per recipient, in order, continuing after a failure.
- `Tickers` — `load_tickers` from the already-read lines of `tickers.txt`
  (`None` when the file cannot be read), with the optional `limit`.
- `Scoring` — the price snapshot of `get_stock_price` over exact reals, and
  `score_opportunity`, an accumulator method proved equal to a closed form.
- `Filings` — the table scrape shared by `get_recent_13f_filings` and
  `get_recent_politician_trades`: one routine over already-parsed rows of
  cells, written as the source's loop and proved against a compositional
  specification function.
- `News` — the loop of `get_google_news_rss` over the parsed feed entries.

A ticker file that can be read but holds only blank lines yields the empty
list; with an integer `limit` or none, only a read failure yields
`["MSFT","AAPL","NVDA"]` (`Tickers.LoadTickersBlankFile`).

## Model

| member | source | states |
|---|---|---|
| `Text.Strip` | investment_alert.py:15 | `strip()` returns a stripped string (neither end is whitespace) no longer than its input |
| `Text.StripIsSlice` | investment_alert.py:15 | the stripped text is a contiguous piece of the input and everything cut from either end is whitespace |
| `Text.StripEmptyIff` | investment_alert.py:15 | stripping gives the empty string exactly when the input is all whitespace, so `if c.strip()` drops exactly the blank pieces |
| `Text.StripFixesStripped` | investment_alert.py:15 | stripping an already stripped string changes nothing |
| `Text.StripChars` | investment_alert.py:15 | stripping introduces no character that was not in the input |
| `Text.Upper` | investment_alert.py:118 | `upper()` keeps the length; `Text.UpperSpec` and `Text.UpperKeepsOthers` say which characters change |
| `Text.UpperSpec` | investment_alert.py:118 | `upper()` turns each lower-case ASCII letter into its capital (code point minus 32), leaves no lower-case letter and keeps a stripped string stripped |
| `Text.UpperKeepsOthers` | investment_alert.py:118 | `upper()` changes no character other than a lower-case letter |
| `Text.Split` | investment_alert.py:15 | `split(",")` returns one piece more than the number of commas, like `s.count(",") + 1`; its pieces are fixed by `Text.JoinSplit` and `Text.SplitPiecesFree` |
| `Text.SplitPiecesFree` | investment_alert.py:15 | no piece of `split(",")` contains the separator |
| `Text.TrimStartCut` | investment_alert.py:15 | the left strip removes only whitespace |
| `Text.TrimEndCut` | investment_alert.py:15 | the right strip removes only whitespace |
| `Text.JoinSplit` | investment_alert.py:15 | joining the pieces of a split with the separator gives back the original string |
| `Text.SplitJoin` | investment_alert.py:15 | splitting the join of separator-free pieces gives back exactly those pieces |
| `Text.SplitConcat` | investment_alert.py:15 | the pieces of `a,b` are the pieces of `a` followed by the pieces of `b` |
| `Text.SplitNoSep` | investment_alert.py:15 | a string without the separator splits into itself alone |
| `Text.SliceStopKeeps` | investment_alert.py:73 | element `k` of a list of `n` survives `xs[:stop]` exactly when it lies before the stop, a negative stop being a position `stop` counted back from the end (element `k` is also element `k - n`) |
| `Notifier.KeepPiece` | investment_alert.py:15 | one piece contributes at most one ID; `Notifier.ParseChatIdsPiece` and `Notifier.KeepPieceEmptyIff` say which |
| `Notifier.KeepPieceEmptyIff` | investment_alert.py:15 | a piece contributes nothing exactly when it is all whitespace, the `if c.strip()` filter |
| `Notifier.StrippedPieces` | investment_alert.py:15 | the comprehension keeps at most one ID per piece |
| `Notifier.StrippedPiecesValid` | investment_alert.py:15 | for any list of pieces every kept ID is non-empty and stripped; when no piece has a comma, no kept ID has one either |
| `Notifier.ParseChatIds` | investment_alert.py:11-15 | every recipient ID is non-empty, stripped and free of commas, and there are no more IDs than comma-separated pieces |
| `Notifier.ParseChatIdsConcat` | investment_alert.py:15 | IDs keep the order of the pieces: the IDs of `a,b` are the IDs of `a` followed by the IDs of `b` |
| `Notifier.ParseChatIdsPiece` | investment_alert.py:15 | a single piece yields its stripped text, or nothing when it is blank |
| `Notifier.ParseChatIdsEmptyIff` | investment_alert.py:11-15 | the recipient list is empty exactly when the setting holds only commas and whitespace, including the unset (empty) setting |
| `Notifier.StrippedPiecesConcat` | investment_alert.py:15 | the comprehension distributes over concatenation of the piece list |
| `Notifier.StrippedPiecesEmptyIff` | investment_alert.py:15 | the comprehension keeps nothing exactly when every piece is blank |
| `Notifier.SplitBlankIff` | investment_alert.py:15 | every piece of the split is blank exactly when the setting is only commas and whitespace |
| `Notifier.SendTelegramMessage` | investment_alert.py:17-29 | without a non-empty token and at least one recipient the message goes to the console and nothing is sent; otherwise exactly one attempt per recipient, in order, each recording whether that send succeeded, with failures not stopping the loop |
| `Tickers.TickerOf` | investment_alert.py:118 | one line contributes at most one symbol; `Tickers.NormaliseLine`, `Tickers.TickerOfValid` and `Tickers.TickerOfEmptyIff` say which |
| `Tickers.TickerOfValid` | investment_alert.py:118 | what a line contributes is non-empty, stripped and upper-case |
| `Tickers.TickerOfEmptyIff` | investment_alert.py:118 | a line contributes nothing exactly when it is all whitespace |
| `Tickers.NormaliseLines` | investment_alert.py:118 | at most one symbol per line |
| `Tickers.NormaliseLinesValid` | investment_alert.py:118 | every symbol taken from the file is non-empty, stripped and upper-case |
| `Tickers.NormaliseLinesConcat` | investment_alert.py:118 | symbols keep the file's line order: the symbols of `a + b` are those of `a` followed by those of `b` |
| `Tickers.NormaliseLine` | investment_alert.py:118 | one line gives its stripped, upper-cased text, or nothing when blank |
| `Tickers.NormaliseLinesEmptyIff` | investment_alert.py:118 | no symbol is produced exactly when every line is blank |
| `Tickers.LoadTickers` | investment_alert.py:115-122 | a read failure gives exactly `MSFT, AAPL, NVDA`; otherwise the result is a prefix of the normalised lines, all valid symbols, the whole list for `limit` `None` or `0`, `min(limit, n)` symbols for a positive limit and `max(0, n + limit)` for a negative one |
| `Tickers.LoadTickersBlankFile` | investment_alert.py:116-122 | a readable file of blank lines gives the empty list, which differs from the fallback list |
| `Scoring.StockPrice` | investment_alert.py:32-44 | no snapshot with fewer than two closes or a zero previous close; otherwise today's and yesterday's closes are the last two, the ticker is upper-cased and `change * yesterday = (today - yesterday) * 100` |
| `Scoring.ScoreOpportunity` | investment_alert.py:102-112 | the accumulated score equals the closed form `3·[|change| > 5] + 2·max(0,f) + max(0,n) + 2·max(0,t)`, is never negative, and for non-negative counts is `3·[|change| > 5] + 2f + n + 2t` |
| `Scoring.OpportunityScore` | investment_alert.py:102-112 | the score is never negative, whatever the counts, and it is zero exactly when the move is within ±5% or absent and no count is positive |
| `Scoring.ScorePriceFromCloses` | investment_alert.py:35-40 | with two closes and a non-zero previous close the price term counts exactly when the day's difference exceeds five percent of the previous close; otherwise there is no change to score |
| `Scoring.ScoreMonotone` | investment_alert.py:106-111 | raising any of the three counts never lowers the score |
| `Scoring.ScorePriceTerm` | investment_alert.py:104-105 | the price term adds exactly 3 when the change is beyond ±5% and nothing otherwise, in particular nothing without price data |
| `Scoring.ScoreIgnoresNegativeCounts` | investment_alert.py:106-111 | a negative count contributes the same as a zero count |
| `Scoring.ScoreExamples` | investment_alert.py:102-112 | no price, 3 filings, 0 news, 1 trade scores 8; a -7.5% change with 2 news scores 5; a change of exactly 5% adds nothing |
| `Filings.RowOutcomeOf` | investment_alert.py:55-61 | a row is skipped exactly when it has fewer than five cells, and fails exactly when it has five or more and cell 1's link has no `href`; `Filings.EmittedFields` gives the record otherwise |
| `Filings.TableRecords` | investment_alert.py:53-65 | a failed fetch gives the empty listing, and a page gives at most one record per row after the header |
| `Filings.Extract` | investment_alert.py:54-61 | extraction emits at most one record per row |
| `Filings.ExtractFailsIff` | investment_alert.py:59-65 | the listing is abandoned exactly when some row with five or more cells has a link in cell 1 without `href` |
| `Filings.ExtractConcat` | investment_alert.py:54-61 | the records of `a + b` are those of `a` followed by those of `b` (row order is kept), and failure of either part fails the whole |
| `Filings.ExtractRow` | investment_alert.py:55-61 | a single row yields nothing when short, one record when it has a usable link or none, and failure for a link without `href` |
| `Filings.ShortRowIgnored` | investment_alert.py:88-90 | inserting a row of fewer than five cells anywhere after the header leaves the listing unchanged |
| `Filings.HeaderIgnored` | investment_alert.py:54 | the first row never influences the listing |
| `Filings.BrokenLinkEmpties` | investment_alert.py:93-99 | a body row whose cell 1 has a link without `href` makes the whole listing empty |
| `Filings.RecordProvenance` | investment_alert.py:57-61 | every record was emitted by some row of the input |
| `Filings.EmittedFields` | investment_alert.py:91-95 | an emitted record comes from a row of five or more cells, with date = stripped cell 3, name = stripped cell 1, and link = `https://www.sec.gov` + `href`, or `""` when cell 1 has no link |
| `Filings.ScrapeFilingTable` | investment_alert.py:47-65 | the loop returns exactly the specified listing: empty on a failed fetch, otherwise the records of the body rows, or empty on a missing `href` |
| `News.ItemOf` | investment_alert.py:74 | an item's title and link are the entry's, and `published` is the entry's or `""` when missing |
| `News.DefaultGoogleNewsItems` | investment_alert.py:68-78 | called without `max_items` the feed gives at most five items: the first five entries (or all of them, when fewer) when those are readable, and none otherwise |
| `News.GoogleNewsItems` | investment_alert.py:68-78 | when every entry in `entries[:max_items]` has a title and a link, the result has exactly that many items, in feed order, each built from its entry; otherwise the result is empty |

## Left out

- The HTTP requests, BeautifulSoup, `feedparser.parse` and `yfinance` are foreign code and network I/O: the filing scrape takes the page as parsed rows (`None` for any fetch or parse failure), the news loop takes the parsed entries and the price snapshot takes the list of closing prices.
- `Scoring.StockPrice`: prices are exact reals, so it does not model floating-point rounding, NaN or infinities; `Scoring.BigMove` therefore compares exactly against 5.
- `Text.Strip`, `Text.UpperSpec`: only ASCII whitespace and ASCII letters are modelled; Python's Unicode whitespace and case mapping (for example `ß` to `SS`) are not.
- Reading `TELEGRAM_TOKEN`, `TELEGRAM_CHAT_IDS` and `APP_LANG` from the environment and opening `tickers.txt` are environment I/O: their values are parameters.
- `Notifier.SendTelegramMessage`: the Telegram service is a parameter `outcomes`, one result per send call in order, so every call succeeds or fails on its own; which exception a failure raises and the printed log lines are not modelled.
- The message text built by `run_and_notify` (two languages, float formatting with two decimals) is display text and is not modelled; the counts it passes to the scorer are lengths, so non-negative, and `Scoring.ScoreOpportunity` covers that case.
- `Tickers.LoadTickers`: `limit` is modelled as an optional integer. A truthy `limit` that is not an integer (`2.5`, `"3"`) makes the slice raise `TypeError` inside the `try`, so the source returns the fallback list for a file it read without error; the `Option<int>` parameter cannot express that case.
- The printing of error messages in every exception handler is not modelled; only the value returned is.
