/**
 * `get_google_news_rss`: the first entries of a parsed news feed. Building
 * the search URL and running the feed parser are outside the model; the
 * input is the parser's list of entries.
 */
module News {
  import opened Wrappers
  import opened Text

  /** A parsed feed entry; any of its fields may be missing. */
  datatype FeedEntry = FeedEntry(title: Option<string>, link: Option<string>,
                                 published: Option<string>)

  datatype NewsItem = NewsItem(title: string, link: string, published: string)

  /** How many items are asked for when the caller does not say. */
  const DefaultMaxItems: int := 5

  /** Reading `entry.title` or `entry.link` raises when the field is missing;
      `published` is read with a default instead. */
  predicate Readable(e: FeedEntry) {
    e.title.Some? && e.link.Some?
  }

  function ItemOf(e: FeedEntry): (item: NewsItem)
    requires Readable(e)
    ensures item.title == e.title.value && item.link == e.link.value
    ensures e.published.Some? ==> item.published == e.published.value
    ensures e.published.None? ==> item.published == ""
  {
    NewsItem(e.title.value, e.link.value, e.published.GetOr(""))
  }

  /** The items for `feed.entries[:maxItems]`, in feed order. When one of those
      entries lacks a title or a link the handler returns no items at all. */
  method GoogleNewsItems(entries: seq<FeedEntry>, maxItems: int) returns (items: seq<NewsItem>)
    ensures var n := SliceStop(|entries|, maxItems);
            (forall k | 0 <= k < n :: Readable(entries[k])) ==>
              |items| == n && forall k | 0 <= k < n :: items[k] == ItemOf(entries[k])
    ensures var n := SliceStop(|entries|, maxItems);
            (exists k | 0 <= k < n :: !Readable(entries[k])) ==> items == []
  {
    var n := SliceStop(|entries|, maxItems);
    items := [];
    for k := 0 to n
      invariant |items| == k
      invariant forall j | 0 <= j < k :: Readable(entries[j]) && items[j] == ItemOf(entries[j])
    {
      var entry := entries[k];
      if entry.title.None? || entry.link.None? {
        return [];
      }
      items := items + [NewsItem(entry.title.value, entry.link.value, entry.published.GetOr(""))];
    }
  }

  /** `get_google_news_rss(query)` without `max_items`: at most the first
      five entries, all of them when every one is readable. */
  method DefaultGoogleNewsItems(entries: seq<FeedEntry>) returns (items: seq<NewsItem>)
    ensures |items| <= 5
    ensures (forall k | 0 <= k < Min(5, |entries|) :: Readable(entries[k])) ==>
              |items| == Min(5, |entries|) &&
              forall k | 0 <= k < |items| :: items[k] == ItemOf(entries[k])
    ensures (exists k | 0 <= k < Min(5, |entries|) :: !Readable(entries[k])) ==> items == []
  {
    items := GoogleNewsItems(entries, DefaultMaxItems);
  }
}
