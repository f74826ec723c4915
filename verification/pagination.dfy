/** Splitting the entry list into consecutive sitemaps of at most
    `MaxUrlsInSitemap` entries, as the two nested loops of the generator do:
    page `k` holds the entries with indices in
    `[k * MaxUrlsInSitemap, min((k + 1) * MaxUrlsInSitemap, n))`. */
module Pagination {

  /** `MAX_NB_URLS_IN_SITEMAP`, the protocol's cap on the URLs of one sitemap. */
  const MaxUrlsInSitemap: nat := 50_000

  function Min(a: int, b: int): int {
    if a <= b then a else b
  }

  /** `Math.ceil(n / MAX_NB_URLS_IN_SITEMAP)`: the number of pages for `n`
      entries; no entries make no page at all. */
  function PageCount(n: nat): (r: nat)
    ensures r == 0 <==> n == 0
    ensures n <= r * MaxUrlsInSitemap
    ensures r > 0 ==> (r - 1) * MaxUrlsInSitemap < n
  {
    (n + MaxUrlsInSitemap - 1) / MaxUrlsInSitemap
  }

  /** The entries of page `k`, in input order. Every page is non-empty and
      holds at most `MaxUrlsInSitemap` entries; all pages but the last are
      full. */
  function Page<T>(xs: seq<T>, k: nat): (r: seq<T>)
    requires k < PageCount(|xs|)
    ensures 0 < |r| <= MaxUrlsInSitemap
    ensures k + 1 < PageCount(|xs|) ==> |r| == MaxUrlsInSitemap
  {
    xs[k * MaxUrlsInSitemap..Min((k + 1) * MaxUrlsInSitemap, |xs|)]
  }

  /** Up to `MaxUrlsInSitemap` entries make exactly one page, holding all
      of them. */
  lemma SinglePage<T>(xs: seq<T>)
    requires 0 < |xs| <= MaxUrlsInSitemap
    ensures PageCount(|xs|) == 1 && Page(xs, 0) == xs
  {
    assert Min(MaxUrlsInSitemap, |xs|) == |xs|;
  }

  /** All pages, in order. */
  function Pages<T>(xs: seq<T>): (r: seq<seq<T>>)
    ensures |r| == PageCount(|xs|)
  {
    seq(PageCount(|xs|), k requires 0 <= k < PageCount(|xs|) => Page(xs, k))
  }

  /** A second, recursive definition of the split: take a full page off the
      front while more than a page is left. */
  function Chunks<T>(xs: seq<T>): seq<seq<T>>
    decreases |xs|
  {
    if |xs| == 0 then []
    else if |xs| <= MaxUrlsInSitemap then [xs]
    else [xs[..MaxUrlsInSitemap]] + Chunks(xs[MaxUrlsInSitemap..])
  }

  function Flatten<T>(pages: seq<seq<T>>): seq<T>
    decreases |pages|
  {
    if |pages| == 0 then [] else pages[0] + Flatten(pages[1..])
  }

  /** `PageCount(n)` is the only page count that covers `n` entries with no
      page left empty. */
  lemma CeilingUnique(n: nat, a: nat, b: nat)
    requires n <= a * MaxUrlsInSitemap && (a - 1) * MaxUrlsInSitemap < n
    requires n <= b * MaxUrlsInSitemap && (b - 1) * MaxUrlsInSitemap < n
    ensures a == b
  {
  }

  /** Page `k` of the list is page `k - 1` of what follows the first page. */
  lemma PageShift<T>(xs: seq<T>, k: nat)
    requires |xs| > MaxUrlsInSitemap && 0 < k < PageCount(|xs|)
    ensures PageCount(|xs[MaxUrlsInSitemap..]|) == PageCount(|xs|) - 1
    ensures Page(xs, k) == Page(xs[MaxUrlsInSitemap..], k - 1)
  {
    var n := |xs|;
    var count := PageCount(n - MaxUrlsInSitemap);
    assert (count + 1) * MaxUrlsInSitemap == count * MaxUrlsInSitemap + MaxUrlsInSitemap;
    CeilingUnique(n, PageCount(n), count + 1);
    var rest := xs[MaxUrlsInSitemap..];
    var lo := (k - 1) * MaxUrlsInSitemap;
    var hi := Min(k * MaxUrlsInSitemap, |rest|);
    assert lo + MaxUrlsInSitemap == k * MaxUrlsInSitemap;
    assert hi + MaxUrlsInSitemap == Min((k + 1) * MaxUrlsInSitemap, n);
    assert rest[lo..hi] == xs[lo + MaxUrlsInSitemap..hi + MaxUrlsInSitemap];
  }

  /** The recursive split takes the pages off in the same order. */
  lemma {:induction false} ChunksArePages<T>(xs: seq<T>)
    ensures Chunks(xs) == Pages(xs)
    decreases |xs|
  {
    if 0 < |xs| <= MaxUrlsInSitemap {
      assert Page(xs, 0) == xs;
    } else if |xs| > MaxUrlsInSitemap {
      var rest := xs[MaxUrlsInSitemap..];
      ChunksArePages(rest);
      var c := Chunks(xs);
      assert c == [xs[..MaxUrlsInSitemap]] + Pages(rest);
      forall k | 0 <= k < PageCount(|xs|)
        ensures c[k] == Page(xs, k)
      {
        if k > 0 {
          PageShift(xs, k);
        }
      }
    }
  }

  /** Concatenating the chunks gives back the input. */
  lemma {:induction false} FlattenChunks<T>(xs: seq<T>)
    ensures Flatten(Chunks(xs)) == xs
    decreases |xs|
  {
    if |xs| > MaxUrlsInSitemap {
      FlattenChunks(xs[MaxUrlsInSitemap..]);
      assert xs == xs[..MaxUrlsInSitemap] + xs[MaxUrlsInSitemap..];
    } else if |xs| > 0 {
      assert Flatten(Chunks(xs)) == xs + Flatten([]);
    }
  }

  /** The pages, concatenated in order, are the input: every entry lands on
      exactly one page, in its original position. */
  lemma PagesPartitionInput<T>(xs: seq<T>)
    ensures Flatten(Pages(xs)) == xs
  {
    ChunksArePages(xs);
    FlattenChunks(xs);
  }

  /** `xs` with `f` applied to every item. */
  function MapSeq<T, U>(xs: seq<T>, f: T -> U): (r: seq<U>)
    ensures |r| == |xs|
    ensures forall i :: 0 <= i < |xs| ==> r[i] == f(xs[i])
  {
    seq(|xs|, i requires 0 <= i < |xs| => f(xs[i]))
  }

  /** The two nested loops of `generateSitemaps`: the outer one runs over
      the pages, the inner one renders the items of the current page in
      order, and each page's rendered items are wrapped into one document. */
  method RenderPages<T>(xs: seq<T>, render: T -> string, wrap: seq<string> -> string) returns (docs: seq<string>)
    ensures |docs| == PageCount(|xs|)
    ensures forall k :: 0 <= k < |docs| ==> docs[k] == wrap(MapSeq(Page(xs, k), render))
  {
    docs := [];
    var offset := 0;
    while offset < PageCount(|xs|)
      invariant 0 <= offset <= PageCount(|xs|)
      invariant |docs| == offset
      invariant forall k :: 0 <= k < offset ==> docs[k] == wrap(MapSeq(Page(xs, k), render))
    {
      var start := offset * MaxUrlsInSitemap;
      var items := [];
      var index := start;
      while index < (offset + 1) * MaxUrlsInSitemap && index < |xs|
        invariant start <= index <= Min((offset + 1) * MaxUrlsInSitemap, |xs|)
        invariant |items| == index - start
        invariant forall j :: 0 <= j < |items| ==> items[j] == render(xs[start + j])
      {
        items := items + [render(xs[index])];
        index := index + 1;
      }
      assert items == MapSeq(Page(xs, offset), render);
      docs := docs + [wrap(items)];
      offset := offset + 1;
    }
  }
}
