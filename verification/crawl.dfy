/** Crawl control: fetching one catalog page, the two pagination
    strategies, and the flattening of per-page results into the output
    lines. The browser is abstracted as a page oracle `Site`: for each page
    number it either yields the page's listing cards or fails. */
module Crawl {
  import opened Listing

  /** What loading one page gives: its listing cards, or a failure (an
      exception raised while the page loads, is parsed into a soup, or is
      waited on; the later `parse_soup` call lies outside that guard). */
  datatype Fetch = Rendered(cards: seq<Card>) | Failed

  /** The catalog as seen through the browser, page number by page number. */
  type Site = nat -> Fetch

  /** `scrape_page`: the page's records, or no records when loading failed. */
  function ScrapePage(site: Site, page: nat): (r: seq<Record>)
    ensures site(page).Failed? ==> r == []
    ensures site(page).Rendered? ==> r == ParseSoup(site(page).cards)
    ensures site(page).Rendered? ==> |r| <= |site(page).cards|
  {
    match site(page)
    case Failed => []
    case Rendered(cards) => ParseSoup(cards)
  }

  /** The scan from `page` on, for at most `fuel` pages, where `load` gives
      each page's records: each non-empty page is collected and the first
      empty one ends the scan. */
  function ScanFrom<T>(load: nat -> seq<T>, page: nat, fuel: nat): (r: seq<seq<T>>)
    ensures |r| <= fuel
    decreases fuel
  {
    if fuel == 0 then []
    else
      var data := load(page);
      if data == [] then [] else [data] + ScanFrom(load, page + 1, fuel - 1)
  }

  /** Every collected page is `load` of its page number, and not empty. */
  lemma {:induction false} ScanCollects<T>(load: nat -> seq<T>, page: nat, fuel: nat, i: int, p: nat)
    requires 0 <= i < |ScanFrom(load, page, fuel)| && p == page + i
    ensures ScanFrom(load, page, fuel)[i] == load(p) && load(p) != []
    decreases fuel
  {
    if i > 0 {
      ScanCollects(load, page + 1, fuel - 1, i - 1, p);
    }
  }

  /** A scan that ends before its fuel does ends on an empty page. */
  lemma {:induction false} ScanStops<T>(load: nat -> seq<T>, page: nat, fuel: nat, last: nat)
    requires |ScanFrom(load, page, fuel)| < fuel
    requires last == page + |ScanFrom(load, page, fuel)|
    ensures load(last) == []
    decreases fuel
  {
    if load(page) != [] {
      ScanStops(load, page + 1, fuel - 1, last);
    }
  }

  /** A scan that starts at `page` and meets its first empty page `m` pages
      later, within the fuel, collects exactly those `m` pages. */
  lemma {:induction false} ScanStopsAtFirstEmpty<T>(load: nat -> seq<T>, page: nat, fuel: nat, m: nat)
    requires m < fuel
    requires load(page + m) == []
    requires forall p :: page <= p < page + m ==> load(p) != []
    ensures |ScanFrom(load, page, fuel)| == m
    decreases m
  {
    if m > 0 {
      assert load(page) != [];
      ScanStopsAtFirstEmpty(load, page + 1, fuel - 1, m - 1);
    }
  }

  /** Pages 1..n of `load`, in page order. */
  function Pages<T>(load: nat -> seq<T>, n: nat): (r: seq<seq<T>>)
    ensures |r| == n
    ensures forall i :: 0 <= i < n ==> r[i] == load(i + 1)
  {
    seq(n, (i: int) requires 0 <= i => load(i + 1))
  }

  /** A scan from page 1 that collected `m` pages collected pages 1..m. */
  lemma {:induction false} ScanIsPages<T>(load: nat -> seq<T>, fuel: nat, m: nat)
    requires |ScanFrom(load, 1, fuel)| == m
    ensures ScanFrom(load, 1, fuel) == Pages(load, m)
  {
    var r := ScanFrom(load, 1, fuel);
    forall i | 0 <= i < m ensures r[i] == Pages(load, m)[i] {
      ScanCollects(load, 1, fuel, i, i + 1);
    }
  }

  /** When page `k` is the first page `load` gives nothing for and the fuel
      reaches it, the scan from page 1 collects exactly pages 1..k-1. */
  lemma {:induction false} ScanMatchesPages<T>(load: nat -> seq<T>, fuel: nat, k: nat)
    requires 1 <= k <= fuel
    requires load(k) == []
    requires forall j :: 1 <= j < k ==> load(j) != []
    ensures ScanFrom(load, 1, fuel) == Pages(load, k - 1)
  {
    ScanStopsAtFirstEmpty(load, 1, fuel, k - 1);
    ScanIsPages(load, fuel, k - 1);
  }

  /** `scrape_page` for every page number of the site. */
  function Loader(site: Site): (load: nat -> seq<Record>)
    ensures forall p: nat :: load(p) == ScrapePage(site, p)
  {
    (p: nat) => ScrapePage(site, p)
  }

  /** `scrape_until_no_more_pages`, cut off after `fuel` pages: the pages
      1, 2, ... in order, all non-empty, ending just before the first page
      with no records (a failed load counts as one). */
  function ScrapeUntilNoMorePages(site: Site, fuel: nat): (r: seq<seq<Record>>)
    ensures |r| <= fuel
  {
    ScanFrom(Loader(site), 1, fuel)
  }

  /** The p-th collected entry is page p's records, and they are not empty. */
  lemma CollectedPage(site: Site, fuel: nat, p: int)
    requires 1 <= p <= |ScrapeUntilNoMorePages(site, fuel)|
    ensures ScrapeUntilNoMorePages(site, fuel)[p - 1] == ScrapePage(site, p)
    ensures ScrapePage(site, p) != []
  {
    var load := Loader(site);
    var r := ScanFrom(load, 1, fuel);
    assert r == ScrapeUntilNoMorePages(site, fuel);
    ScanCollects(load, 1, fuel, p - 1, p);
    assert load(p) == ScrapePage(site, p);
  }

  /** A scan that stopped before the fuel ran out stopped on a page with no
      records. */
  lemma StoppedOnEmptyPage(site: Site, fuel: nat)
    requires |ScrapeUntilNoMorePages(site, fuel)| < fuel
    ensures ScrapePage(site, |ScrapeUntilNoMorePages(site, fuel)| + 1) == []
  {
    var load := Loader(site);
    var r := ScanFrom(load, 1, fuel);
    assert r == ScrapeUntilNoMorePages(site, fuel);
    ScanStops(load, 1, fuel, |r| + 1);
    assert load(|r| + 1) == ScrapePage(site, |r| + 1);
  }

  /** `scrape_specified_number_of_pages`: pages 1..n in page order,
      whatever each of them yields (`range(1, n + 1)` is empty for n <= 0). */
  function ScrapeSpecifiedNumberOfPages(site: Site, n: int): (r: seq<seq<Record>>)
    ensures |r| == if n > 0 then n else 0
    ensures forall i :: 0 <= i < |r| ==> r[i] == ScrapePage(site, i + 1)
  {
    if n <= 0 then [] else Pages(Loader(site), n)
  }

  /** When page `k` is the first page with no records and the fuel reaches
      it, the unbounded scan returns exactly pages 1..k-1: the same as the
      fixed-count strategy asked for k - 1 pages. */
  lemma {:induction false} UntilMatchesFixed(site: Site, fuel: nat, k: nat)
    requires 1 <= k <= fuel
    requires ScrapePage(site, k) == []
    requires forall j :: 1 <= j < k ==> ScrapePage(site, j) != []
    ensures ScrapeUntilNoMorePages(site, fuel) == ScrapeSpecifiedNumberOfPages(site, k - 1)
  {
    ScanMatchesPages(Loader(site), fuel, k);
  }

  /** A failed load ends the unbounded scan just as an empty page does: the
      pages after it are never requested. */
  lemma {:induction false} FetchErrorEndsScan(site: Site, fuel: nat, k: nat)
    requires 1 <= k <= fuel
    requires site(k).Failed?
    requires forall j :: 1 <= j < k ==> ScrapePage(site, j) != []
    ensures ScrapeUntilNoMorePages(site, fuel) == ScrapeSpecifiedNumberOfPages(site, k - 1)
  {
    UntilMatchesFixed(site, fuel, k);
  }

  /** The fuel only truncates: once the scan has stopped on an empty page,
      more fuel gives the same result. */
  lemma {:induction false} MoreFuelSameResult(site: Site, fuel: nat, more: nat)
    requires |ScrapeUntilNoMorePages(site, fuel)| < fuel <= more
    ensures ScrapeUntilNoMorePages(site, more) == ScrapeUntilNoMorePages(site, fuel)
  {
    var r := ScrapeUntilNoMorePages(site, fuel);
    var k := |r| + 1;
    StoppedOnEmptyPage(site, fuel);
    forall j | 1 <= j < k ensures ScrapePage(site, j) != [] {
      CollectedPage(site, fuel, j);
    }
    UntilMatchesFixed(site, fuel, k);
    UntilMatchesFixed(site, more, k);
  }

  /** The records of all pages, page after page, each page's records in
      their own order. */
  function Flatten(pages: seq<seq<Record>>): seq<Record>
  {
    if pages == [] then [] else Flatten(pages[..|pages| - 1]) + pages[|pages| - 1]
  }

  lemma {:induction false} FlattenConcat(a: seq<seq<Record>>, b: seq<seq<Record>>)
    ensures Flatten(a + b) == Flatten(a) + Flatten(b)
    decreases |b|
  {
    if b == [] {
      assert a + b == a;
    } else {
      var b' := b[..|b| - 1];
      assert (a + b)[..|a + b| - 1] == a + b';
      FlattenConcat(a, b');
    }
  }

  /** Every record of page i comes before every record of page j > i: the
      output is the pages' records in page order. */
  lemma {:induction false} FlattenInPageOrder(pages: seq<seq<Record>>, i: int)
    requires 0 <= i < |pages|
    ensures Flatten(pages) == Flatten(pages[..i]) + pages[i] + Flatten(pages[i + 1..])
  {
    var front, back := pages[..i + 1], pages[i + 1..];
    assert pages == front + back;
    FlattenConcat(front, back);
    assert front[..i] == pages[..i];
    assert Flatten(front) == Flatten(pages[..i]) + pages[i];
  }

  /** A failed page in a fixed-count run contributes no records and the
      other pages still contribute theirs, in page order. */
  lemma {:induction false} FailedPageIsolated(site: Site, n: int, k: int)
    requires 1 <= k <= n
    requires site(k).Failed?
    ensures var pages := ScrapeSpecifiedNumberOfPages(site, n);
      Flatten(pages) == Flatten(pages[..k - 1]) + Flatten(pages[k..])
  {
    var pages := ScrapeSpecifiedNumberOfPages(site, n);
    FlattenInPageOrder(pages, k - 1);
  }

  /** A three-page run whose page 2 fails: pages 1 and 3 are still
      written, page 1 first. */
  lemma {:induction false} SecondOfThreeFails(site: Site)
    requires site(2).Failed?
    ensures Flatten(ScrapeSpecifiedNumberOfPages(site, 3)) == ScrapePage(site, 1) + ScrapePage(site, 3)
  {
    var pages := ScrapeSpecifiedNumberOfPages(site, 3);
    FailedPageIsolated(site, 3, 2);
    assert pages[0] == ScrapePage(site, 1) && pages[2] == ScrapePage(site, 3);
    FlattenOne(pages[..1]);
    FlattenOne(pages[2..]);
  }

  /** One page flattens to its own records. */
  lemma FlattenOne(pages: seq<seq<Record>>)
    requires |pages| == 1
    ensures Flatten(pages) == pages[0]
  {
    assert pages[..0] == [];
  }

  /** `save_data_to_json`: one output line per record, walking the pages and
      then each page's records, as the two nested loops do. */
  method SaveDataToJson(pages: seq<seq<Record>>) returns (lines: seq<Record>)
    ensures lines == Flatten(pages)
  {
    lines := [];
    var i := 0;
    while i < |pages|
      invariant 0 <= i <= |pages|
      invariant lines == Flatten(pages[..i])
    {
      var j := 0;
      while j < |pages[i]|
        invariant 0 <= j <= |pages[i]|
        invariant lines == Flatten(pages[..i]) + pages[i][..j]
      {
        lines := lines + [pages[i][j]];
        j := j + 1;
      }
      assert pages[..i + 1][..i] == pages[..i];
      assert pages[i][..j] == pages[i];
      i := i + 1;
    }
    assert pages[..i] == pages;
  }
}
