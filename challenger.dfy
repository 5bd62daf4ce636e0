/**
 * A whole run of the Challenger scrapers that page with `while (true)`: the menu gives the
 * categories, each category's listing is traversed and collected, then the collected records are
 * delivered behind the price gate. The interface and server modules and `bot4.js` are the three
 * instances; they differ only in how the menu becomes a category list.
 */
module Challenger {
  import opened Fields
  import opened Pager
  import opened ChallengerMenu
  import Delivery
  import Seqs

  /** The site's home page, hard-coded in `bot4.js` and `bot3.js`. */
  const ChallengerHome := "https://www.challenger.com.co"

  /** How the menu items become categories. */
  datatype MenuStyle =
    | PerItem       // one category per menu item, its trimmed text
    | SplitOnSlash  // every item's text split on `/`, pieces trimmed and flattened

  function Categories(style: MenuStyle, menu: seq<string>): seq<string> {
    match style
    case PerItem => PlainMenu(menu)
    case SplitOnSlash => SplitMenu(menu)
  }

  /** The landing URL of one category. */
  function CategoryUrl(base: string, category: string): string {
    base + "/" + category
  }

  /** The traversal of one category from its landing page reached at `base/category`. */
  function Traversal(extract: RawDetail -> Record, base: string, site: string -> Listing): string -> seq<Record> {
    (category: string) => CrawlListing(extract, site(CategoryUrl(base, category))).records
  }

  /**
   * The records collected over a list of categories, each traversed in turn; `site` says what the
   * browser shows at a URL.
   */
  function Collected(extract: RawDetail -> Record, base: string, categories: seq<string>, site: string -> Listing): seq<Record> {
    Seqs.FlatMap(Traversal(extract, base, site), categories)
  }

  /** The per-category loop: every category is visited, in order, and its traversal appended. */
  method CollectAll(extract: RawDetail -> Record, base: string, categories: seq<string>, site: string -> Listing)
    returns (visitedUrls: seq<string>, allProducts: seq<Record>)
    ensures |visitedUrls| == |categories|
    ensures forall i :: 0 <= i < |categories| ==> visitedUrls[i] == CategoryUrl(base, categories[i])
    ensures allProducts == Collected(extract, base, categories, site)
  {
    visitedUrls := [];
    allProducts := [];
    for i := 0 to |categories|
      invariant |visitedUrls| == i
      invariant forall j :: 0 <= j < i ==> visitedUrls[j] == CategoryUrl(base, categories[j])
      invariant allProducts == Collected(extract, base, categories[..i], site)
    {
      var url := CategoryUrl(base, categories[i]);
      visitedUrls := visitedUrls + [url];
      Seqs.FlatMapSnoc(Traversal(extract, base, site), categories, i);
      var visited, why;
      allProducts, visited, why := CrawlCategory(extract, site(url), allProducts);
    }
    assert categories[..|categories|] == categories;
  }

  /** The outcome of a run: URLs visited, records collected, records posted and the post count. */
  datatype RunResult = RunResult(visitedUrls: seq<string>, allProducts: seq<Record>, sent: seq<Record>, cont: nat)

  /** `botChallenger` (and the `bot4.js` script): menu, collection, then delivery. */
  method Run(style: MenuStyle, menu: seq<string>, base: string, site: string -> Listing) returns (result: RunResult)
    ensures result.visitedUrls == Seqs.Map((c: string) => CategoryUrl(base, c), Categories(style, menu))
    ensures result.allProducts == Collected(ExtractWithSentinel, base, Categories(style, menu), site)
    ensures result.sent == result.allProducts
    ensures result.cont == |result.allProducts|
  {
    var categories := Categories(style, menu);
    var visitedUrls, allProducts := CollectAll(ExtractWithSentinel, base, categories, site);
    var sent, cont := Delivery.Deliver(Delivery.PriceOnly, allProducts);
    CollectedAccepted(ExtractWithSentinel, base, categories, site);
    Delivery.AcceptedAllPosted(Delivery.PriceOnly, allProducts);
    result := RunResult(visitedUrls, allProducts, sent, cont);
  }

  /** `src/interface/challenger/bot.js`: one category per menu item. */
  method InterfaceRun(menu: seq<string>, base: string, site: string -> Listing) returns (result: RunResult)
    ensures result.visitedUrls == Seqs.Map((c: string) => CategoryUrl(base, c), PlainMenu(menu))
    ensures result.allProducts == Collected(ExtractWithSentinel, base, PlainMenu(menu), site)
    ensures result.sent == result.allProducts && result.cont == |result.allProducts|
  {
    result := Run(PerItem, menu, base, site);
  }

  /** `src/server/challenger/bot.js`: menu items split on `/`. */
  method ServerRun(menu: seq<string>, base: string, site: string -> Listing) returns (result: RunResult)
    ensures result.visitedUrls == Seqs.Map((c: string) => CategoryUrl(base, c), SplitMenu(menu))
    ensures result.allProducts == Collected(ExtractWithSentinel, base, SplitMenu(menu), site)
    ensures result.sent == result.allProducts && result.cont == |result.allProducts|
  {
    result := Run(SplitOnSlash, menu, base, site);
  }

  /** `bot4.js`: the interface variant with the home page hard-coded. */
  method Bot4Run(menu: seq<string>, site: string -> Listing) returns (result: RunResult)
    ensures result.visitedUrls == Seqs.Map((c: string) => CategoryUrl(ChallengerHome, c), PlainMenu(menu))
    ensures result.allProducts == Collected(ExtractWithSentinel, ChallengerHome, PlainMenu(menu), site)
    ensures result.sent == result.allProducts && result.cont == |result.allProducts|
  {
    result := Run(PerItem, menu, ChallengerHome, site);
  }

  // ---------------------------------------------------------------------------------------------
  // Properties of a run

  /** Everything collected passed the three-way gate. */
  lemma CollectedAccepted(extract: RawDetail -> Record, base: string, categories: seq<string>, site: string -> Listing)
    ensures forall r :: r in Collected(extract, base, categories, site) ==> Accepted(r)
  {
    forall r | r in Collected(extract, base, categories, site)
      ensures Accepted(r)
    {
      Seqs.FlatMapMember(Traversal(extract, base, site), categories, r);
      var k :| 0 <= k < |categories| && r in Traversal(extract, base, site)(categories[k]);
      CrawlAccepted(extract, site(CategoryUrl(base, categories[k])).Pages(), 0, Num(1));
    }
  }

  /**
   * Categories are independent: the records of a list of categories are those of a prefix followed
   * by those of the rest, so a category abandoned after an error neither loses earlier records nor
   * keeps later categories from being collected.
   */
  lemma CollectedAppend(extract: RawDetail -> Record, base: string, a: seq<string>, b: seq<string>, site: string -> Listing)
    ensures Collected(extract, base, a + b, site) == Collected(extract, base, a, site) + Collected(extract, base, b, site)
  {
    Seqs.FlatMapAppend(Traversal(extract, base, site), a, b);
  }

  /** One category contributes its traversal from page 1 of its landing page. */
  lemma CollectedSingle(extract: RawDetail -> Record, base: string, category: string, site: string -> Listing)
    ensures Collected(extract, base, [category], site)
      == CrawlListing(extract, site(CategoryUrl(base, category))).records
  {
    Seqs.FlatMapSingle(Traversal(extract, base, site), category);
  }
}
