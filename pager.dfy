/**
 * The per-category pagination of the Challenger scrapers: on each listing page every product
 * detail page is read and gated, then the pager is inspected and either the next page is reached
 * or the category ends. The browser is replaced by the pages it would show.
 */
module Pager {
  import opened Options
  import opened Fields
  import Seqs

  /** What `parseInt` gives for a page label: a number or `NaN`. */
  datatype Label = Num(n: int) | NaN

  /** `a !== b` on two `parseInt` results: `NaN` differs from everything, itself included. */
  predicate StrictlyDiffers(a: Label, b: Label) {
    a.NaN? || b.NaN? || a.n != b.n
  }

  /**
   * One listing page as the scraper meets it:
   * - `products`: what each product's detail page shows, in grid order;
   * - `hasNextButton`: whether `.pager.bottom li.next` exists;
   * - `nextSibling`: the label after the current-page marker, parsed, or `None` without a sibling;
   * - `clickOk`: whether clicking that sibling succeeds;
   * - `markerAfterClick`: the current-page marker's parsed label once the click has taken
   *   effect, `None` when no marker shows up;
   * - `gridLoads`: whether the product grid appears in time after the change.
   */
  datatype Page = Page(
    products: seq<RawDetail>,
    hasNextButton: bool,
    nextSibling: Option<Label>,
    clickOk: bool,
    markerAfterClick: Option<Label>,
    gridLoads: bool)

  /** The object the page-info callback returns. */
  datatype NextInfo = NextInfo(nextPageExists: bool, nextPageNumber: Option<Label>)

  /** The page-info callback: whether a next sibling exists and its parsed label, `null` without one. */
  function ReadNextInfo(p: Page): (info: NextInfo)
    ensures info.nextPageExists <==> p.nextSibling.Some?
    ensures info.nextPageNumber.None? <==> !info.nextPageExists
    ensures info.nextPageNumber == p.nextSibling
  {
    match p.nextSibling
    case None => NextInfo(false, None)
    case Some(parsed) => NextInfo(true, Some(parsed))
  }

  /** The `waitForFunction` condition: a marker exists and its label `!==` the previous page number. */
  predicate MarkerChanged(p: Page, previous: Label) {
    p.markerAfterClick.Some? && StrictlyDiffers(p.markerAfterClick.value, previous)
  }

  /** Why a category's traversal ended. */
  datatype Stop =
    | NoNextButton     // `.pager.bottom li.next` is absent
    | NoNextSibling    // the current-page marker has no next sibling
    | NullNextNumber   // the next page number is `null`
    | ClickFailed      // the click threw
    | MarkerUnchanged  // the marker never changed: the wait timed out
    | GridMissing      // the product grid did not appear: the wait timed out
    | EndOfInput       // the model's list of pages is exhausted

  /** What happens after a page's products are read. */
  datatype Step = Advance(to: Label) | Halt(why: Stop)

  /**
   * The pager inspection, in the order of the source's checks. Advancing needs every check and
   * both waits to succeed, and the `null` check never fires: a sibling always yields a label.
   */
  function Decide(p: Page, current: Label): (s: Step)
    ensures s.Advance? <==>
      p.hasNextButton && p.nextSibling.Some? && p.clickOk && MarkerChanged(p, current) && p.gridLoads
    ensures s.Advance? ==> p.nextSibling == Some(s.to)
    ensures s != Halt(NullNextNumber)
  {
    if !p.hasNextButton then Halt(NoNextButton)
    else
      var info := ReadNextInfo(p);
      if !info.nextPageExists then Halt(NoNextSibling)
      else if info.nextPageNumber.None? then Halt(NullNextNumber)
      else if !p.clickOk then Halt(ClickFailed)
      else if !MarkerChanged(p, current) then Halt(MarkerUnchanged)
      else if !p.gridLoads then Halt(GridMissing)
      else Advance(info.nextPageNumber.value)
  }

  /**
   * A category's listing: the landing page reached at `base/category`, the pages reached by
   * advancing, and the number of `.page-number` elements counted on the landing page.
   */
  datatype Listing = Listing(pageNumbers: nat, landing: Page, following: seq<Page>) {
    function Pages(): seq<Page> {
      [landing] + following
    }
  }

  /** The records one listing page contributes. */
  function PageHarvest(extract: RawDetail -> Record, p: Page): seq<Record> {
    Harvest(extract, p.products)
  }

  /** The harvests of consecutive pages, concatenated in page order. */
  function Harvests(extract: RawDetail -> Record, pages: seq<Page>): seq<Record> {
    if pages == [] then [] else PageHarvest(extract, pages[0]) + Harvests(extract, pages[1..])
  }

  /** The outcome of traversing a category from some page on. */
  datatype Crawl = Crawl(records: seq<Record>, visited: nat, why: Stop)

  /** The traversal from page `i`, whose current page number is `current`. */
  function CrawlFrom(extract: RawDetail -> Record, pages: seq<Page>, i: nat, current: Label): Crawl
    requires i < |pages|
    decreases |pages| - i
  {
    var here := PageHarvest(extract, pages[i]);
    match Decide(pages[i], current)
    case Halt(why) => Crawl(here, 1, why)
    case Advance(to) =>
      if i + 1 == |pages| then Crawl(here, 1, EndOfInput)
      else
        var rest := CrawlFrom(extract, pages, i + 1, to);
        Crawl(here + rest.records, rest.visited + 1, rest.why)
  }

  /** A category always starts on its landing page with current page number 1. */
  function CrawlListing(extract: RawDetail -> Record, listing: Listing): Crawl {
    CrawlFrom(extract, listing.Pages(), 0, Num(1))
  }

  /** One step of the traversal when the page's pager inspection stops. */
  lemma CrawlHalts(extract: RawDetail -> Record, pages: seq<Page>, i: nat, current: Label)
    requires i < |pages| && Decide(pages[i], current).Halt?
    ensures CrawlFrom(extract, pages, i, current) == Crawl(PageHarvest(extract, pages[i]), 1, Decide(pages[i], current).why)
  {
  }

  /** One step of the traversal when the page advances but it was the last page supplied. */
  lemma CrawlRunsOut(extract: RawDetail -> Record, pages: seq<Page>, i: nat, current: Label)
    requires i + 1 == |pages| && Decide(pages[i], current).Advance?
    ensures CrawlFrom(extract, pages, i, current) == Crawl(PageHarvest(extract, pages[i]), 1, EndOfInput)
  {
  }

  /** One step of the traversal when the page advances to the next one. */
  lemma CrawlAdvances(extract: RawDetail -> Record, pages: seq<Page>, i: nat, current: Label, to: Label)
    requires i + 1 < |pages| && Decide(pages[i], current) == Advance(to)
    ensures CrawlFrom(extract, pages, i, current).visited == CrawlFrom(extract, pages, i + 1, to).visited + 1
    ensures CrawlFrom(extract, pages, i, current).why == CrawlFrom(extract, pages, i + 1, to).why
    ensures CrawlFrom(extract, pages, i, current).records == PageHarvest(extract, pages[i]) + CrawlFrom(extract, pages, i + 1, to).records
  {
  }

  /** Across one advance, what was collected before plus what remains stays the same. */
  lemma CrawlAdvancesAfter(extract: RawDetail -> Record, pages: seq<Page>, i: nat, current: Label, to: Label, done: seq<Record>)
    requires i + 1 < |pages| && Decide(pages[i], current) == Advance(to)
    ensures done + CrawlFrom(extract, pages, i, current).records
      == (done + PageHarvest(extract, pages[i])) + CrawlFrom(extract, pages, i + 1, to).records
  {
    CrawlAdvances(extract, pages, i, current, to);
  }

  /**
   * The loop over one listing page's product URLs: each detail page is read and its record
   * appended when it passes the three-way gate, behind everything collected so far.
   */
  method CollectPage(extract: RawDetail -> Record, products: seq<RawDetail>, collected: seq<Record>) returns (updated: seq<Record>)
    ensures updated == collected + Harvest(extract, products)
  {
    updated := collected;
    for j := 0 to |products|
      invariant updated == collected + Harvest(extract, products[..j])
    {
      HarvestSnoc(extract, products, j);
      var element := extract(products[j]);
      if Accepted(element) {
        updated := updated + [element];
      }
    }
    assert products[..|products|] == products;
  }

  /**
   * The `while (true)` loop of one category. It reads each product, appends it to `collected`
   * when it passes the gate, then advances or stops; `visited` and `why` report how far it got.
   */
  method CrawlCategory(extract: RawDetail -> Record, listing: Listing, collected: seq<Record>)
    returns (updated: seq<Record>, visited: nat, why: Stop)
    ensures updated == collected + CrawlListing(extract, listing).records
    ensures visited == CrawlListing(extract, listing).visited
    ensures why == CrawlListing(extract, listing).why
  {
    var pages := listing.Pages();
    ghost var total := CrawlListing(extract, listing);
    var i := 0;
    var currentPageNumber := Num(1);
    updated := collected;
    visited := 0;
    while true
      invariant i < |pages|
      invariant updated + CrawlFrom(extract, pages, i, currentPageNumber).records == collected + total.records
      invariant visited + CrawlFrom(extract, pages, i, currentPageNumber).visited == total.visited
      invariant CrawlFrom(extract, pages, i, currentPageNumber).why == total.why
      decreases |pages| - i
    {
      var page := pages[i];
      ghost var before := updated;
      updated := CollectPage(extract, page.products, updated);
      visited := visited + 1;
      var step := Decide(page, currentPageNumber);
      if step.Halt? {
        CrawlHalts(extract, pages, i, currentPageNumber);
        why := step.why;
        break;
      }
      if i + 1 == |pages| {
        CrawlRunsOut(extract, pages, i, currentPageNumber);
        why := EndOfInput;
        break;
      }
      CrawlAdvances(extract, pages, i, currentPageNumber, step.to);
      CrawlAdvancesAfter(extract, pages, i, currentPageNumber, step.to, before);
      currentPageNumber := step.to;
      i := i + 1;
    }
  }

  // ---------------------------------------------------------------------------------------------
  // Properties of the traversal

  /**
   * The traversal reads a non-empty run of consecutive pages starting at `i`, the `null` stop
   * never happens, and running out of pages is the only way to have read them all after a
   * successful advance.
   */
  lemma {:induction false} CrawlBounds(extract: RawDetail -> Record, pages: seq<Page>, i: nat, current: Label)
    requires i < |pages|
    ensures 1 <= CrawlFrom(extract, pages, i, current).visited <= |pages| - i
    ensures CrawlFrom(extract, pages, i, current).why != NullNextNumber
    ensures CrawlFrom(extract, pages, i, current).why == EndOfInput ==> i + CrawlFrom(extract, pages, i, current).visited == |pages|
    decreases |pages| - i
  {
    var step := Decide(pages[i], current);
    if step.Halt? {
      CrawlHalts(extract, pages, i, current);
    } else if i + 1 == |pages| {
      CrawlRunsOut(extract, pages, i, current);
    } else {
      CrawlBounds(extract, pages, i + 1, step.to);
      CrawlAdvances(extract, pages, i, current, step.to);
    }
  }

  /** Every record a traversal collects passed the three-way gate. */
  lemma {:induction false} CrawlAccepted(extract: RawDetail -> Record, pages: seq<Page>, i: nat, current: Label)
    requires i < |pages|
    ensures forall r :: r in CrawlFrom(extract, pages, i, current).records ==> Accepted(r)
    decreases |pages| - i
  {
    var step := Decide(pages[i], current);
    if step.Halt? {
      CrawlHalts(extract, pages, i, current);
    } else if i + 1 == |pages| {
      CrawlRunsOut(extract, pages, i, current);
    } else {
      CrawlAccepted(extract, pages, i + 1, step.to);
      CrawlAdvances(extract, pages, i, current, step.to);
    }
  }

  /** The records are the visited pages' harvests, concatenated in page order. */
  predicate RecordsArePageHarvests(extract: RawDetail -> Record, pages: seq<Page>, i: nat, current: Label)
    requires i < |pages|
  {
    var c := CrawlFrom(extract, pages, i, current);
    i + c.visited <= |pages| && c.records == Harvests(extract, pages[i..i + c.visited])
  }

  lemma CrawlRecordsLast(extract: RawDetail -> Record, pages: seq<Page>, i: nat, current: Label)
    requires i < |pages| && CrawlFrom(extract, pages, i, current).visited == 1
    requires CrawlFrom(extract, pages, i, current).records == PageHarvest(extract, pages[i])
    ensures RecordsArePageHarvests(extract, pages, i, current)
  {
    assert pages[i..i + 1] == [pages[i]];
    assert Harvests(extract, [pages[i]]) == PageHarvest(extract, pages[i]) + Harvests(extract, []);
  }

  lemma CrawlRecordsStep(extract: RawDetail -> Record, pages: seq<Page>, i: nat, current: Label, to: Label)
    requires i + 1 < |pages| && Decide(pages[i], current) == Advance(to)
    requires RecordsArePageHarvests(extract, pages, i + 1, to)
    ensures RecordsArePageHarvests(extract, pages, i, current)
  {
    CrawlAdvances(extract, pages, i, current, to);
    HarvestsPrepend(extract, pages, i, CrawlFrom(extract, pages, i, current), CrawlFrom(extract, pages, i + 1, to));
  }

  /** A page's harvest put in front of the harvests of the pages after it covers one more page. */
  lemma HarvestsPrepend(extract: RawDetail -> Record, pages: seq<Page>, i: nat, here: Crawl, rest: Crawl)
    requires i + 1 + rest.visited <= |pages|
    requires rest.records == Harvests(extract, pages[i + 1..i + 1 + rest.visited])
    requires here.visited == rest.visited + 1 && here.records == PageHarvest(extract, pages[i]) + rest.records
    ensures i + here.visited <= |pages| && here.records == Harvests(extract, pages[i..i + here.visited])
  {
    HarvestsCons(extract, pages, i, i + here.visited);
  }

  /** The harvests of a run of pages are its first page's harvest followed by the rest's. */
  lemma HarvestsCons(extract: RawDetail -> Record, pages: seq<Page>, i: nat, n: nat)
    requires i < n <= |pages|
    ensures Harvests(extract, pages[i..n]) == PageHarvest(extract, pages[i]) + Harvests(extract, pages[i + 1..n])
  {
    assert pages[i..n][1..] == pages[i + 1..n];
  }

  lemma {:induction false} CrawlRecords(extract: RawDetail -> Record, pages: seq<Page>, i: nat, current: Label)
    requires i < |pages|
    ensures RecordsArePageHarvests(extract, pages, i, current)
    decreases |pages| - i
  {
    var step := Decide(pages[i], current);
    if step.Halt? {
      CrawlHalts(extract, pages, i, current);
      CrawlRecordsLast(extract, pages, i, current);
    } else if i + 1 == |pages| {
      CrawlRunsOut(extract, pages, i, current);
      CrawlRecordsLast(extract, pages, i, current);
    } else {
      CrawlRecords(extract, pages, i + 1, step.to);
      CrawlRecordsStep(extract, pages, i, current, step.to);
    }
  }

  /**
   * Pages after the one where the traversal stopped are never looked at: two page lists that
   * agree up to that page give the same traversal, unless the pages simply ran out.
   */
  lemma {:induction false} CrawlIgnoresLaterPages(extract: RawDetail -> Record, pages: seq<Page>, other: seq<Page>, i: nat, current: Label)
    requires i < |pages|
    requires CrawlFrom(extract, pages, i, current).why != EndOfInput
    requires i + CrawlFrom(extract, pages, i, current).visited <= |other|
    requires i + CrawlFrom(extract, pages, i, current).visited <= |pages|
    requires other[..i + CrawlFrom(extract, pages, i, current).visited] == pages[..i + CrawlFrom(extract, pages, i, current).visited]
    ensures CrawlFrom(extract, other, i, current) == CrawlFrom(extract, pages, i, current)
    decreases |pages| - i
  {
    var n := i + CrawlFrom(extract, pages, i, current).visited;
    CrawlBounds(extract, pages, i, current);
    assert other[i] == other[..n][i] == pages[..n][i] == pages[i];
    var step := Decide(pages[i], current);
    if step.Halt? {
      CrawlHalts(extract, pages, i, current);
      CrawlHalts(extract, other, i, current);
    } else if i + 1 == |pages| {
      CrawlRunsOut(extract, pages, i, current);
    } else {
      var m := i + 1 + CrawlFrom(extract, pages, i + 1, step.to).visited;
      CrawlAdvances(extract, pages, i, current, step.to);
      CrawlAdvances(extract, other, i, current, step.to);
      assert m == n;
      CrawlIgnoresLaterPages(extract, pages, other, i + 1, step.to);
    }
  }

  /**
   * A pager whose pages are numbered 1, 2, 3, … and whose every advance succeeds is read to
   * the end: all pages are visited and the traversal stops on the missing next button.
   */
  predicate WellNumbered(pages: seq<Page>) {
    && pages != []
    && (forall k :: 0 <= k < |pages| - 1 ==>
      && pages[k].hasNextButton
      && pages[k].nextSibling == Some(Num(k + 2))
      && pages[k].clickOk
      && pages[k].markerAfterClick == Some(Num(k + 2))
      && pages[k].gridLoads)
    && !pages[|pages| - 1].hasNextButton
  }

  lemma WellNumberedAdvances(pages: seq<Page>, i: nat)
    requires WellNumbered(pages) && i + 1 < |pages|
    ensures Decide(pages[i], Num(i + 1)) == Advance(Num(i + 2))
  {
  }

  lemma {:induction false} WellNumberedReadToEnd(extract: RawDetail -> Record, pages: seq<Page>, i: nat)
    requires WellNumbered(pages) && i < |pages|
    ensures CrawlFrom(extract, pages, i, Num(i + 1)).visited == |pages| - i
    ensures CrawlFrom(extract, pages, i, Num(i + 1)).why == NoNextButton
    decreases |pages| - i
  {
    if i + 1 < |pages| {
      WellNumberedAdvances(pages, i);
      WellNumberedReadToEnd(extract, pages, i + 1);
      CrawlAdvances(extract, pages, i, Num(i + 1), Num(i + 2));
    } else {
      assert Decide(pages[i], Num(i + 1)) == Halt(NoNextButton);
      CrawlHalts(extract, pages, i, Num(i + 1));
    }
  }

  /**
   * The `.page-number` count does not bound the traversal: a listing that counts one page number
   * but chains three pages has all three read.
   */
  lemma PageCountDoesNotBound(extract: RawDetail -> Record, p1: Page, p2: Page, p3: Page)
    requires p1.hasNextButton && p1.nextSibling == Some(Num(2)) && p1.clickOk
    requires p1.markerAfterClick == Some(Num(2)) && p1.gridLoads
    requires p2.hasNextButton && p2.nextSibling == Some(Num(3)) && p2.clickOk
    requires p2.markerAfterClick == Some(Num(3)) && p2.gridLoads
    requires !p3.hasNextButton
    ensures var listing := Listing(1, p1, [p2, p3]);
      CrawlListing(extract, listing).visited == 3 > listing.pageNumbers
  {
    var listing := Listing(1, p1, [p2, p3]);
    assert listing.Pages() == [p1, p2, p3];
    WellNumberedReadToEnd(extract, [p1, p2, p3], 0);
  }

  /**
   * A non-numeric label does not stop the traversal: the click still happens, and once the
   * current page number is `NaN` the next wait succeeds as soon as any marker shows up.
   */
  lemma NaNLabelStillAdvances(p: Page, q: Page, current: Label)
    requires p.hasNextButton && p.nextSibling == Some(NaN) && p.clickOk
    requires MarkerChanged(p, current) && p.gridLoads
    ensures Decide(p, current) == Advance(NaN)
    ensures MarkerChanged(q, NaN) <==> q.markerAfterClick.Some?
  {
  }

  /** A marker that still shows the current number makes the wait time out and ends the category. */
  lemma UnchangedMarkerStops(p: Page, n: int)
    requires p.hasNextButton && p.nextSibling.Some? && p.clickOk
    requires p.markerAfterClick == Some(Num(n))
    ensures Decide(p, Num(n)) == Halt(MarkerUnchanged)
  {
  }
}
