# bot-price scrapers, modelled in Dafny

The repository scrapes product prices from retail sites with a headless browser and posts them to
a price API. This project models the deterministic logic around the browser calls. Every
browser observation is an input value: what a page shows, whether a button exists, and whether
a click or a wait succeeded. The modelled scrapers are:

- the three Challenger scrapers that page with `while (true)`:
  - `src/interface/challenger/bot.js`, one category per menu item;
  - `src/server/challenger/bot.js`, menu items split on `/`;
  - `bot4.js`, the interface variant with the home page hard-coded;
- `bot3.js`, the Challenger scraper whose paging is bounded by the `.page-number` count;
- `bot.js`, the single-category Challenger scraper that reads the product grid directly;
- `src/interface/haceb/bot.js`, the Haceb category builder and its navigation loop;
- `bot2.js`, the MercadoLibre search scraper.

Modules, one per concern:

- `Options`, `Seqs`: option values and the `map`, `filter` and `flatMap` combinators.
- `JsString`: JavaScript string operations with their exact semantics:
  - `trim` over the ECMAScript white space and line terminators;
  - `replace` with a string pattern, which removes the first match only;
  - `replace` with a global pattern;
  - `split` on one character, which keeps empty pieces;
  - the `\s+` collapse and the `\bde\b` removal.
- `Fields`: field fallbacks, price cleaning, the three-way acceptance gate, and the collection of one listing page.
- `ChallengerMenu`: the Challenger category lists, per item or split on `/`.
- `Pager`: the pager inspection and the `while (true)` traversal of one category, with its loops.
- `Delivery`: the posting loop behind a price gate or a reference-and-price gate.
- `Challenger`: a whole run of the interface, server and `bot4.js` scrapers.
- `BoundedPager`: `bot3.js`.
- `GridBot`: `bot.js`.
- `Haceb`: `src/interface/haceb/bot.js`.
- `MercadoLibre`: `bot2.js`.

Each loop of the source is a Dafny method with loop invariants. It is proved equal to a
recursive specification function, for example `Pager.CrawlCategory` against `Pager.CrawlFrom`.
The properties are proved as lemmas about those functions. The Haceb entries are rewritten in
place in an `array`, as the source rewrites each entry object.

Two properties one might expect of the scrapers do not hold in the code, and the model follows the code:

- The split menu is not de-duplicated.
  `ChallengerMenu.NoDeduplication` shows `["TV/Audio", "TV", "Audio"]` giving each category twice.
- Price cleaning is not idempotent in general. `.replace("$", "")` removes one `$` only, so
  it is idempotent only when the text has at most one `$`. `Fields.CleanPriceIdempotent` proves
  that case, and `Fields.CleanPriceNotIdempotent` shows `"$$1"`.

Behaviours of the code that the model keeps as written:

- In the Challenger pager, the `nextPageNumber === null` check can never fire. The number is
  `null` only when there is no next sibling, and that case has already broken out of the loop.
  `Pager.Decide` proves it is never the stop reason.
- In `src/interface/challenger/bot.js` and `bot4.js` the page count `next` is computed but never bounds
  the `while (true)` loop. `src/server/challenger/bot.js` does not compute it at all.
- `bot3.js` never goes back to the listing after the detail pages. Its pager button is therefore
  looked up on the last detail page visited, or on the listing when no card had a link.

## Model

| member | source | states |
|---|---|---|
| JsString.Trim | src/interface/challenger/bot.js:45 | `trim` leaves no ECMAScript white space at either end and never lengthens the text |
| JsString.TrimIsSlice | src/interface/challenger/bot.js:45 | `trim` returns one contiguous slice of its input, starting where the leading white space ends |
| JsString.TrimIdempotent | src/interface/challenger/bot.js:45 | trimming twice equals trimming once |
| JsString.TrimAllWhiteSpace | src/interface/challenger/bot.js:109 | text made only of white space trims to the empty string, so the fallback applies |
| JsString.TrimKeepsAbsent | src/server/challenger/bot.js:69 | `trim` never introduces a character, so trimmed pieces stay free of `/` |
| JsString.ReplaceFirst | src/interface/challenger/bot.js:119 | `replace("$", "")` deletes exactly the first `$` and keeps the text around it; without a `$` the text is unchanged |
| JsString.ReplaceFirstCounts | src/interface/challenger/bot.js:119 | the character counts lose exactly one `$` when there is one, and nothing else changes |
| JsString.RemoveAll | src/interface/challenger/bot.js:120 | `replace(/\./g, "")` leaves no `.`; a character remains exactly when it occurred and is not `.` |
| JsString.RemoveAllCounts | src/interface/challenger/bot.js:120 | every character other than `.` keeps its number of occurrences |
| JsString.RemoveAllAppend | src/interface/challenger/bot.js:120 | global removal works piece by piece over a concatenation |
| JsString.Split | src/server/challenger/bot.js:68 | `split("/")` gives at least one piece and no piece holds `/` |
| JsString.JoinSplit | src/server/challenger/bot.js:68 | joining the pieces with `/` gives the text back: `split` loses nothing |
| JsString.SplitCount | src/server/challenger/bot.js:68 | there is one piece more than there are separators, so empty pieces are kept |
| JsString.SplitAtFirst | src/server/challenger/bot.js:68 | the first separator ends the first piece and splitting continues behind it |
| JsString.SplitNoSeparator | src/server/challenger/bot.js:68 | text without the separator is its own single piece |
| JsString.RemoveLiteral | src/interface/haceb/bot.js:63 | removing `Electrodomésticos` never lengthens the text |
| JsString.RemoveLiteralDeletes | src/interface/haceb/bot.js:63 | the removal only deletes: no character occurs in the result more often than in the input |
| JsString.RemoveLiteralAbsent | src/interface/haceb/bot.js:63 | text without the word is left unchanged |
| JsString.RemoveLiteralShrinks | src/interface/haceb/bot.js:63 | text holding the word loses at least the word's length |
| JsString.RemoveLiteralSkip | src/interface/haceb/bot.js:63 | the first occurrence is cut out: the text before it is kept and removal goes on behind it |
| JsString.RemoveLiteralKeepsPrefix | src/interface/haceb/bot.js:63 | text holding no first letter of the word is kept as is in front of what follows |
| JsString.RemoveWordDe | src/interface/haceb/bot.js:64 | removing the standalone word `de` never lengthens the text |
| JsString.RemoveWordDeDeletes | src/interface/haceb/bot.js:64 | the removal only deletes: no character occurs in the result more often than in the input |
| JsString.RemoveWordDeUnchangedIff | src/interface/haceb/bot.js:64 | the text is unchanged exactly when it has no `de` with a word boundary on both sides |
| JsString.RemoveWordDeShrinks | src/interface/haceb/bot.js:64 | text with such a `de` becomes strictly shorter |
| JsString.RemoveWordDeDropsDe | src/interface/haceb/bot.js:64 | a `de` after a space and before a non-word character or the end is dropped, and the text on either side is rewritten on its own |
| JsString.RemoveWordDeWord | src/interface/haceb/bot.js:64 | a single word disappears exactly when it is `de` with no word character before it: a `de` inside a longer word stays |
| JsString.RemoveWordDeAppend | src/interface/haceb/bot.js:64 | behind a non-word character the rest is rewritten independently of what came before |
| JsString.CollapseShape | src/interface/haceb/bot.js:65 | after `replace(/\s+/g, " ")` the only white space is single spaces, never two in a row, and the result starts with a space only when the input starts with white space |
| JsString.CollapseCounts | src/interface/haceb/bot.js:65 | every character other than white space keeps its number of occurrences |
| JsString.CollapseUnchangedIff | src/interface/haceb/bot.js:65 | the text is unchanged exactly when it is already single-spaced |
| JsString.CollapseRun | src/interface/haceb/bot.js:65 | a run of white space becomes one space in front of the collapsed rest |
| JsString.CollapseAppend | src/interface/haceb/bot.js:65 | collapsing works piece by piece across a character that is not white space |
| JsString.TrimCounts | src/interface/haceb/bot.js:66 | `trim` keeps the number of occurrences of every character other than white space |
| JsString.TrimAfterRun | src/interface/haceb/bot.js:66 | white space in front of trimmed text is cut off exactly |
| JsString.TrimSingleSpaced | src/interface/haceb/bot.js:65-66 | trimming single-spaced text leaves it single-spaced |
| Fields.FieldOr | src/interface/challenger/bot.js:104-115 | a field is the element's trimmed text when the element exists and that text is not empty, and the fallback otherwise |
| Fields.FieldFallbackIff | src/interface/challenger/bot.js:104-115 | a field equals its fallback exactly when the element is absent, its trimmed text is empty, or the text is the fallback itself |
| Fields.CleanPrice | src/interface/challenger/bot.js:116-120 | a cleaned price holds no `.` and is no longer than the raw text |
| Fields.CleanPriceCounts | src/interface/challenger/bot.js:116-120 | cleaning removes one `$` if there is one and every `.`, and keeps every other character |
| Fields.CleanPricePlain | src/interface/challenger/bot.js:116-120 | a price without `$` and `.` is left unchanged |
| Fields.CleanPriceIdempotent | src/server/challenger/bot.js:129-133 | cleaning twice equals cleaning once when the raw price has at most one `$` |
| Fields.CleanPriceNotIdempotent | src/server/challenger/bot.js:132 | without that condition idempotence fails: `"$$1"` cleans to `"$1"` and then to `"1"` |
| Fields.SymbolOnlyPriceBecomesEmpty | src/interface/challenger/bot.js:116-120 | a price made only of `.` and at most one `$` cleans to `""` and not to `"0"`, because the fallback comes before cleaning |
| Fields.CleanGroupedPrice | src/interface/challenger/bot.js:116-120 | `$a.b.e` cleans to `abe` when the digit groups hold no `.` |
| Fields.CleanPriceExample | src/interface/challenger/bot.js:116-120 | `"$1.234.567"` cleans to `"1234567"` |
| Fields.PriceFieldExample | src/interface/challenger/bot.js:116-120 | the price element showing `$1.234.567` gives the field `"1234567"` |
| Fields.MissingPriceRejected | src/interface/challenger/bot.js:116-127 | a missing price element gives the price `"0"`, which the gate rejects |
| Fields.Harvest | src/interface/challenger/bot.js:93-131 | a listing page gives at most one record per product, and every record passed the gate |
| Fields.HarvestIsFilter | src/interface/challenger/bot.js:123-129 | a page's records are the extracted records filtered by the gate, in product order |
| Fields.HarvestIff | src/interface/challenger/bot.js:123-129 | a product's record is collected exactly when category, price and reference all differ from `"0"` |
| Fields.HarvestSingle | src/interface/challenger/bot.js:123-129 | one product contributes its record when it is accepted and nothing otherwise |
| Fields.HarvestSnoc | src/interface/challenger/bot.js:128 | each product's record, when accepted, is appended behind the earlier records, which stay unchanged |
| Fields.HarvestAppend | src/interface/challenger/bot.js:128 | collection over two runs of products is the concatenation of both collections |
| Fields.HarvestFirstOfTwo | src/interface/challenger/bot.js:123-129 | of an accepted and a rejected product, only the first record is kept |
| Fields.TwoProductExample | src/interface/challenger/bot.js:102-129 | a fully described product is kept with its cleaned price; one without a price is dropped |
| ChallengerMenu.PlainMenu | src/interface/challenger/bot.js:43-47 | one category per menu item, its trimmed text, in document order |
| ChallengerMenu.Pieces | src/server/challenger/bot.js:65-70 | every menu item gives at least one category |
| ChallengerMenu.PiecesClean | src/server/challenger/bot.js:65-70 | every piece of an item is trimmed and free of `/` |
| ChallengerMenu.SplitMenuAppend | src/server/challenger/bot.js:62-71 | the split list is built item by item, in menu order |
| ChallengerMenu.SplitMenuSingle | src/server/challenger/bot.js:62-71 | one item contributes exactly its own pieces |
| ChallengerMenu.SplitMenuClean | src/server/challenger/bot.js:62-71 | every category of the split list is trimmed and free of `/`, and there are at least as many categories as items |
| ChallengerMenu.SplitMenuWithoutSlashes | src/server/challenger/bot.js:62-71 | with no `/` in the menu, the split variant gives exactly the per-item list |
| ChallengerMenu.SplitMenuOfCleanItems | src/server/challenger/bot.js:62-71 | a menu of trimmed items without `/` comes back unchanged |
| ChallengerMenu.TwoPieces | src/server/challenger/bot.js:65-70 | an item `a/b` gives the two trimmed pieces `a` and `b` |
| ChallengerMenu.SlashedItem | src/server/challenger/bot.js:62-71 | a menu with the single item `a/b` gives `a` then `b` |
| ChallengerMenu.NoDeduplication | src/server/challenger/bot.js:62-71 | `["a/b", "a", "b"]` gives `[a, b, a, b]`: no de-duplication |
| ChallengerMenu.EmptyPieceKept | src/server/challenger/bot.js:65-70 | an item `a/` gives `a` and the empty category: empty pieces are kept |
| Pager.ReadNextInfo | src/interface/challenger/bot.js:145-155 | the next page exists exactly when the current marker has a sibling, and the number is `null` exactly when it does not |
| Pager.Decide | src/interface/challenger/bot.js:134-185 | the loop advances exactly when the button, the sibling, the click, the marker change and the grid all succeed; it advances to the sibling's label; the `null` stop never happens |
| Pager.CollectPage | src/interface/challenger/bot.js:93-131 | the product loop appends exactly the page's accepted records behind what was collected |
| Pager.CrawlCategory | src/interface/challenger/bot.js:76-193 | the `while (true)` loop appends exactly the traversal's records and reports its page count and stop reason |
| Pager.CrawlBounds | src/interface/challenger/bot.js:78-192 | a traversal reads at least one page and no more than exist; the `null` stop never occurs; running out means every page was read |
| Pager.CrawlAccepted | src/interface/challenger/bot.js:123-129 | every record of a traversal passed the three-way gate |
| Pager.CrawlRecords | src/interface/challenger/bot.js:78-193 | a traversal's records are the visited pages' collections, concatenated in page order |
| Pager.CrawlIgnoresLaterPages | src/interface/challenger/bot.js:134-192 | pages after the stopping page are never looked at: page lists that agree up to it give the same traversal |
| Pager.WellNumberedAdvances | src/interface/challenger/bot.js:145-185 | on a well-numbered listing, page `n` advances to page `n + 1` |
| Pager.WellNumberedReadToEnd | src/interface/challenger/bot.js:78-193 | a well-numbered listing is read to its last page, which stops for lack of a next button |
| Pager.PageCountDoesNotBound | src/interface/challenger/bot.js:68-78 | a listing counting one page number is still read for three pages: `next` bounds nothing |
| Pager.NaNLabelStillAdvances | src/server/challenger/bot.js:158-189 | a non-numeric label parses to `NaN`, which is not `null`, so the loop clicks and advances; then any marker counts as changed |
| Pager.UnchangedMarkerStops | src/interface/challenger/bot.js:170-191 | a marker still showing the current number makes the wait time out, which ends this category only |
| Delivery.Posted | src/interface/challenger/bot.js:200-212 | at most one post per collected record, and every posted record passes the gate |
| Delivery.Deliver | src/interface/challenger/bot.js:197-212 | the delivery loop posts exactly the gated records in order, and `cont` counts the posts |
| Delivery.PostedIsFilter | src/interface/challenger/bot.js:201-212 | the posts are the collected records filtered by the gate, in order |
| Delivery.PostedCounts | src/interface/challenger/bot.js:201-212 | a record that passes is posted as often as it was collected, and a record that fails is never posted |
| Delivery.PostedAppend | src/interface/challenger/bot.js:201-212 | posting works record by record: earlier posts do not depend on later records |
| Delivery.AcceptedAllPosted | src/interface/challenger/bot.js:197-212 | when every record passed the collection gate, every record is posted and `cont` equals the number collected |
| Delivery.MissingPriceNeverPosted | src/interface/challenger/bot.js:202 | a record with price `"0"` is never posted, whichever gate applies |
| Challenger.CollectAll | src/interface/challenger/bot.js:55-194 | categories are visited in list order at `base/category`, and their traversals are appended in that order |
| Challenger.CollectedAccepted | src/interface/challenger/bot.js:123-129 | every record collected over all categories passed the three-way gate |
| Challenger.CollectedAppend | src/server/challenger/bot.js:79-198 | categories are independent: a category that stops early or fails neither removes earlier records nor stops later categories |
| Challenger.CollectedSingle | src/server/challenger/bot.js:79-90 | each category contributes its traversal from its landing page, starting at page number 1 |
| Challenger.Run | src/interface/challenger/bot.js:43-212 | the visited URLs follow the category list; the records are the collected traversals; everything collected is posted, and `cont` equals the number collected |
| Challenger.InterfaceRun | src/interface/challenger/bot.js:43-212 | the same, with one category per trimmed menu item |
| Challenger.ServerRun | src/server/challenger/bot.js:62-222 | the same, with the menu split on `/` and flattened |
| Challenger.Bot4Run | bot4.js:25-175 | the same as the interface run, under the hard-coded home page |
| BoundedPager.Visit | bot3.js:56-94 | a listing page gives at most one record per card |
| BoundedPager.VisitIsLinkedDetails | bot3.js:56-94 | the records are the detail records of the cards with a non-empty `href`, in card order, one each |
| BoundedPager.VisitKeepsEveryLinked | bot3.js:68-94 | every linked card's record is collected, whatever it holds: there is no collection gate |
| BoundedPager.VisitOnlyLinked | bot3.js:56-65 | every record comes from a card with a link |
| BoundedPager.ButtonOnListing | bot3.js:98-104 | with no linked card, the pager button is looked up on the listing page |
| BoundedPager.ButtonOnLastDetail | bot3.js:68-104 | otherwise it is looked up on the detail page of the last linked card |
| BoundedPager.VisitPage | bot3.js:56-104 | the product loop appends exactly the page's records and reports whether the button is then found |
| BoundedPager.CrawlCategory | bot3.js:42-122 | the `while (pageNumber <= next)` loop appends exactly the traversal's records and reports its page count and stop reason |
| BoundedPager.BoundedLimits | bot3.js:42-51 | at most `next` pages are read, and no more than exist; the limit stop happens exactly after `next` pages |
| BoundedPager.NoPageNumbersNothingRead | bot3.js:42-51 | with `next = 0`, no page of the category is read |
| BoundedPager.BoundedRecords | bot3.js:51-122 | the records are the visited pages' records, concatenated in page order |
| BoundedPager.CountBoundsTraversal | bot3.js:51-121 | when every advance succeeds and enough pages exist, exactly `next` pages are read and the loop ends on the limit |
| BoundedPager.UnpricedCollectedNotPosted | bot3.js:86-142 | a linked product without a price is collected with price `"0"` but never posted |
| BoundedPager.UnnamedButPricedPosted | bot3.js:72-142 | a priced product without SKU code and name is collected under `"No disponible"` and still posted |
| BoundedPager.CollectedPrefix | bot3.js:33-123 | the records of the first categories are a prefix of the whole run's: later categories never remove what earlier ones collected |
| BoundedPager.CollectAll | bot3.js:33-123 | categories are visited in menu order at the home page plus `/category`, and their traversals are appended in that order |
| BoundedPager.Run | bot3.js:25-142 | the visited URLs follow the trimmed menu; the records are the collected traversals; the posts are the records with a known price, and `cont` counts them |
| GridBot.AltOr | bot.js:56 | a non-empty `alt` is kept as is; a missing or empty one becomes `"Sin_alt"`; the text is never empty |
| GridBot.CategoryHasNoUnderscore | bot.js:56-58 | the category never holds `_`: it is the part before the first one |
| GridBot.MissingAltGivesSin | bot.js:56-58 | a card without an image or with an empty `alt` gets the category `"Sin"` |
| GridBot.HyphenatedAltCategory | bot.js:56-58 | for the alt `a-b_y`, the category is `ab`: only the first `-` is removed |
| Seqs.AppendMapped | bot.js:51-68 | every card of a page is read and appended behind the records collected so far, in card order, unfiltered; the `concat` at bot2.js:17-29 is the same step |
| GridBot.CrawlGrid | bot.js:34-86 | the `while (pageNumber < next.length + 1)` loop collects exactly the traversal's records and reports its page count and stop reason |
| GridBot.GridLimits | bot.js:37-45 | at most `next.length` pages are read, and no more than exist; the limit stop happens exactly after `next.length` pages |
| GridBot.GridRecords | bot.js:45-86 | the records are every card of every visited page, concatenated in page order |
| GridBot.CountBoundsGrid | bot.js:45-85 | when every button shows and every click succeeds, exactly `next.length` pages are read |
| GridBot.HiddenButtonAborts | bot.js:70-73 | a pager button that never becomes visible aborts the script after the first page |
| GridBot.Run | bot.js:24-107 | the typed category is opened; an aborted run posts nothing; otherwise the posts are the records with a known reference and price, in order |
| GridBot.UntitledNeverPosted | bot.js:55 | a card without a title gets reference `"0"` and is never posted |
| GridBot.CategoryNotGated | bot.js:93-107 | the category is not checked: a record with a known reference and price is posted whatever its category |
| Haceb.StripZeroWidth | src/interface/haceb/bot.js:68 | no U+200B–U+200D or U+FEFF remains |
| Haceb.StripZeroWidthCounts | src/interface/haceb/bot.js:68 | every zero-width character is removed and every other character keeps its number of occurrences |
| Haceb.StripZeroWidthKeepsClean | src/interface/haceb/bot.js:68 | text without zero-width characters is unchanged |
| Haceb.StripZeroWidthAppend | src/interface/haceb/bot.js:68 | removal works piece by piece over a concatenation |
| Haceb.Hyphenate | src/interface/haceb/bot.js:70 | each position keeps its character, except that a space becomes `-`; so the length is unchanged and no space remains |
| Haceb.ShortenAppliances | src/interface/haceb/bot.js:61-67 | the shortened appliance entry is trimmed |
| Haceb.ShortenedShape | src/interface/haceb/bot.js:61-67 | the shortened entry is single-spaced, and no character other than white space occurs in it more often than in the original entry |
| Haceb.ApplianceEntryShortened | src/interface/haceb/bot.js:61-67 | `Electrodomésticos de w` shortens to `w` when `w` is trimmed, single-spaced, and holds neither the word nor a standalone `de` |
| Haceb.Slug | src/interface/haceb/bot.js:68-70 | the slug is the text with zero-width characters and U+00A0 dropped, every other character kept in order and each space turned into `-` |
| Haceb.SlugShape | src/interface/haceb/bot.js:68-70 | a slug holds no space, no U+00A0 and no zero-width character |
| Haceb.SlugOfClean | src/interface/haceb/bot.js:68-70 | text without zero-width characters and U+00A0 only has its spaces turned into `-` |
| Haceb.NormaliseEntry | src/interface/haceb/bot.js:60-72 | every normalised entry holds no space, no U+00A0 and no zero-width character |
| Haceb.PlainEntryKeepsText | src/interface/haceb/bot.js:61-70 | an entry without `Electrodomésticos` becomes its slug: zero-width characters and U+00A0 dropped, the rest kept in order with spaces as `-`, never longer |
| Haceb.ApplianceEntrySlug | src/interface/haceb/bot.js:60-70 | `Electrodomésticos de w` normalises to the slug of `w` under the conditions of `ApplianceEntryShortened` |
| Haceb.HyphenatedSpacing | src/interface/haceb/bot.js:65-70 | trimmed, singly spaced text without `-` hyphenates to a slug with no `--` and no `-` at either end |
| Haceb.ApplianceSlugHyphens | src/interface/haceb/bot.js:61-70 | an appliance entry without `-` and U+200B–U+200D gives a slug with no `--` and no `-` at either end |
| Haceb.NormaliseAll | src/interface/haceb/bot.js:60-72 | every entry of the array is rewritten in place by the normalisation, in order |
| Haceb.MenuEntries | src/interface/haceb/bot.js:52-59 | the trimmed menu texts without the last one: `n` texts give `n - 1` entries (none for an empty menu), order unchanged |
| Haceb.ExtractCategories | src/interface/haceb/bot.js:48-74 | the categories are the menu entries, each normalised, in menu order |
| Haceb.CategoriesFromTexts | src/interface/haceb/bot.js:52-73 | the `i`-th category is the normalised `i`-th trimmed menu text, and none holds a space |
| Haceb.ExtractProducts | src/interface/haceb/bot.js:76-82 | one page visit per category, in order, at `base/encodeURIComponent(category)` |
| Haceb.Run | src/interface/haceb/bot.js:84-92 | one visit per menu text but the last, at the URL of its normalised text, in menu order |
| MercadoLibre.LinkOr | bot2.js:23 | the link is the non-empty `href` exactly as given, untrimmed, or `"Sin enlace"` |
| MercadoLibre.NamelessResultKept | bot2.js:21 | a result without a title, or with a blank one, is kept under `"Nombre no disponible"` |
| MercadoLibre.PriceNotCleaned | bot2.js:22 | the price is kept as shown, with no `$` or `.` removal |
| MercadoLibre.LinkKeptAsIs | bot2.js:23 | a non-empty `href` is kept exactly |
| MercadoLibre.CrawlSearch | bot2.js:12-42 | the `while (true)` loop collects exactly the search's products and reports its page count and stop reason |
| MercadoLibre.SearchRecords | bot2.js:17-29 | the products are every result of every page read, concatenated in page order |
| MercadoLibre.StopsAtFirstPageWithoutNext | bot2.js:33-41 | the loop goes on exactly while a next link exists, and stops at the first page without one, after reading it |
| MercadoLibre.ReadsCount | bot2.js:29-44 | the number of products read equals the sum of the per-page result counts |
| MercadoLibre.TotalIsItemCount | bot2.js:29-44 | the reported total equals the number of results on the pages read |
| MercadoLibre.Run | bot2.js:8-44 | the products are the search's products; a total is reported exactly when no wait threw, and it is their number |

## Left out

- Browser control is not modelled: launching, `goto`, `goBack`, clicks, waits, viewport and user agent. Each is an input flag or value on the page it concerns (`clickOk`, `gridLoads`, `advanceOk`, `itemsShown` and so on).
- The waits and navigations outside any `try` are taken to succeed, so their timeouts are left out. These are the `.menu-section` and `.vitrine` waits and the detail-page `goto`s. In the source such a timeout ends the whole run. The results wait of `bot2.js` is the exception: it is modelled as failing on any page (`itemsShown`), which ends the search.
- The next-page click of `bot2.js` (line 37) is outside any `try` and is taken to succeed. In the source a failed click ends the script.
- Delivery.Deliver: each `axios.request` is taken to succeed. In the source a failed request is not caught, so it ends the delivery loop and the run. "Exactly the gated records are posted" holds only when every request succeeds; the same goes for the posts of Challenger.Run, BoundedPager.Run and GridBot.Run.
- The 500 ms and 3 s pauses and every timeout value are timing, not logic.
- HTTP delivery (`axios.request`) becomes an append to the `sent` list. The API's response is never read by the source.
- The progress output (`actualizarProgreso`) is floating-point percentage printing.
- `askQuestion` in `bot.js` reads standard input. The typed category is a parameter of `GridBot.Run`.
- `encodeURIComponent` is a parameter of the Haceb URL functions.
- `parseInt` of a page label is given as data: a number or `NaN`.
- The logging (`console.log`, `console.error`) is output only.
- RemoveLiteral (JsString): its own contract states only that the text never grows. That it deletes exactly the occurrences of the word and keeps the rest in order is stated by RemoveLiteralDeletes, RemoveLiteralAbsent, RemoveLiteralShrinks, RemoveLiteralSkip and RemoveLiteralKeepsPrefix. No lemma states that no occurrence remains, because one can form where two pieces join.
- RemoveWordDe (JsString): its own contract states only that the text never grows. What it removes is stated by RemoveWordDeDeletes, RemoveWordDeUnchangedIff, RemoveWordDeShrinks, RemoveWordDeDropsDe, RemoveWordDeWord and RemoveWordDeAppend.
- StripZeroWidth (Haceb): its own contract states only that no zero-width character remains. That every other character is kept, in order, is stated by StripZeroWidthCounts, StripZeroWidthKeepsClean and StripZeroWidthAppend.
- CollapseWhiteSpace (JsString) carries no contract of its own. Its behaviour is stated by CollapseShape, CollapseCounts, CollapseUnchangedIff, CollapseRun and CollapseAppend.
- ShortenAppliances (Haceb): its own contract states only that the result is trimmed. The result's value is given by ApplianceEntryShortened for the usual `Electrodomésticos de …` entry, and its shape by ShortenedShape. Entries with the word elsewhere are covered only by ShortenedShape.
- NormaliseEntry (Haceb): its own contract states the shape of the result. Its value is given by PlainEntryKeepsText for entries without the word and by ApplianceEntrySlug for the usual appliance entry.
- Strings are sequences of Unicode scalar values. JavaScript counts a character outside the Basic Multilingual Plane as two UTF-16 code units, so lengths of such text differ; no rewrite of the model depends on it.
- The browser's pages are a finite list. Pager.CrawlCategory, BoundedPager.CrawlCategory, GridBot.CrawlGrid and MercadoLibre.CrawlSearch stop with `EndOfInput` when the list runs out after a successful advance. The source would go on to a page the model does not supply.
- The extraction callbacks are parameters of the collection loops, and each run passes the source's own callback. The lemmas about whole runs therefore hold for that callback only.
- `src/config/setupBrowser.config.js`, `src/app.js`, `src/utils/progreso.utils.js` and `eslint.config.js` are not part of this model. They set up the browser, chain two runs, print progress and configure the linter.
