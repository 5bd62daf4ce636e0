/**
 * Field extraction on a product page, price cleaning and the acceptance gate of the Challenger
 * scrapers. A page element is `None` when the selector matched nothing, `Some(text)` with its raw
 * `innerText` (or `innerHTML`) otherwise.
 */
module Fields {
  import opened Options
  import opened JsString
  import Seqs

  /** The sentinel that marks a missing field and drives the acceptance gate. */
  const Missing: string := "0"

  /** `el?.innerText.trim() || fallback`: the trimmed text, or the fallback when absent or blank. */
  function FieldOr(el: Option<string>, fallback: string): (r: string)
    ensures el.Some? && Trim(el.value) != [] ==> r == Trim(el.value)
    ensures el.None? || Trim(el.value) == [] ==> r == fallback
    ensures r == fallback || (r != [] && IsTrimmed(r))
  {
    match el
    case None => fallback
    case Some(text) => var t := Trim(text); if t == [] then fallback else t
  }

  /** `raw.replace("$", "").replace(/\./g, "")`: the first `$` and every `.` removed. */
  function CleanPrice(raw: string): (r: string)
    ensures '.' !in r
    ensures |r| <= |raw|
  {
    RemoveAll(ReplaceFirst(raw, '$'), '.')
  }

  /** The `Precio_Challenger` field: fallback `"0"` first, cleaning after. */
  function PriceField(el: Option<string>): string {
    CleanPrice(FieldOr(el, Missing))
  }

  /** What the scraper reads on one product page: SKU code, product name and best price. */
  datatype RawDetail = RawDetail(sku: Option<string>, title: Option<string>, price: Option<string>)

  /**
   * One product as posted to the CRM: `category` is `Categoria_challenger`, `reference` is
   * `Referencia_challenger1`, `price` is `Precio_Challenger`.
   */
  datatype Record = Record(category: string, reference: string, price: string)

  /** The detail-page extraction callback; `missing` is the category/reference fallback. */
  function ExtractDetail(d: RawDetail, missing: string): Record {
    Record(FieldOr(d.sku, missing), FieldOr(d.title, missing), PriceField(d.price))
  }

  /** The collection gate: category, price and reference all differ from `"0"`. */
  predicate Accepted(r: Record) {
    r.category != Missing && r.price != Missing && r.reference != Missing
  }

  function ExtractWithSentinel(d: RawDetail): Record {
    ExtractDetail(d, Missing)
  }

  /**
   * The records one listing page contributes: each product read by `extract`, appended iff
   * accepted, in product order. Defined from the end, as the append loop builds it.
   */
  function Harvest(extract: RawDetail -> Record, products: seq<RawDetail>): (records: seq<Record>)
    ensures |records| <= |products|
    ensures forall r :: r in records ==> Accepted(r)
  {
    if products == [] then []
    else
      var element := extract(products[|products| - 1]);
      Harvest(extract, products[..|products| - 1]) + if Accepted(element) then [element] else []
  }

  // ---------------------------------------------------------------------------------------------
  // Fallbacks

  /** A field equals its fallback exactly when the element is absent, blank, or reads the fallback. */
  lemma FieldFallbackIff(el: Option<string>, fallback: string)
    ensures FieldOr(el, fallback) == fallback
      <==> el.None? || Trim(el.value) == [] || Trim(el.value) == fallback
  {
  }

  /** A missing price element yields the price `"0"`, which the gate rejects. */
  lemma MissingPriceRejected(d: RawDetail, missing: string)
    requires d.price.None?
    ensures ExtractDetail(d, missing).price == Missing
    ensures !Accepted(ExtractDetail(d, Missing))
  {
    CleanPricePlain(Missing);
  }

  // ---------------------------------------------------------------------------------------------
  // Price cleaning

  /** Counting form of cleaning: one `$` fewer (if there was one), no `.`, every other character kept. */
  lemma CleanPriceCounts(raw: string, c: char)
    ensures multiset(CleanPrice(raw))[c] ==
      if c == '.' then 0
      else if c == '$' && '$' in raw then multiset(raw)[c] - 1
      else multiset(raw)[c]
  {
    ReplaceFirstCounts(raw, '$');
    RemoveAllCounts(ReplaceFirst(raw, '$'), '.', c);
  }

  /** A price with neither `$` nor `.` is left as it is. */
  lemma CleanPricePlain(raw: string)
    requires '$' !in raw && '.' !in raw
    ensures CleanPrice(raw) == raw
  {
    RemoveAllAbsent(raw, '.');
  }

  /** Cleaning twice equals cleaning once, provided the raw price has at most one `$`. */
  lemma CleanPriceIdempotent(raw: string)
    requires multiset(raw)['$'] <= 1
    ensures CleanPrice(CleanPrice(raw)) == CleanPrice(raw)
  {
    var r := CleanPrice(raw);
    CleanPriceCounts(raw, '$');
    CleanPricePlain(r);
  }

  /** Without the precondition it fails: `"$$1"` cleans to `"$1"`, which cleans to `"1"`. */
  lemma CleanPriceNotIdempotent()
    ensures CleanPrice("$$1") == "$1"
    ensures CleanPrice(CleanPrice("$$1")) == "1"
  {
    assert ReplaceFirst("$$1", '$') == "$1";
    RemoveAllAbsent("$1", '.');
    assert ReplaceFirst("$1", '$') == "1";
    CleanPricePlain("1");
  }

  /** A price made only of `.` and at most one `$` cleans to the empty string, not to `"0"`. */
  lemma SymbolOnlyPriceBecomesEmpty(raw: string)
    requires forall k :: 0 <= k < |raw| ==> raw[k] == '.' || raw[k] == '$'
    requires multiset(raw)['$'] <= 1
    ensures CleanPrice(raw) == []
  {
    var r := CleanPrice(raw);
    if r != [] {
      CleanPriceCounts(raw, r[0]);
    }
  }

  /** Thousands separators go, digits stay: `$a.b.e` cleans to `abe` when the groups hold no `.`. */
  lemma {:induction false} CleanGroupedPrice(a: string, b: string, e: string)
    requires '.' !in a && '.' !in b && '.' !in e
    ensures CleanPrice(['$'] + a + ['.'] + b + ['.'] + e) == a + b + e
  {
    var front := a + ['.'] + b;
    var raw := ['$'] + (front + ['.'] + e);
    assert raw == ['$'] + a + ['.'] + b + ['.'] + e;
    assert raw[1..] == front + ['.'] + e;
    assert ReplaceFirst(raw, '$') == front + ['.'] + e;
    RemoveAllAcross(front, e, '.');
    RemoveAllAcross(a, b, '.');
    RemoveAllAbsent(a, '.');
    RemoveAllAbsent(b, '.');
    RemoveAllAbsent(e, '.');
  }

  /** The thousands-separated price `"$1.234.567"` becomes `"1234567"`. */
  lemma CleanPriceExample(raw: string)
    requires raw == "$1.234.567"
    ensures CleanPrice(raw) == "1234567"
  {
    var a, b, e := "1", "234", "567";
    assert raw == ['$'] + a + ['.'] + b + ['.'] + e;
    CleanGroupedPrice(a, b, e);
  }

  // ---------------------------------------------------------------------------------------------
  // Collection of one listing page

  /** Collection is a filter over the extracted records: the gate keeps them, in order. */
  lemma {:induction false} HarvestIsFilter(extract: RawDetail -> Record, products: seq<RawDetail>)
    ensures Harvest(extract, products) == Seqs.Filter(Accepted, Seqs.Map(extract, products))
  {
    if products != [] {
      var init := products[..|products| - 1];
      var extracted := Seqs.Map(extract, products);
      HarvestIsFilter(extract, init);
      assert extracted[..|extracted| - 1] == Seqs.Map(extract, init);
    }
  }

  /** A product's record is collected exactly when it passes the three-way gate. */
  lemma HarvestIff(extract: RawDetail -> Record, products: seq<RawDetail>, i: nat)
    requires i < |products|
    ensures extract(products[i]) in Harvest(extract, products) <==> Accepted(extract(products[i]))
  {
    HarvestIsFilter(extract, products);
    assert Seqs.Map(extract, products)[i] == extract(products[i]);
  }

  /** A single product contributes its record exactly when the record is accepted. */
  lemma HarvestSingle(extract: RawDetail -> Record, d: RawDetail)
    ensures Harvest(extract, [d]) == if Accepted(extract(d)) then [extract(d)] else []
  {
    assert [d][..0] == [];
  }

  /** Visiting one more product appends its record, when accepted, behind the earlier ones. */
  lemma HarvestSnoc(extract: RawDetail -> Record, products: seq<RawDetail>, j: nat)
    requires j < |products|
    ensures Harvest(extract, products[..j + 1]) ==
      Harvest(extract, products[..j]) + if Accepted(extract(products[j])) then [extract(products[j])] else []
  {
    assert products[..j + 1][..j] == products[..j];
  }

  /** Collection distributes over the product list: order is kept and earlier records are untouched. */
  lemma HarvestAppend(extract: RawDetail -> Record, a: seq<RawDetail>, b: seq<RawDetail>)
    ensures Harvest(extract, a + b) == Harvest(extract, a) + Harvest(extract, b)
  {
    HarvestIsFilter(extract, a);
    HarvestIsFilter(extract, b);
    HarvestIsFilter(extract, a + b);
    Seqs.MapAppend(extract, a, b);
    Seqs.FilterAppend(Accepted, Seqs.Map(extract, a), Seqs.Map(extract, b));
  }

  /** The example price as it appears on the page is already trimmed and cleans to `"1234567"`. */
  lemma PriceFieldExample(rawPrice: string)
    requires rawPrice == "$1.234.567"
    ensures PriceField(Some(rawPrice)) == "1234567"
  {
    assert IsTrimmed(rawPrice);
    TrimOfTrimmed(rawPrice);
    CleanPriceExample(rawPrice);
  }

  /** Of two products, only the first accepted: the page contributes exactly the first record. */
  lemma HarvestFirstOfTwo(extract: RawDetail -> Record, a: RawDetail, b: RawDetail)
    requires Accepted(extract(a)) && !Accepted(extract(b))
    ensures Harvest(extract, [a, b]) == [extract(a)]
  {
    HarvestSingle(extract, a);
    HarvestSingle(extract, b);
    HarvestAppend(extract, [a], [b]);
    assert [a] + [b] == [a, b];
  }

  /**
   * The example listing: product A with full fields and price `"$1.234.567"`, product B without
   * a price element. Exactly one record is collected, A's, with price `"1234567"`.
   */
  lemma TwoProductExample(sku: string, title: string, rawPrice: string, b: RawDetail)
    requires Trim(sku) == sku && sku != [] && sku != Missing
    requires Trim(title) == title && title != [] && title != Missing
    requires rawPrice == "$1.234.567"
    requires b.price.None?
    ensures Harvest(ExtractWithSentinel, [RawDetail(Some(sku), Some(title), Some(rawPrice)), b])
      == [Record(sku, title, "1234567")]
  {
    var a := RawDetail(Some(sku), Some(title), Some(rawPrice));
    PriceFieldExample(rawPrice);
    assert ExtractWithSentinel(a) == Record(sku, title, "1234567");
    MissingPriceRejected(b, Missing);
    HarvestFirstOfTwo(ExtractWithSentinel, a, b);
  }
}
