/**
 * The Haceb category scraper: the side-menu entries become URL slugs, rewritten in place, and
 * every slug is visited under the site's base URL.
 */
module Haceb {
  import opened JsString
  import Seqs

  /** The word stripped from appliance entries. */
  const Appliances := "Electrodom\U{00E9}sticos"

  const NoBreakSpace := '\U{00A0}'

  /** The characters matched by the class `[\u200B-\u200D\uFEFF]`. */
  predicate IsZeroWidth(c: char) {
    ('\U{200B}' <= c <= '\U{200D}') || c == '\U{FEFF}'
  }

  predicate NotZeroWidth(c: char) {
    !IsZeroWidth(c)
  }

  /** Removal of every character of that class. */
  function StripZeroWidth(s: string): (r: string)
    ensures forall k :: 0 <= k < |r| ==> !IsZeroWidth(r[k])
  {
    var r := Seqs.Filter(NotZeroWidth, s);
    assert forall k :: 0 <= k < |r| ==> r[k] in r;
    r
  }

  /** Text without such characters is left alone. */
  lemma StripZeroWidthKeepsClean(s: string)
    requires forall k :: 0 <= k < |s| ==> !IsZeroWidth(s[k])
    ensures StripZeroWidth(s) == s
  {
    Seqs.FilterKeepsAll(NotZeroWidth, s);
  }

  /** Every other character is kept, each as often as it occurs. */
  lemma StripZeroWidthCounts(s: string, c: char)
    ensures multiset(StripZeroWidth(s))[c] == if IsZeroWidth(c) then 0 else multiset(s)[c]
  {
    Seqs.FilterCounts(NotZeroWidth, s, c);
  }

  /** Removal works piece by piece, so the kept characters stay in order. */
  lemma StripZeroWidthAppend(a: string, b: string)
    ensures StripZeroWidth(a + b) == StripZeroWidth(a) + StripZeroWidth(b)
  {
    Seqs.FilterAppend(NotZeroWidth, a, b);
  }

  function SpaceToHyphen(c: char): char {
    if c == ' ' then '-' else c
  }

  /** `replace(/ /g, "-")`. */
  function Hyphenate(s: string): (r: string)
    ensures |r| == |s|
    ensures ' ' !in r
    ensures forall k :: 0 <= k < |r| ==> r[k] == if s[k] == ' ' then '-' else s[k]
  {
    Seqs.Map(SpaceToHyphen, s)
  }

  /**
   * The rewrite of an entry that mentions appliances: the word is removed, so is every
   * stand-alone `de`, white-space runs collapse to one space and the ends are trimmed.
   */
  function ShortenAppliances(t: string): (r: string)
    ensures IsTrimmed(r)
  {
    Trim(CollapseWhiteSpace(RemoveWordDe(RemoveLiteral(t, Appliances), false)))
  }

  /**
   * The shortened entry is single-spaced, and the rewrite only deletes: no character other than
   * white space occurs in it more often than in the entry.
   */
  lemma ShortenedShape(t: string)
    ensures var r := ShortenAppliances(t);
      && SingleSpaced(r)
      && (forall c :: !IsWhiteSpace(c) ==> multiset(r)[c] <= multiset(t)[c])
  {
    var y := RemoveLiteral(t, Appliances);
    var x := RemoveWordDe(y, false);
    var w := CollapseWhiteSpace(x);
    RemoveLiteralDeletes(t, Appliances);
    RemoveWordDeDeletes(y, false);
    CollapseShape(x);
    TrimSingleSpaced(w);
    forall c | !IsWhiteSpace(c)
      ensures multiset(Trim(w))[c] <= multiset(t)[c]
    {
      CollapseCounts(x, c);
      TrimCounts(w, c);
    }
  }

  /**
   * The usual appliance entry: the word, a stand-alone `de` and the rest of the entry. What is
   * left is that rest, provided it is trimmed, single-spaced, and has neither the word nor a
   * stand-alone `de` of its own.
   */
  lemma ApplianceEntryShortened(w: string)
    requires IsTrimmed(w) && SingleSpaced(w)
    requires !Contains(w, Appliances) && NoStandaloneDe(w, false)
    ensures ShortenAppliances(Appliances + " de " + w) == w
  {
    LeadingWordRemoved(Appliances, w);
    LeadingDeRemoved(w);
    CollapseRun("  ", w);
    CollapseSingleSpaced(w);
    TrimAfterRun(" ", w);
  }

  /** The word at the front is deleted; the ` de ` behind it cannot start another occurrence. */
  lemma LeadingWordRemoved(pat: string, w: string)
    requires pat != [] && pat[0] !in " de "
    requires !Contains(w, pat)
    ensures RemoveLiteral(pat + " de " + w, pat) == " de " + w
  {
    var rest := " de " + w;
    assert pat + " de " + w == [] + pat + rest;
    RemoveLiteralSkip([], rest, pat);
    RemoveLiteralKeepsPrefix(" de ", w, pat);
    RemoveLiteralAbsent(w, pat);
  }

  /** The stand-alone `de` goes, both spaces around it stay. */
  lemma LeadingDeRemoved(w: string)
    requires w == [] || !IsWhiteSpace(w[0])
    requires NoStandaloneDe(w, false)
    ensures RemoveWordDe(" de " + w, false) == "  " + w
  {
    var sp := " ";
    var tail := sp + w;
    calc {
      RemoveWordDe(" de " + w, false);
      { assert " de " + w == sp + ("de" + tail); }
      RemoveWordDe(sp + ("de" + tail), false);
      { RemoveWordDeAppend(sp, "de" + tail, false); RemoveWordDeSpace(false); }
      sp + RemoveWordDe("de" + tail, false);
      { RemoveWordDeAtStart(tail); }
      sp + RemoveWordDe(tail, true);
      { RemoveWordDeAppend(sp, w, true); RemoveWordDeSpace(true); }
      sp + (sp + RemoveWordDe(w, false));
      { RemoveWordDeKeeps(w, false); }
      sp + (sp + w);
      "  " + w;
    }
  }

  /** The characters a slug keeps: all but the zero-width ones and the no-break space. */
  predicate SlugKeeps(c: char) {
    !IsZeroWidth(c) && c != NoBreakSpace
  }

  /**
   * The three rewrites every entry undergoes: zero-width characters and no-break spaces are
   * dropped, every other character is kept in order, spaces becoming hyphens.
   */
  function Slug(s: string): (r: string)
    ensures r == Seqs.Map(SpaceToHyphen, Seqs.Filter(SlugKeeps, s))
  {
    SlugFilters(s);
    Hyphenate(RemoveAll(StripZeroWidth(s), NoBreakSpace))
  }

  /** The two removals together keep exactly the characters a slug keeps, in order. */
  lemma SlugFilters(s: string)
    ensures RemoveAll(StripZeroWidth(s), NoBreakSpace) == Seqs.Filter(SlugKeeps, s)
    ensures forall k :: 0 <= k < |Seqs.Filter(SlugKeeps, s)| ==> SlugKeeps(Seqs.Filter(SlugKeeps, s)[k])
  {
    Seqs.FilterFilter(NotZeroWidth, Differs(NoBreakSpace), SlugKeeps, s);
    var f := Seqs.Filter(SlugKeeps, s);
    assert forall k :: 0 <= k < |f| ==> f[k] in f;
  }

  /** A slug holds no space, no no-break space and no zero-width character. */
  lemma SlugShape(s: string)
    ensures var r := Slug(s);
      && ' ' !in r && NoBreakSpace !in r
      && forall k :: 0 <= k < |r| ==> !IsZeroWidth(r[k])
  {
    SlugFilters(s);
  }

  /** One menu entry turned into its slug. */
  function NormaliseEntry(t: string): (r: string)
    ensures ' ' !in r && NoBreakSpace !in r
    ensures forall k :: 0 <= k < |r| ==> !IsZeroWidth(r[k])
  {
    var entry := if Contains(t, Appliances) then ShortenAppliances(t) else t;
    SlugShape(entry);
    Slug(entry)
  }

  /** Characters that are neither zero-width nor no-break spaces pass to the slug unchanged, spaces as hyphens. */
  lemma SlugOfClean(s: string)
    requires NoBreakSpace !in s
    requires forall k :: 0 <= k < |s| ==> !IsZeroWidth(s[k])
    ensures Slug(s) == Hyphenate(s)
  {
    Seqs.FilterKeepsAll(NotZeroWidth, s);
    RemoveAllAbsent(s, NoBreakSpace);
  }

  /**
   * An entry that does not mention appliances only undergoes the three rewrites: its zero-width
   * characters and no-break spaces are dropped and every other character is kept in order, each
   * space turned into a hyphen.
   */
  lemma PlainEntryKeepsText(t: string)
    requires !Contains(t, Appliances)
    ensures NormaliseEntry(t) == Seqs.Map(SpaceToHyphen, Seqs.Filter(SlugKeeps, t))
    ensures |NormaliseEntry(t)| <= |t|
  {
  }

  /** The usual appliance entry becomes the slug of what follows the word and its `de`. */
  lemma ApplianceEntrySlug(w: string)
    requires IsTrimmed(w) && SingleSpaced(w)
    requires !Contains(w, Appliances) && NoStandaloneDe(w, false)
    ensures NormaliseEntry(Appliances + " de " + w) == Slug(w)
  {
    ContainsPrefix(Appliances, " de " + w);
    assert Appliances + " de " + w == Appliances + (" de " + w);
    ApplianceEntryShortened(w);
  }

  /** Hyphenating a string without hyphens, spaced singly and trimmed, leaves no `--` and no hyphen at an end. */
  lemma HyphenatedSpacing(x: string)
    requires '-' !in x && IsTrimmed(x)
    requires forall k :: 0 <= k < |x| - 1 ==> !(x[k] == ' ' && x[k + 1] == ' ')
    ensures var r := Hyphenate(x);
      && (forall k :: 0 <= k < |r| - 1 ==> !(r[k] == '-' && r[k + 1] == '-'))
      && (r == [] || (r[0] != '-' && r[|r| - 1] != '-'))
  {
  }

  /**
   * An appliance entry free of hyphens and of the zero-width characters that are not white
   * space gives a slug with no doubled hyphen and no hyphen at either end.
   */
  lemma ApplianceSlugHyphens(t: string)
    requires Contains(t, Appliances)
    requires '-' !in t
    requires forall k :: 0 <= k < |t| ==> !('\U{200B}' <= t[k] <= '\U{200D}')
    ensures var r := NormaliseEntry(t);
      && (forall k :: 0 <= k < |r| - 1 ==> !(r[k] == '-' && r[k + 1] == '-'))
      && (r == [] || (r[0] != '-' && r[|r| - 1] != '-'))
  {
    var x := ShortenAppliances(t);
    ShortenedShape(t);
    forall k | 0 <= k < |x|
      ensures !IsZeroWidth(x[k]) && x[k] != '-'
    {
      var c := x[k];
      assert multiset(x)[c] > 0;
      if !IsWhiteSpace(c) {
        assert multiset(t)[c] > 0;
        assert c in t;
      }
    }
    assert NoBreakSpace !in x;
    SlugOfClean(x);
    HyphenatedSpacing(x);
  }

  /** The loop of `categories.map(...)`: every entry object is rewritten in place by `normalise`. */
  method NormaliseAll(entries: array<string>, normalise: string -> string)
    modifies entries
    ensures entries[..] == Seqs.Map(normalise, old(entries[..]))
  {
    ghost var original := entries[..];
    for i := 0 to entries.Length
      invariant entries[i..] == original[i..]
      invariant entries[..i] == Seqs.Map(normalise, original[..i])
    {
      assert original[..i + 1] == original[..i] + [original[i]];
      entries[i] := normalise(entries[i]);
      assert entries[..i + 1] == entries[..i] + [entries[i]];
    }
    assert original[..entries.Length] == original;
  }

  /** The menu texts, trimmed, without the last one (`categories.pop()`). */
  function MenuEntries(texts: seq<string>): (entries: seq<string>)
    ensures |entries| == if texts == [] then 0 else |texts| - 1
    ensures forall i :: 0 <= i < |entries| ==> entries[i] == Trim(texts[i])
  {
    if texts == [] then [] else Seqs.Map(Trim, texts[..|texts| - 1])
  }

  /**
   * `extractCategories`: the menu texts, trimmed, lose their last entry and are turned into
   * slugs; every slug is free of spaces.
   */
  method ExtractCategories(texts: seq<string>) returns (categories: seq<string>)
    ensures categories == Seqs.Map(NormaliseEntry, MenuEntries(texts))
  {
    var trimmed := MenuEntries(texts);
    var entries := ArrayOf(trimmed);
    NormaliseAll(entries, NormaliseEntry);
    categories := entries[..];
  }

  /** The entry objects, one array cell per trimmed text. */
  method ArrayOf(texts: seq<string>) returns (entries: array<string>)
    ensures fresh(entries) && entries[..] == texts
  {
    entries := new string[|texts|](i requires 0 <= i < |texts| => texts[i]);
  }

  /** The slugs line up with the menu texts: one per text but the last, each free of spaces. */
  lemma CategoriesFromTexts(texts: seq<string>)
    ensures var categories := Seqs.Map(NormaliseEntry, MenuEntries(texts));
      && |categories| == (if texts == [] then 0 else |texts| - 1)
      && (forall i :: 0 <= i < |categories| ==> categories[i] == NormaliseEntry(Trim(texts[i])))
      && (forall i :: 0 <= i < |categories| ==> ' ' !in categories[i])
  {
    var entries := MenuEntries(texts);
    var categories := Seqs.Map(NormaliseEntry, entries);
    forall i | 0 <= i < |categories|
      ensures categories[i] == NormaliseEntry(Trim(texts[i])) && ' ' !in categories[i]
    {
      assert categories[i] == NormaliseEntry(entries[i]);
    }
  }

  /** The address visited for one category. */
  function CategoryUrl(base: string, category: string, encode: string -> string): string {
    base + "/" + encode(category)
  }

  /** `extractProducts`: the categories' pages, visited one after the other in menu order. */
  method ExtractProducts(base: string, categories: seq<string>, encode: string -> string)
    returns (visited: seq<string>)
    ensures |visited| == |categories|
    ensures forall i :: 0 <= i < |categories| ==> visited[i] == CategoryUrl(base, categories[i], encode)
  {
    visited := [];
    for i := 0 to |categories|
      invariant |visited| == i
      invariant forall j :: 0 <= j < i ==> visited[j] == CategoryUrl(base, categories[j], encode)
    {
      visited := visited + [CategoryUrl(base, categories[i], encode)];
    }
  }

  /** `botHaceb`: the menu texts become slugs and one page is visited per slug. */
  method Run(texts: seq<string>, base: string, encode: string -> string) returns (visited: seq<string>)
    ensures |visited| == if texts == [] then 0 else |texts| - 1
    ensures forall i :: 0 <= i < |visited| ==>
      visited[i] == CategoryUrl(base, NormaliseEntry(Trim(texts[i])), encode)
  {
    var categories := ExtractCategories(texts);
    CategoriesFromTexts(texts);
    visited := ExtractProducts(base, categories, encode);
  }
}
