/**
 * The Challenger category list, read from the `.menu-item-has-children` elements in document
 * order. Two variants: one entry per menu item, or each item's text split on `/` and flattened.
 */
module ChallengerMenu {
  import opened JsString
  import Seqs

  /** `items.map(el => el.innerText.trim())`: one trimmed entry per menu item, in order. */
  function PlainMenu(items: seq<string>): (categories: seq<string>)
    ensures |categories| == |items|
    ensures forall i :: 0 <= i < |items| ==> categories[i] == Trim(items[i])
  {
    Seqs.Map(Trim, items)
  }

  /** The pieces of one menu item: its trimmed text split on `/`, each piece trimmed. */
  function Pieces(item: string): (pieces: seq<string>)
    ensures |pieces| >= 1
  {
    Seqs.Map(Trim, Split(Trim(item), '/'))
  }

  /** `items.flatMap(el => el.innerText.trim().split("/").map(c => c.trim()))`. */
  function SplitMenu(items: seq<string>): seq<string> {
    Seqs.FlatMap(Pieces, items)
  }

  /** Every piece is trimmed and free of `/`. */
  lemma PiecesClean(item: string)
    ensures forall k :: 0 <= k < |Pieces(item)| ==> Clean(Pieces(item)[k])
  {
    var raw := Split(Trim(item), '/');
    forall k | 0 <= k < |raw| ensures '/' !in Trim(raw[k]) {
      TrimKeepsAbsent(raw[k], '/');
    }
  }

  /** The split list is built item by item, in menu order: items never mix or reorder. */
  lemma SplitMenuAppend(a: seq<string>, b: seq<string>)
    ensures SplitMenu(a + b) == SplitMenu(a) + SplitMenu(b)
  {
    Seqs.FlatMapAppend(Pieces, a, b);
  }

  /** One item contributes exactly its own pieces. */
  lemma SplitMenuSingle(item: string)
    ensures SplitMenu([item]) == Pieces(item)
  {
    Seqs.FlatMapSingle(Pieces, item);
  }

  /** A category as the split variant leaves it: trimmed and free of `/`. */
  predicate Clean(category: string) {
    '/' !in category && IsTrimmed(category)
  }

  /** Two lists of clean categories concatenate to one. */
  lemma CleanAppend(front: seq<string>, back: seq<string>)
    requires forall k :: 0 <= k < |front| ==> Clean(front[k])
    requires forall k :: 0 <= k < |back| ==> Clean(back[k])
    ensures forall k :: 0 <= k < |front + back| ==> Clean((front + back)[k])
  {
    forall k | 0 <= k < |front + back|
      ensures Clean((front + back)[k])
    {
      if k >= |front| {
        assert (front + back)[k] == back[k - |front|];
      }
    }
  }

  /** Every category of the split list is trimmed and free of `/`, and there are at least as many as items. */
  lemma {:induction false} SplitMenuClean(items: seq<string>)
    ensures |SplitMenu(items)| >= |items|
    ensures forall k :: 0 <= k < |SplitMenu(items)| ==> Clean(SplitMenu(items)[k])
  {
    if items != [] {
      var init, last := items[..|items| - 1], items[|items| - 1];
      assert items == init + [last];
      SplitMenuClean(init);
      PiecesClean(last);
      SplitMenuAppend(init, [last]);
      SplitMenuSingle(last);
      CleanAppend(SplitMenu(init), Pieces(last));
    }
  }

  /** Without any `/` in the menu the split variant yields exactly the per-item list. */
  lemma {:induction false} SplitMenuWithoutSlashes(items: seq<string>)
    requires forall i :: 0 <= i < |items| ==> '/' !in items[i]
    ensures SplitMenu(items) == PlainMenu(items)
  {
    if items != [] {
      var init, last := items[..|items| - 1], items[|items| - 1];
      assert items == init + [last];
      SplitMenuWithoutSlashes(init);
      TrimKeepsAbsent(last, '/');
      SplitNoSeparator(Trim(last), '/');
      TrimIdempotent(last);
      assert Pieces(last) == [Trim(last)];
      SplitMenuAppend(init, [last]);
      SplitMenuSingle(last);
      Seqs.MapAppend(Trim, init, [last]);
      assert Seqs.Map(Trim, [last]) == [Trim(last)];
    }
  }

  /** One item `a/b` gives the two pieces `a` and `b`, trimmed. */
  lemma TwoPieces(a: string, b: string)
    requires '/' !in a && '/' !in b && IsTrimmed(a + ['/'] + b)
    ensures Pieces(a + ['/'] + b) == [Trim(a), Trim(b)]
  {
    TrimOfTrimmed(a + ['/'] + b);
    SplitAtFirst(a, b, '/');
    SplitNoSeparator(b, '/');
    assert Split(a + ['/'] + b, '/') == [a, b];
  }

  /** A menu whose items are already trimmed and free of `/` comes back unchanged. */
  lemma SplitMenuOfCleanItems(items: seq<string>)
    requires forall i :: 0 <= i < |items| ==> '/' !in items[i] && IsTrimmed(items[i])
    ensures SplitMenu(items) == items
  {
    SplitMenuWithoutSlashes(items);
    forall i | 0 <= i < |items| ensures PlainMenu(items)[i] == items[i] {
      TrimOfTrimmed(items[i]);
    }
  }

  /** Two clean items form a clean menu. */
  lemma CleanPair(a: string, b: string)
    requires IsTrimmed(a) && IsTrimmed(b) && '/' !in a && '/' !in b
    ensures forall i :: 0 <= i < |[a, b]| ==> '/' !in [a, b][i] && IsTrimmed([a, b][i])
  {
  }

  /** A single item `a/b` gives `a` then `b`. */
  lemma SlashedItem(a: string, b: string)
    requires a != [] && b != [] && IsTrimmed(a) && IsTrimmed(b) && '/' !in a && '/' !in b
    ensures SplitMenu([a + ['/'] + b]) == [a, b]
  {
    var item := a + ['/'] + b;
    assert item[0] == a[0];
    assert item[|item| - 1] == b[|b| - 1];
    TwoPieces(a, b);
    TrimOfTrimmed(a);
    TrimOfTrimmed(b);
    SplitMenuSingle(item);
  }

  /**
   * No de-duplication: a menu such as `["TV/Audio", "TV", "Audio"]` yields `TV` and `Audio`
   * twice each, in menu order.
   */
  lemma NoDeduplication(a: string, b: string)
    requires a != [] && b != [] && IsTrimmed(a) && IsTrimmed(b) && '/' !in a && '/' !in b
    ensures SplitMenu([a + ['/'] + b, a, b]) == [a, b, a, b]
  {
    var first := a + ['/'] + b;
    var pair := [a, b];
    calc {
      SplitMenu([first, a, b]);
      { assert [first, a, b] == [first] + pair; }
      SplitMenu([first] + pair);
      { SplitMenuAppend([first], pair); }
      SplitMenu([first]) + SplitMenu(pair);
      { SlashedItem(a, b); CleanPair(a, b); SplitMenuOfCleanItems(pair); }
      pair + pair;
    }
    assert pair + pair == [a, b, a, b];
  }

  /** An empty piece is kept: an item such as `"Audio/"` gives `Audio` and the empty category. */
  lemma EmptyPieceKept(a: string)
    requires a != [] && IsTrimmed(a) && '/' !in a
    ensures Pieces(a + ['/']) == [a, []]
  {
    TwoPieces(a, []);
    assert a + ['/'] + [] == a + ['/'];
  }
}
