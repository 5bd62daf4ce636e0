/**
 * The delivery pass that follows collection: every collected record that passes the delivery
 * gate is posted to the CRM, in collection order, and counted. Posting is modelled as appending
 * to the `sent` log; the response is never read.
 */
module Delivery {
  import opened Fields
  import Seqs

  /** The two delivery gates found in the scrapers. */
  datatype Gate =
    | PriceOnly          // `Precio_Challenger !== "0"`
    | ReferenceAndPrice  // `Referencia_challenger1 !== "0" && Precio_Challenger !== "0"`

  predicate PriceKnown(r: Record) {
    r.price != Missing
  }

  predicate ReferenceAndPriceKnown(r: Record) {
    r.reference != Missing && r.price != Missing
  }

  predicate Passes(g: Gate, r: Record) {
    match g
    case PriceOnly => PriceKnown(r)
    case ReferenceAndPrice => ReferenceAndPriceKnown(r)
  }

  /** The records posted from `all`, in order. Defined from the end, as the loop posts them. */
  function Posted(g: Gate, all: seq<Record>): (sent: seq<Record>)
    ensures |sent| <= |all|
    ensures forall r :: r in sent ==> Passes(g, r)
  {
    if all == [] then []
    else
      var r := all[|all| - 1];
      Posted(g, all[..|all| - 1]) + if Passes(g, r) then [r] else []
  }

  /** The delivery loop: posts every record that passes the gate and counts the posts. */
  method Deliver(g: Gate, all: seq<Record>) returns (sent: seq<Record>, cont: nat)
    ensures sent == Posted(g, all)
    ensures cont == |sent|
  {
    sent := [];
    cont := 0;
    for k := 0 to |all|
      invariant sent == Posted(g, all[..k])
      invariant cont == |sent|
    {
      assert all[..k + 1][..k] == all[..k];
      if Passes(g, all[k]) {
        sent := sent + [all[k]];
        cont := cont + 1;
      }
    }
    assert all[..|all|] == all;
  }

  /** Delivery is a filter of the collected list by the gate: same order, nothing else. */
  lemma {:induction false} PostedIsFilter(g: Gate, all: seq<Record>)
    ensures g == PriceOnly ==> Posted(g, all) == Seqs.Filter(PriceKnown, all)
    ensures g == ReferenceAndPrice ==> Posted(g, all) == Seqs.Filter(ReferenceAndPriceKnown, all)
  {
    if all != [] {
      var init := all[..|all| - 1];
      PostedIsFilter(g, init);
      assert all == init + [all[|all| - 1]];
    }
  }

  /**
   * Every record is posted exactly as many times as it was collected when it passes the gate,
   * and never otherwise.
   */
  lemma PostedCounts(g: Gate, all: seq<Record>, r: Record)
    ensures multiset(Posted(g, all))[r] == if Passes(g, r) then multiset(all)[r] else 0
  {
    PostedIsFilter(g, all);
    if g == PriceOnly {
      Seqs.FilterCounts(PriceKnown, all, r);
    } else {
      Seqs.FilterCounts(ReferenceAndPriceKnown, all, r);
    }
  }

  /** Posting distributes over the collected list: earlier posts are not affected by later records. */
  lemma {:induction false} PostedAppend(g: Gate, a: seq<Record>, b: seq<Record>)
    ensures Posted(g, a + b) == Posted(g, a) + Posted(g, b)
  {
    PostedIsFilter(g, a);
    PostedIsFilter(g, b);
    PostedIsFilter(g, a + b);
    if g == PriceOnly {
      Seqs.FilterAppend(PriceKnown, a, b);
    } else {
      Seqs.FilterAppend(ReferenceAndPriceKnown, a, b);
    }
  }

  /**
   * Behind the three-way collection gate either delivery gate lets everything through: every
   * collected record is posted, in order, and the count equals the number collected.
   */
  lemma AcceptedAllPosted(g: Gate, all: seq<Record>)
    requires forall r :: r in all ==> Accepted(r)
    ensures Posted(g, all) == all
  {
    PostedIsFilter(g, all);
    if g == PriceOnly {
      Seqs.FilterKeepsAll(PriceKnown, all);
    } else {
      Seqs.FilterKeepsAll(ReferenceAndPriceKnown, all);
    }
  }

  /** A record whose price fell back to `"0"` is never posted, whatever the gate. */
  lemma MissingPriceNeverPosted(g: Gate, all: seq<Record>, r: Record)
    requires r.price == Missing
    ensures r !in Posted(g, all)
  {
  }
}
