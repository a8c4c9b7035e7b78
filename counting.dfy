/** Support counting into a shared counter, which the miner clears between
    levels. */
module Counting {
  import opened ItemGroups

  /** The count a counter holds for `g`; a key it has never seen reads as 0. */
  function Lookup(counts: map<Key, nat>, g: Key): nat
  {
    if g in counts then counts[g] else 0
  }

  /** The counter of item groups that the counting routine updates in place. */
  class Counter {
    var counts: map<Key, nat>

    constructor ()
      ensures counts == map[]
    {
      counts := map[];
    }

    /** `counter[g] += 1`. */
    method Increment(g: Key)
      modifies this
      ensures counts == old(counts)[g := Lookup(old(counts), g) + 1]
      ensures Lookup(counts, g) == Lookup(old(counts), g) + 1
    {
      counts := counts[g := Lookup(counts, g) + 1];
    }

    /** `counter.clear()`. */
    method Clear()
      modifies this
      ensures counts == map[]
    {
      counts := map[];
    }
  }

  /** The outer loop's invariant: `counts` is `start` plus what the first
      `t` transactions contribute. */
  ghost predicate CountedUpTo(items: seq<Key>, transactions: seq<Transaction>, start: map<Key, nat>,
                              counts: map<Key, nat>, t: nat)
    requires t <= |transactions|
  {
    && (forall g {:trigger Lookup(counts, g)} ::
          Lookup(counts, g) == Lookup(start, g) + Occurrences(items, g) * Count(transactions[..t], g))
    && (forall g {:trigger g in counts} ::
          g in counts <==> g in start || (g in items && Count(transactions[..t], g) > 0))
  }

  /** Lines 34-40: adds to `frequencies`, for every group of `items`, the
      number of transactions that hold all of its items, once per occurrence
      of the group in `items`.  A key enters the counter only when some
      transaction holds it. */
  method GetFreq(items: seq<Key>, transactions: seq<Transaction>, frequencies: Counter)
    modifies frequencies
    ensures forall g :: Lookup(frequencies.counts, g)
                        == Lookup(old(frequencies.counts), g) + Occurrences(items, g) * Count(transactions, g)
    ensures forall g :: g in frequencies.counts
                        <==> g in old(frequencies.counts) || (g in items && Count(transactions, g) > 0)
  {
    ghost var start := frequencies.counts;
    var t := 0;
    StartCounting(items, transactions, start);
    while t < |transactions|
      invariant 0 <= t <= |transactions|
      invariant CountedUpTo(items, transactions, start, frequencies.counts, t)
    {
      ghost var before := frequencies.counts;
      CountTransaction(items, transactions[t], frequencies);
      CountStep(items, transactions, start, before, frequencies.counts, t);
      t := t + 1;
    }
    assert transactions[..t] == transactions;
  }

  /** The inner loop of lines 36-40: adds one for every group of `items`
      that the transaction holds, once per occurrence of the group. */
  method CountTransaction(items: seq<Key>, transaction: Transaction, frequencies: Counter)
    modifies frequencies
    ensures forall g {:trigger Lookup(frequencies.counts, g)} ::
              Lookup(frequencies.counts, g)
              == Lookup(old(frequencies.counts), g) + (if Contains(transaction, g) then Occurrences(items, g) else 0)
    ensures forall g {:trigger g in frequencies.counts} ::
              g in frequencies.counts <==> g in old(frequencies.counts) || (g in items && Contains(transaction, g))
  {
    ghost var start := frequencies.counts;
    var k := 0;
    assert items[..0] == [];
    while k < |items|
      invariant 0 <= k <= |items|
      invariant CheckedUpTo(items[..k], transaction, start, frequencies.counts)
    {
      ghost var before := frequencies.counts;
      if Chars(items[k]) <= transaction {
        frequencies.Increment(items[k]);
      }
      CheckStep(items, transaction, start, before, frequencies.counts, k);
      k := k + 1;
    }
    assert items[..k] == items;
  }

  /** The inner loop's invariant: `counts` is `start` plus one for every
      group of `done` that the transaction holds. */
  ghost predicate CheckedUpTo(done: seq<Key>, transaction: Transaction, start: map<Key, nat>,
                              counts: map<Key, nat>)
  {
    && (forall g {:trigger Lookup(counts, g)} ::
          Lookup(counts, g) == Lookup(start, g) + (if Contains(transaction, g) then Occurrences(done, g) else 0))
    && (forall g {:trigger g in counts} :: g in counts <==> g in start || (g in done && Contains(transaction, g)))
  }

  lemma StartCounting(items: seq<Key>, transactions: seq<Transaction>, start: map<Key, nat>)
    ensures CountedUpTo(items, transactions, start, start, 0)
  {
    assert transactions[..0] == [];
    assert forall g :: Count(transactions[..0], g) == 0;
  }

  lemma CheckStep(items: seq<Key>, transaction: Transaction, start: map<Key, nat>,
                  before: map<Key, nat>, counts: map<Key, nat>, k: nat)
    requires k < |items|
    requires CheckedUpTo(items[..k], transaction, start, before)
    requires counts == if Contains(transaction, items[k])
                       then before[items[k] := Lookup(before, items[k]) + 1] else before
    ensures CheckedUpTo(items[..k + 1], transaction, start, counts)
  {
    var done := items[..k + 1];
    assert done[..k] == items[..k];
    assert done == items[..k] + [items[k]];
    forall g ensures Lookup(counts, g)
                     == Lookup(start, g) + (if Contains(transaction, g) then Occurrences(done, g) else 0)
    {
      assert Occurrences(done, g) == Occurrences(items[..k], g) + (if items[k] == g then 1 else 0);
      assert Lookup(before, g)
             == Lookup(start, g) + (if Contains(transaction, g) then Occurrences(items[..k], g) else 0);
      if g == items[k] && Contains(transaction, g) {
        assert Lookup(counts, g) == Lookup(before, g) + 1;
      } else {
        assert Lookup(counts, g) == Lookup(before, g);
      }
    }
    forall g ensures g in counts <==> g in start || (g in done && Contains(transaction, g)) {
      assert g in done <==> g in items[..k] || g == items[k];
    }
  }

  lemma CountStep(items: seq<Key>, transactions: seq<Transaction>, start: map<Key, nat>,
                  before: map<Key, nat>, counts: map<Key, nat>, t: nat)
    requires t < |transactions|
    requires CountedUpTo(items, transactions, start, before, t)
    requires forall g {:trigger Lookup(counts, g)} ::
               Lookup(counts, g)
               == Lookup(before, g) + (if Contains(transactions[t], g) then Occurrences(items, g) else 0)
    requires forall g {:trigger g in counts} ::
               g in counts <==> g in before || (g in items && Contains(transactions[t], g))
    ensures CountedUpTo(items, transactions, start, counts, t + 1)
  {
    var done := transactions[..t + 1];
    assert done[..t] == transactions[..t];
    forall g ensures Lookup(counts, g) == Lookup(start, g) + Occurrences(items, g) * Count(done, g) {
      var c := if Contains(transactions[t], g) then 1 else 0;
      assert Count(done, g) == Count(transactions[..t], g) + c;
      Distribute(Occurrences(items, g), Count(transactions[..t], g), c);
    }
    forall g ensures g in counts <==> g in start || (g in items && Count(done, g) > 0) {
      assert Count(done, g) == Count(transactions[..t], g) + (if Contains(transactions[t], g) then 1 else 0);
    }
  }

  lemma Distribute(a: nat, b: nat, c: nat)
    ensures a * (b + c) == a * b + a * c
  {
  }
}
