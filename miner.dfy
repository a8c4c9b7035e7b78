/** The level-wise miner: count the candidates of one size, keep those with
    enough support, join the survivors into the candidates of the next size,
    until a level keeps nothing. */
module Miner {
  import opened ItemGroups
  import opened Candidates
  import opened Counting
  import opened Dicts
  import opened Levels

  /** The level-wise loop.  Given level-1 groups of one item each, the
      result holds every frequent group over their items, listed level by
      level.  Groups of two or more items carry their support; a single
      item carries its occurrences times its count over the number of
      transactions, so a repeated item can be kept below its support.
      With no repeated level-1 item the keys are exactly the frequent
      groups, each with its support. */
  method Apriori(items: seq<Key>, transactions: seq<Transaction>, minSupport: real) returns (L: Itemsets)
    requires |transactions| > 0
    requires forall k :: 0 <= k < |items| ==> |items[k]| == 1
    ensures L.Valid()
    ensures forall g :: g in L.support ==> L.support[g] >= minSupport
    ensures forall g :: g in L.support ==> 1 <= |g| && StrictlyAscending(g) && Chars(g) <= Alphabet(items)
    ensures forall g :: g in L.support && |g| > 1 ==> L.support[g] == Support(transactions, g)
    ensures forall g :: g in L.support && |g| == 1 ==> g in items && L.support[g] == LevelOneValue(items, transactions, g)
    ensures forall g :: Frequent(transactions, Alphabet(items), minSupport, g) ==> g in L.support
    ensures NoDuplicates(items) ==>
      forall g :: g in L.support <==> Frequent(transactions, Alphabet(items), minSupport, g)
    ensures NoDuplicates(items) ==>
      forall g :: g in L.support ==> L.support[g] == Support(transactions, g)
    ensures ByLevel(L.order)
    ensures forall k :: 0 <= k < |items| && LevelOneValue(items, transactions, items[k]) >= minSupport
              ==> items[k] in L.support
    ensures forall i, j :: 0 <= i < j < |L.order| && |L.order[i]| == 1 && |L.order[j]| == 1 ==>
              FirstIndex(items, L.order[i]) < FirstIndex(items, L.order[j])
    ensures (forall k :: 0 <= k < |items| ==> LevelOneValue(items, transactions, items[k]) < minSupport)
            ==> L.support == map[]
  {
    L := Itemsets([], map[]);
    var frequencies := new Counter();
    var candidates := items;
    var n := 1;
    FirstLevel(items, transactions, minSupport);
    while true
      invariant frequencies.counts == map[]
      invariant Mining(items, transactions, minSupport, L, candidates, n)
      invariant LevelOneOrdered(L.order, items)
      invariant forall g :: SingleFrequent(items, transactions, minSupport, g) ==> n == 1 || g in L.support
      decreases |Alphabet(items)| + 1 - n
    {
      var survivors := CountAndPrune(items, transactions, minSupport, candidates, n, frequencies);
      if survivors.support == map[] {
        Mined(items, transactions, minSupport, L, candidates, survivors, n);
        return;
      }
      MergedInOrder(items, transactions, minSupport, L, candidates, survivors, n);
      var nextCandidates := NextItems(items, transactions, minSupport, L, candidates, survivors, n);
      L := Merge(L, survivors);
      candidates := nextCandidates;
      n := n + 1;
    }
  }

  /** Lines 48-61, one level of the loop: counts the candidates, keeps
      those whose value reaches the minimum and clears the counter.  At
      level 1 that keeps every item whose value reaches the minimum. */
  method CountAndPrune(items: seq<Key>, transactions: seq<Transaction>, minSupport: real,
                       candidates: seq<Key>, n: nat, frequencies: Counter) returns (survivors: Itemsets)
    requires |transactions| > 0 && frequencies.counts == map[]
    requires CandidatesAt(items, transactions, minSupport, candidates, n)
    modifies frequencies
    ensures frequencies.counts == map[]
    ensures Pruned(items, transactions, minSupport, survivors, n)
    ensures InOrder(survivors.order, candidates)
    ensures n == 1 ==> SinglesKept(items, transactions, minSupport, survivors.support)
  {
    ghost var start := frequencies.counts;
    GetFreq(candidates, transactions, frequencies);
    ghost var counts := frequencies.counts;
    survivors := Prune(candidates, frequencies.counts, |transactions|, minSupport);
    frequencies.Clear();
    Kept(items, transactions, minSupport, candidates, n, start, counts, survivors);
    if n == 1 {
      assert forall g :: Lookup(counts, g) == Occurrences(items, g) * Count(transactions, g);
      SinglesSurvive(items, transactions, minSupport, counts, survivors);
    }
  }


  /** Lines 66-67 keep the loop's invariant: the join of the survivors
      is the next level's candidates. */
  method NextItems(ghost items: seq<Key>, ghost transactions: seq<Transaction>, ghost minSupport: real,
                   ghost L: Itemsets, ghost candidates: seq<Key>, survivors: Itemsets, n: nat)
    returns (nextCandidates: seq<Key>)
    requires |transactions| > 0
    requires Mining(items, transactions, minSupport, L, candidates, n)
    requires Pruned(items, transactions, minSupport, survivors, n)
    requires survivors.support != map[]
    ensures n + 1 <= |Alphabet(items)| + 1
    ensures Mining(items, transactions, minSupport, Merge(L, survivors), nextCandidates, n + 1)
  {
    nextCandidates := JoinSurvivors(survivors.order, n + 1);
    NextLevel(items, transactions, minSupport, L, candidates, survivors, n, nextCandidates);
  }

  /** Line 67: the distinct keys that the join of the survivors yields, in
      an order the model leaves open. */
  method JoinSurvivors(survivors: seq<Key>, n: nat) returns (candidates: seq<Key>)
    ensures NoDuplicates(candidates)
    ensures KeySet(candidates) == Joins(survivors, n)
  {
    var next;
    ghost var pairs;
    next, pairs := CartesianProduct(survivors, n);
    JoinedKeys(survivors, n, next, pairs);
    candidates := Enumerate(set g | g in next);
  }

}
