/** The level-wise loop's invariant and the proof that each turn keeps it:
    the Apriori property, candidate completeness and the values stored. */
module Levels {
  import opened ItemGroups
  import opened Candidates
  import opened Counting
  import opened Dicts

  /** The items that occur in the level-1 groups. */
  ghost function Alphabet(items: seq<Key>): set<char>
  {
    set g, c | g in items && c in g :: c
  }

  /** A frequent group: a nonempty canonical key over `alphabet` whose
      support reaches `minSupport`. */
  ghost predicate Frequent(transactions: seq<Transaction>, alphabet: set<char>, minSupport: real, g: Key)
  {
    && |transactions| > 0
    && 1 <= |g| && StrictlyAscending(g) && Chars(g) <= alphabet
    && Support(transactions, g) >= minSupport
  }

  /** The value the miner stores for a level-1 item: the counter adds every
      supporting transaction once per occurrence of the item in `items`. */
  ghost function LevelOneValue(items: seq<Key>, transactions: seq<Transaction>, g: Key): real
    requires |transactions| > 0
  {
    (Occurrences(items, g) * Count(transactions, g)) as real / |transactions| as real
  }


  /** The loop's invariant. */
  ghost predicate Mining(items: seq<Key>, transactions: seq<Transaction>, minSupport: real,
                         L: Itemsets, candidates: seq<Key>, n: nat)
    requires |transactions| > 0
  {
    && 1 <= n <= |Alphabet(items)| + 1
    && MinedBelow(items, transactions, minSupport, L, n)
    && CandidatesAt(items, transactions, minSupport, candidates, n)
    && (n == 1 ==> L.support == map[] && L.order == [])
    && (n > 1 ==> exists k :: 0 <= k < |items| && LevelOneValue(items, transactions, items[k]) >= minSupport)
  }

  /** What the loop's invariants give once a level keeps nothing. */
  lemma Mined(items: seq<Key>, transactions: seq<Transaction>, minSupport: real, L: Itemsets,
              candidates: seq<Key>, survivors: Itemsets, n: nat)
    requires |transactions| > 0
    requires Mining(items, transactions, minSupport, L, candidates, n)
    requires Pruned(items, transactions, minSupport, survivors, n)
    requires survivors.support == map[]
    requires n == 1 ==> SinglesKept(items, transactions, minSupport, survivors.support)
    requires n > 1 ==> SinglesKept(items, transactions, minSupport, L.support)
    ensures L.Valid()
    ensures forall g :: g in L.support ==> L.support[g] >= minSupport
    ensures forall g :: g in L.support ==> 1 <= |g| && StrictlyAscending(g) && Chars(g) <= Alphabet(items)
    ensures forall g :: g in L.support && |g| > 1 ==> L.support[g] == Support(transactions, g)
    ensures forall g :: g in L.support && |g| == 1 ==> g in items && L.support[g] == LevelOneValue(items, transactions, g)
    ensures forall g :: Frequent(transactions, Alphabet(items), minSupport, g) ==> g in L.support
    ensures NoDuplicates(items) ==>
      forall g :: g in L.support <==> Frequent(transactions, Alphabet(items), minSupport, g)
    ensures NoDuplicates(items) ==>
      forall g :: g in L.support ==> L.support[g] == Support(transactions, g)
    ensures ByLevel(L.order)
    ensures forall k :: 0 <= k < |items| && LevelOneValue(items, transactions, items[k]) >= minSupport
              ==> items[k] in L.support
    ensures (forall k :: 0 <= k < |items| ==> LevelOneValue(items, transactions, items[k]) < minSupport)
            ==> L.support == map[]
  {
    NothingLongerIsFrequent(items, transactions, minSupport, L, survivors, n);
    forall k | 0 <= k < |items| && LevelOneValue(items, transactions, items[k]) >= minSupport
      ensures items[k] in L.support
    {
      assert SingleFrequent(items, transactions, minSupport, items[k]);
    }
    if NoDuplicates(items) {
      ExactWhenDistinct(items, transactions, minSupport, L, n);
    }
  }

  /** Every level-1 item whose value reaches `minSupport` is a key of
      `support`. */
  ghost predicate SinglesKept(items: seq<Key>, transactions: seq<Transaction>, minSupport: real,
                              support: map<Key, real>)
    requires |transactions| > 0
  {
    forall g {:trigger SingleFrequent(items, transactions, minSupport, g)} ::
      SingleFrequent(items, transactions, minSupport, g) ==> g in support
  }

  /** `g` is a level-1 item whose value reaches `minSupport`. */
  ghost predicate SingleFrequent(items: seq<Key>, transactions: seq<Transaction>, minSupport: real, g: Key)
    requires |transactions| > 0
  {
    g in items && LevelOneValue(items, transactions, g) >= minSupport
  }

  /** Lines 49-59 at level 1 keep every item whose value reaches
      `minSupport`, a repeated item included. */
  lemma SinglesSurvive(items: seq<Key>, transactions: seq<Transaction>, minSupport: real,
                       counts: map<Key, nat>, survivors: Itemsets)
    requires |transactions| > 0
    requires forall g :: Lookup(counts, g) == Occurrences(items, g) * Count(transactions, g)
    requires survivors == Prune(items, counts, |transactions|, minSupport)
    ensures SinglesKept(items, transactions, minSupport, survivors.support)
  {
    forall g | SingleFrequent(items, transactions, minSupport, g) ensures g in survivors.support {
      assert Ratio(counts, g, |transactions|) == LevelOneValue(items, transactions, g);
    }
  }

  /** Line 66 keeps the level-1 items that reach `minSupport`: level 1 adds
      them, and later merges only add keys. */
  lemma SinglesMerged(items: seq<Key>, transactions: seq<Transaction>, minSupport: real, L: Itemsets,
                      survivors: Itemsets, n: nat)
    requires |transactions| > 0 && L.Valid() && survivors.Valid() && 1 <= n
    requires n == 1 ==> SinglesKept(items, transactions, minSupport, survivors.support)
    requires n > 1 ==> SinglesKept(items, transactions, minSupport, L.support)
    ensures SinglesKept(items, transactions, minSupport, Merge(L, survivors).support)
  {
    var merged := Merge(L, survivors).support;
    forall g | SingleFrequent(items, transactions, minSupport, g) ensures g in merged {
      assert g in survivors.support || g in L.support;
    }
  }

  /** The loop's invariant about the result so far, at level `n`: it holds
      the frequent groups of fewer than `n` items, with their values. */
  ghost predicate MinedBelow(items: seq<Key>, transactions: seq<Transaction>, minSupport: real, L: Itemsets, n: nat)
    requires |transactions| > 0
  {
    && L.Valid()
    && (forall g {:trigger g in L.support} :: g in L.support ==>
          1 <= |g| < n && StrictlyAscending(g) && Chars(g) <= Alphabet(items) && L.support[g] >= minSupport)
    && (forall g {:trigger g in L.support} :: g in L.support && |g| > 1 ==>
          L.support[g] == Support(transactions, g))
    && (forall g {:trigger g in L.support} :: g in L.support && |g| == 1 ==>
          g in items && L.support[g] == LevelOneValue(items, transactions, g))
    && (forall g {:trigger Frequent(transactions, Alphabet(items), minSupport, g)} ::
          Frequent(transactions, Alphabet(items), minSupport, g) && |g| < n ==> g in L.support)
    && ByLevel(L.order)
  }

  /** The keys are listed level by level: no key after a longer one. */
  predicate ByLevel(order: seq<Key>)
  {
    forall i, j :: 0 <= i < j < |order| ==> |order[i]| <= |order[j]|
  }

  /** The loop's invariant about the candidates of level `n`: canonical keys
      of `n` items over the alphabet, among them every frequent one. */
  ghost predicate CandidatesAt(items: seq<Key>, transactions: seq<Transaction>, minSupport: real,
                               candidates: seq<Key>, n: nat)
  {
    && (n == 1 ==> candidates == items)
    && (n > 1 ==> NoDuplicates(candidates))
    && (forall g {:trigger g in candidates} :: g in candidates ==>
          |g| == n && StrictlyAscending(g) && Chars(g) <= Alphabet(items))
    && (forall g {:trigger Frequent(transactions, Alphabet(items), minSupport, g)} ::
          Frequent(transactions, Alphabet(items), minSupport, g) && |g| == n ==> g in candidates)
  }

  /** What a level keeps: canonical keys of `n` items over the alphabet,
      among them every frequent one. */
  ghost predicate LevelKept(items: seq<Key>, transactions: seq<Transaction>, minSupport: real,
                             survivors: Itemsets, n: nat)
  {
    && survivors.Valid()
    && (forall g {:trigger g in survivors.support} :: g in survivors.support ==>
          |g| == n && StrictlyAscending(g) && Chars(g) <= Alphabet(items))
    && (forall g {:trigger Frequent(transactions, Alphabet(items), minSupport, g)} ::
          Frequent(transactions, Alphabet(items), minSupport, g) && |g| == n ==> g in survivors.support)
  }

  lemma FirstLevel(items: seq<Key>, transactions: seq<Transaction>, minSupport: real)
    requires |transactions| > 0
    requires forall k :: 0 <= k < |items| ==> |items[k]| == 1
    ensures Mining(items, transactions, minSupport, Itemsets([], map[]), items, 1)
  {
    var alphabet := Alphabet(items);
    forall g | g in items ensures |g| == 1 && StrictlyAscending(g) && Chars(g) <= alphabet {
      assert forall c :: c in g ==> c in alphabet;
    }
    forall g | Frequent(transactions, alphabet, minSupport, g) && |g| == 1 ensures g in items {
      assert g[0] in Chars(g);
      var h, c :| h in items && c in h && c == g[0];
      assert h == [h[0]];
      assert g == [g[0]];
    }
    assert CandidatesAt(items, transactions, minSupport, items, 1);
  }

  /** One level's count and prune: the survivors are canonical keys over
      the alphabet, among them every frequent one, with their values. */
  lemma Kept(items: seq<Key>, transactions: seq<Transaction>, minSupport: real, candidates: seq<Key>,
             n: nat, start: map<Key, nat>, counts: map<Key, nat>, survivors: Itemsets)
    requires |transactions| > 0 && start == map[]
    requires CandidatesAt(items, transactions, minSupport, candidates, n)
    requires forall g :: Lookup(counts, g)
                         == Lookup(start, g) + Occurrences(candidates, g) * Count(transactions, g)
    requires survivors == Prune(candidates, counts, |transactions|, minSupport)
    ensures Pruned(items, transactions, minSupport, survivors, n)
  {
    assert forall g :: Lookup(counts, g) == Occurrences(candidates, g) * Count(transactions, g);
    Survive(items, transactions, minSupport, candidates, n, counts, survivors);
    SurvivorValues(items, transactions, minSupport, candidates, n, counts, survivors);
  }

  /** What one level's count and prune leave behind (`LevelKept` and
      `Carries`). */
  ghost predicate Pruned(items: seq<Key>, transactions: seq<Transaction>, minSupport: real,
                         survivors: Itemsets, n: nat)
    requires |transactions| > 0
  {
    LevelKept(items, transactions, minSupport, survivors, n)
    && Carries(items, transactions, minSupport, survivors, n)
  }

  /** Lines 49-59 keep, of the candidates, every frequent one. */
  lemma Survive(items: seq<Key>, transactions: seq<Transaction>, minSupport: real, candidates: seq<Key>,
                n: nat, counts: map<Key, nat>, survivors: Itemsets)
    requires |transactions| > 0
    requires CandidatesAt(items, transactions, minSupport, candidates, n)
    requires forall g :: Lookup(counts, g) == Occurrences(candidates, g) * Count(transactions, g)
    requires survivors == Prune(candidates, counts, |transactions|, minSupport)
    ensures LevelKept(items, transactions, minSupport, survivors, n)
  {
    forall g | Frequent(transactions, Alphabet(items), minSupport, g) && |g| == n
      ensures g in survivors.support
    {
      assert g in candidates;
      WeightedAtLeast(Occurrences(candidates, g), Count(transactions, g), |transactions|);
    }
  }

  /** A candidate that occurs `o >= 1` times is given at least its support. */
  lemma WeightedAtLeast(o: nat, c: nat, t: nat)
    requires o >= 1 && t > 0
    ensures (o * c) as real / t as real >= c as real / t as real
  {
    assert o * c >= c by {
      assert o * c == c + (o - 1) * c;
    }
    DivideMonotone(c as real, (o * c) as real, t as real);
  }

  lemma DivideMonotone(a: real, b: real, t: real)
    requires a <= b && t > 0.0
    ensures a / t <= b / t
  {
    assert b / t - a / t == (b - a) / t;
  }

  /** Group `g` without its item at position `i`. */
  function Drop(g: Key, i: nat): Key
    requires i < |g|
  {
    g[..i] + g[i + 1..]
  }

  /** Dropping an item from a canonical key leaves the canonical key of the
      other items. */
  lemma DropFacts(g: Key, i: nat)
    requires StrictlyAscending(g) && i < |g|
    ensures |Drop(g, i)| == |g| - 1
    ensures forall k :: 0 <= k < i ==> Drop(g, i)[k] == g[k]
    ensures forall k :: i <= k < |g| - 1 ==> Drop(g, i)[k] == g[k + 1]
    ensures StrictlyAscending(Drop(g, i))
    ensures Chars(Drop(g, i)) == Chars(g) - {g[i]}
  {
    var d := Drop(g, i);
    assert forall k :: 0 <= k < |d| ==> d[k] == if k < i then g[k] else g[k + 1];
    DropChars(g, i);
  }

  lemma DropChars(g: Key, i: nat)
    requires StrictlyAscending(g) && i < |g|
    ensures Chars(Drop(g, i)) == Chars(g) - {g[i]}
  {
    var d := Drop(g, i);
    assert forall k :: 0 <= k < |d| ==> d[k] == if k < i then g[k] else g[k + 1];
    forall c | c in Chars(g) - {g[i]} ensures c in Chars(d) {
      var k :| 0 <= k < |g| && g[k] == c;
      if k < i {
        assert d[k] == c;
      } else {
        assert d[k - 1] == c;
      }
    }
  }

  /** The Apriori property: every group with one item fewer than a frequent
      group is frequent. */
  lemma FrequentDownwardClosed(transactions: seq<Transaction>, alphabet: set<char>, minSupport: real,
                               g: Key, i: nat)
    requires Frequent(transactions, alphabet, minSupport, g)
    requires |g| >= 2 && i < |g|
    ensures Frequent(transactions, alphabet, minSupport, Drop(g, i))
    ensures |Drop(g, i)| == |g| - 1
  {
    DropFacts(g, i);
    var d := Drop(g, i);
    CountAntiMonotone(transactions, d, g);
    DivideMonotone(Count(transactions, g) as real, Count(transactions, d) as real, |transactions| as real);
  }

  /** A frequent group has a frequent subgroup of every smaller size. */
  lemma Shrink(transactions: seq<Transaction>, alphabet: set<char>, minSupport: real, g: Key, m: nat)
    returns (s: Key)
    requires Frequent(transactions, alphabet, minSupport, g)
    requires 1 <= m <= |g|
    ensures Frequent(transactions, alphabet, minSupport, s) && |s| == m
    decreases |g| - m
  {
    if m == |g| {
      s := g;
    } else {
      FrequentDownwardClosed(transactions, alphabet, minSupport, g, |g| - 1);
      s := Shrink(transactions, alphabet, minSupport, Drop(g, |g| - 1), m);
    }
  }

  /** A frequent group of `n` or more items leaves a survivor at level `n`. */
  lemma LongerMeansSurvivor(items: seq<Key>, transactions: seq<Transaction>, minSupport: real,
                            survivors: Itemsets, n: nat, g: Key)
    requires LevelKept(items, transactions, minSupport, survivors, n)
    requires Frequent(transactions, Alphabet(items), minSupport, g)
    requires 1 <= n
    ensures |g| >= n ==> survivors.support != map[]
  {
    if |g| >= n {
      var s := Shrink(transactions, Alphabet(items), minSupport, g, n);
      assert s in survivors.support;
    }
  }

  /** When a level keeps nothing, the result already holds every frequent
      group. */
  lemma NothingLongerIsFrequent(items: seq<Key>, transactions: seq<Transaction>, minSupport: real,
                                L: Itemsets, survivors: Itemsets, n: nat)
    requires |transactions| > 0 && 1 <= n
    requires MinedBelow(items, transactions, minSupport, L, n)
    requires LevelKept(items, transactions, minSupport, survivors, n)
    requires survivors.support == map[]
    ensures forall g :: Frequent(transactions, Alphabet(items), minSupport, g) ==> g in L.support
  {
    forall g | Frequent(transactions, Alphabet(items), minSupport, g) ensures g in L.support {
      LongerMeansSurvivor(items, transactions, minSupport, survivors, n, g);
    }
  }

  lemma SubsetSize(a: set<char>, b: set<char>)
    requires a <= b
    ensures |a| <= |b|
  {
    assert b == a + (b - a);
  }

  /** Merging the survivors of level `n` keeps the loop's invariant for
      level `n + 1`. */
  lemma LevelMerged(items: seq<Key>, transactions: seq<Transaction>, minSupport: real, L: Itemsets,
                    n: nat, survivors: Itemsets)
    requires |transactions| > 0 && 1 <= n
    requires MinedBelow(items, transactions, minSupport, L, n)
    requires LevelKept(items, transactions, minSupport, survivors, n)
    requires Carries(items, transactions, minSupport, survivors, n)
    requires survivors.support != map[]
    requires n > 1 ==> exists k :: 0 <= k < |items| && LevelOneValue(items, transactions, items[k]) >= minSupport
    ensures n <= |Alphabet(items)|
    ensures exists k :: 0 <= k < |items| && LevelOneValue(items, transactions, items[k]) >= minSupport
    ensures MinedBelow(items, transactions, minSupport, Merge(L, survivors), n + 1)
  {
    var g :| g in survivors.support;
    AscendingCardinality(g);
    SubsetSize(Chars(g), Alphabet(items));
    if n == 1 {
      var k :| 0 <= k < |items| && items[k] == g;
      assert LevelOneValue(items, transactions, items[k]) >= minSupport;
    }
    NoOverwrite(items, transactions, minSupport, L, n, survivors);
    var M := Merge(L, survivors);
    MergedByLevel(L, survivors, n, M);
    var alphabet := Alphabet(items);
    forall h | h in M.support
      ensures 1 <= |h| < n + 1 && StrictlyAscending(h) && Chars(h) <= alphabet && M.support[h] >= minSupport
      ensures |h| > 1 ==> M.support[h] == Support(transactions, h)
      ensures |h| == 1 ==> h in items && M.support[h] == LevelOneValue(items, transactions, h)
    {
      if h in survivors.support {
        assert M.support[h] == survivors.support[h];
      } else {
        assert M.support[h] == L.support[h];
      }
    }
    assert forall h {:trigger Frequent(transactions, alphabet, minSupport, h)} ::
          Frequent(transactions, alphabet, minSupport, h) && |h| < n + 1 ==> h in M.support;
  }

  /** One turn of the loop keeps its invariant. */
  lemma NextLevel(items: seq<Key>, transactions: seq<Transaction>, minSupport: real, L: Itemsets,
                  candidates: seq<Key>, survivors: Itemsets, n: nat, nextCandidates: seq<Key>)
    requires |transactions| > 0
    requires Mining(items, transactions, minSupport, L, candidates, n)
    requires Pruned(items, transactions, minSupport, survivors, n)
    requires survivors.support != map[]
    requires NoDuplicates(nextCandidates)
    requires KeySet(nextCandidates) == Joins(survivors.order, n + 1)
    ensures n + 1 <= |Alphabet(items)| + 1
    ensures Mining(items, transactions, minSupport, Merge(L, survivors), nextCandidates, n + 1)
  {
    LevelMerged(items, transactions, minSupport, L, n, survivors);
    NextCandidates(items, transactions, minSupport, survivors, n, nextCandidates);
  }

  /** What the survivors of level `n` carry: at least `minSupport`, the
      support itself above level 1 and the level-1 value at level 1. */
  ghost predicate Carries(items: seq<Key>, transactions: seq<Transaction>, minSupport: real,
                          survivors: Itemsets, n: nat)
    requires |transactions| > 0
  {
    forall h {:trigger h in survivors.support} :: h in survivors.support ==>
      && survivors.support[h] >= minSupport
      && (n == 1 ==> h in items && survivors.support[h] == LevelOneValue(items, transactions, h))
      && (n > 1 ==> survivors.support[h] == Support(transactions, h))
  }

  /** Lines 49-59 store, for every survivor, the value `Carries` names. */
  lemma SurvivorValues(items: seq<Key>, transactions: seq<Transaction>, minSupport: real,
                       candidates: seq<Key>, n: nat, counts: map<Key, nat>, survivors: Itemsets)
    requires |transactions| > 0
    requires n == 1 ==> candidates == items
    requires n > 1 ==> NoDuplicates(candidates)
    requires forall g :: Lookup(counts, g) == Occurrences(candidates, g) * Count(transactions, g)
    requires forall g :: g in survivors.support ==>
               g in candidates && survivors.support[g] == Ratio(counts, g, |transactions|) >= minSupport
    ensures Carries(items, transactions, minSupport, survivors, n)
  {
    forall h | h in survivors.support
      ensures n == 1 ==> h in items && survivors.support[h] == LevelOneValue(items, transactions, h)
      ensures n > 1 ==> survivors.support[h] == Support(transactions, h)
    {
      var o, c := Occurrences(candidates, h), Count(transactions, h);
      if n > 1 {
        OccurrencesOfDistinct(candidates, h);
        OneOccurrence(o, c, Lookup(counts, h), |transactions|);
      }
    }
  }

  lemma OneOccurrence(o: nat, c: nat, l: nat, t: nat)
    requires l == o * c && o == 1 && t > 0
    ensures l as real / t as real == c as real / t as real
  {
  }

  /** The levels of two dicts, the second one level above the first, stay
      in order when the second is appended. */
  lemma MergedByLevel(L: Itemsets, survivors: Itemsets, n: nat, M: Itemsets)
    requires L.Valid() && survivors.Valid()
    requires forall g :: g in L.support ==> |g| < n
    requires forall g :: g in survivors.support ==> |g| == n
    requires ByLevel(L.order)
    requires M.order == L.order + survivors.order
    ensures ByLevel(M.order)
  {
    forall i, j | 0 <= i < j < |M.order| ensures |M.order[i]| <= |M.order[j]| {
      if j >= |L.order| {
        assert M.order[j] == survivors.order[j - |L.order|];
        assert M.order[j] in survivors.support;
        if i < |L.order| {
          assert M.order[i] == L.order[i];
          assert M.order[i] in L.support;
        } else {
          assert M.order[i] == survivors.order[i - |L.order|];
          assert M.order[i] in survivors.support;
        }
      } else {
        assert M.order[i] == L.order[i] && M.order[j] == L.order[j];
      }
    }
  }

  /** The level-1 keys of `order` come in the order of their first
      occurrences in `items`. */
  ghost predicate LevelOneOrdered(order: seq<Key>, items: seq<Key>)
  {
    forall i, j :: 0 <= i < j < |order| && |order[i]| == 1 && |order[j]| == 1 ==>
      FirstIndex(items, order[i]) < FirstIndex(items, order[j])
  }

  /** Line 66 keeps the level-1 keys in the order of `items`: level 1 puts
      them there, and later levels only append longer keys. */
  lemma OrderAfterMerge(items: seq<Key>, L: Itemsets, survivors: Itemsets, n: nat)
    requires L.Valid() && survivors.Valid() && 1 <= n
    requires LevelOneOrdered(L.order, items)
    requires n == 1 ==> L.order == [] && InOrder(survivors.order, items)
    requires forall g :: g in survivors.support ==> |g| == n
    ensures LevelOneOrdered(Merge(L, survivors).order, items)
  {
    var order := Merge(L, survivors).order;
    if n == 1 {
      assert L.support == map[];
      assert order == survivors.order;
    } else {
      forall i, j | 0 <= i < j < |order| && |order[i]| == 1 && |order[j]| == 1
        ensures FirstIndex(items, order[i]) < FirstIndex(items, order[j])
      {
        assert j < |L.order|;
        assert order[i] == L.order[i] && order[j] == L.order[j];
      }
    }
  }

  /** One turn of the loop keeps the level-1 keys of the result in the order
      of `items`. */
  lemma MergedInOrder(items: seq<Key>, transactions: seq<Transaction>, minSupport: real, L: Itemsets,
                      candidates: seq<Key>, survivors: Itemsets, n: nat)
    requires |transactions| > 0
    requires Mining(items, transactions, minSupport, L, candidates, n)
    requires Pruned(items, transactions, minSupport, survivors, n)
    requires LevelOneOrdered(L.order, items)
    requires InOrder(survivors.order, candidates)
    requires n == 1 ==> SinglesKept(items, transactions, minSupport, survivors.support)
    requires n > 1 ==> SinglesKept(items, transactions, minSupport, L.support)
    ensures LevelOneOrdered(Merge(L, survivors).order, items)
    ensures SinglesKept(items, transactions, minSupport, Merge(L, survivors).support)
  {
    OrderAfterMerge(items, L, survivors, n);
    SinglesMerged(items, transactions, minSupport, L, survivors, n);
  }

  /** Line 66 never overwrites an entry: the result so far holds groups of
      fewer than `n` items, and the survivors have exactly `n`. */
  lemma NoOverwrite(items: seq<Key>, transactions: seq<Transaction>, minSupport: real, L: Itemsets,
                    n: nat, survivors: Itemsets)
    requires |transactions| > 0
    requires MinedBelow(items, transactions, minSupport, L, n)
    requires LevelKept(items, transactions, minSupport, survivors, n)
    ensures L.support.Keys !! survivors.support.Keys
  {
    forall g | g in L.support ensures g !in survivors.support {
      assert |g| < n;
    }
  }

  /** The join of the survivors of level `n` gives candidates for level
      `n + 1`, among them every frequent group of that size. */
  lemma NextCandidates(items: seq<Key>, transactions: seq<Transaction>, minSupport: real,
                       survivors: Itemsets, n: nat, candidates: seq<Key>)
    requires 1 <= n
    requires LevelKept(items, transactions, minSupport, survivors, n)
    requires NoDuplicates(candidates)
    requires KeySet(candidates) == Joins(survivors.order, n + 1)
    ensures CandidatesAt(items, transactions, minSupport, candidates, n + 1)
  {
    var order := survivors.order;
    forall g | g in candidates ensures |g| == n + 1 && StrictlyAscending(g) && Chars(g) <= Alphabet(items) {
      assert g in KeySet(candidates);
      var i, j :| 0 <= i < j < |order| && Joinable(order, n + 1, i, j) && g == Canonical(order[i] + order[j]);
      KeyOfUnion(order[i], order[j]);
      assert order[i] in survivors.support && order[j] in survivors.support;
    }
    forall g | Frequent(transactions, Alphabet(items), minSupport, g) && |g| == n + 1
      ensures g in candidates
    {
      JoinFinds(items, transactions, minSupport, survivors, n, g);
      assert g in KeySet(candidates);
    }
  }

  /** A frequent group of `n + 1` items is the join of two of its subgroups
      of `n` items, which both survived level `n`. */
  lemma JoinFinds(items: seq<Key>, transactions: seq<Transaction>, minSupport: real,
                  survivors: Itemsets, n: nat, g: Key)
    requires 1 <= n
    requires LevelKept(items, transactions, minSupport, survivors, n)
    requires Frequent(transactions, Alphabet(items), minSupport, g) && |g| == n + 1
    ensures g in Joins(survivors.order, n + 1)
  {
    var i, j := SurvivingHalves(items, transactions, minSupport, survivors, n, g);
    var order := survivors.order;
    assert Joinable(order, n + 1, i, j);
    KeyOfUnion(order[i], order[j]);
    CanonicalUnique(Canonical(order[i] + order[j]), g);
  }

  /** Positions `i < j` of two survivors of level `n` whose union is the
      frequent group `g` of `n + 1` items. */
  lemma SurvivingHalves(items: seq<Key>, transactions: seq<Transaction>, minSupport: real,
                        survivors: Itemsets, n: nat, g: Key)
    returns (i: nat, j: nat)
    requires 1 <= n
    requires LevelKept(items, transactions, minSupport, survivors, n)
    requires Frequent(transactions, Alphabet(items), minSupport, g) && |g| == n + 1
    ensures i < j < |survivors.order|
    ensures Chars(survivors.order[i]) + Chars(survivors.order[j]) == Chars(g)
    ensures |Chars(g)| == n + 1
  {
    var order := survivors.order;
    var x, y := Drop(g, 0), Drop(g, 1);
    HalvesSurvive(items, transactions, minSupport, survivors, n, g);
    SplitGroup(g);
    var p := IndexOf(order, x);
    var q := IndexOf(order, y);
    if p < q {
      i, j := p, q;
    } else {
      i, j := q, p;
      assert Chars(y) + Chars(x) == Chars(x) + Chars(y);
    }
  }

  lemma HalvesSurvive(items: seq<Key>, transactions: seq<Transaction>, minSupport: real,
                      survivors: Itemsets, n: nat, g: Key)
    requires LevelKept(items, transactions, minSupport, survivors, n)
    requires Frequent(transactions, Alphabet(items), minSupport, g) && |g| == n + 1 && 1 <= n
    ensures Drop(g, 0) in survivors.order && Drop(g, 1) in survivors.order
  {
    FrequentDownwardClosed(transactions, Alphabet(items), minSupport, g, 0);
    FrequentDownwardClosed(transactions, Alphabet(items), minSupport, g, 1);
    assert Drop(g, 0) in survivors.support && Drop(g, 1) in survivors.support;
  }

  lemma IndexOf(order: seq<Key>, x: Key) returns (p: nat)
    requires x in order
    ensures p < |order| && order[p] == x
  {
    p :| 0 <= p < |order| && order[p] == x;
  }

  /** The two subgroups that drop the first and the second item of a
      canonical key are different and together hold all of its items. */
  lemma SplitGroup(g: Key)
    requires StrictlyAscending(g) && |g| >= 2
    ensures Drop(g, 0) != Drop(g, 1)
    ensures Chars(Drop(g, 0)) + Chars(Drop(g, 1)) == Chars(g)
    ensures |Chars(g)| == |g|
  {
    DropFacts(g, 0);
    DropFacts(g, 1);
    assert Drop(g, 0)[0] == g[1] && Drop(g, 1)[0] == g[0];
    AscendingCardinality(g);
  }

  /** Once no level-1 item is repeated, everything the miner keeps is
      frequent and carries its support. */
  lemma ExactWhenDistinct(items: seq<Key>, transactions: seq<Transaction>, minSupport: real,
                          L: Itemsets, n: nat)
    requires |transactions| > 0
    requires MinedBelow(items, transactions, minSupport, L, n)
    requires NoDuplicates(items)
    ensures forall g :: g in L.support ==>
              Frequent(transactions, Alphabet(items), minSupport, g) && L.support[g] == Support(transactions, g)
  {
    forall g | g in L.support
      ensures Frequent(transactions, Alphabet(items), minSupport, g) && L.support[g] == Support(transactions, g)
    {
      if |g| == 1 {
        OccurrencesOfDistinct(items, g);
      }
    }
  }
}
