# Apriori: frequent item groups and association rules

This project models the Apriori miner in `apriori_algo.py` and proves
properties of the model.

- **Items** are single characters. An **item group** is keyed by its
  canonical string: its distinct items in ascending order.
- A **transaction** is a set of items.
- The **support** of a group is the fraction of transactions that hold
  all of its items.

The miner works level by level. At level `n` it does four things:

1. It counts, with a shared `Counter`, how many transactions hold each
   candidate group of `n` items. A level-1 item listed more than once is
   counted once per occurrence.
2. It keeps the candidates whose value, the count over the number of
   transactions, reaches the minimum support. That value is the support
   except for such a repeated item (see "## Left out").
3. It merges them into the result dict.
4. It joins the kept groups pairwise into the candidates of level `n + 1`.
   A pair contributes when its union has `n + 1` items.

The miner stops at the first level that keeps nothing. The rule routine
looks at every pair of mined groups that share no item and whose union
was mined. It emits the rule from either group to the other when the
rule's confidence reaches the minimum. The confidence is the value of the
union divided by the value of the antecedent.

Modules:

- `ItemGroups` (`itemgroups.dfy`): keys, transactions, and `Count`, the
  number of transactions that hold a group. `Support` is its fraction.
  Also the canonical key `''.join(sorted(set(s)))`, and the lemmas that
  make canonical keys unique per set of items.
- `Candidates` (`candidates.dfy`): `cartesian_product`, as the two nested
  loops of the generator. The method returns what the generator yields, in
  the same order. Ghost positions record the pair behind each key.
- `Counting` (`counting.dfy`): the `Counter` class, whose `counts` field is
  updated in place. Also `get_freq` and its inner loop.
- `Dicts` (`dicts.dfy`): Python's insertion-ordered dicts. `Itemsets` holds
  the key order and the mapping. Also the comprehensions of lines 49-59,
  the merge `{**L, **L_temp}`, and iteration over a set.
- `Levels` (`levels.dfy`): the level loop's invariant and the lemmas that
  show each turn keeps it. These include the Apriori (downward-closure)
  property and the completeness of the join.
- `Miner` (`miner.dfy`): `apriori` as an imperative loop over a `Counter`
  object.
- `Rules` (`rules.dfy`): `get_rules` as two nested loops, with their
  invariants.

The main theorem is the contract of `Miner.Apriori`. Given level-1 groups
of one item each, the result holds every frequent group over their items.
Each group of two or more items carries its exact support. The keys are
listed level by level, and the single items come in the order of their
first occurrence in the level-1 list. When no level-1 item is repeated,
the keys are exactly the frequent groups and every value is the exact
support.

## Model

| member | source | states |
|---|---|---|
| ItemGroups.Insert | apriori_algo.py:31 | adding one item to an ascending key keeps it ascending, and its items become the old items plus the new one |
| ItemGroups.Canonical | apriori_algo.py:31 | `''.join(sorted(s))` of a set of items: the result is strictly ascending and has exactly the items of `s` |
| ItemGroups.AscendingCardinality | apriori_algo.py:30-31 | a canonical key has one character per item, so the key's length is the size of the item set |
| ItemGroups.CanonicalUnique | apriori_algo.py:31 | two strictly ascending keys with the same items are equal, so the canonical key identifies a set of items |
| ItemGroups.CanonicalUnion | apriori_algo.py:83 | the key of the union of `set(X)` and `set(Y)` has the items of both groups and does not depend on their order |
| ItemGroups.KeyOfUnion | apriori_algo.py:28-31 | the joined key is ascending, has the items of both groups, and its length is the size of their union |
| ItemGroups.Count | apriori_algo.py:39 | the number of transactions that hold all items of the group, at most the number of transactions |
| ItemGroups.Support | apriori_algo.py:50 | the fraction of transactions that hold the group, between 0 and 1 |
| ItemGroups.CountAntiMonotone | apriori_algo.py:39 | a group is held by at most as many transactions as any group with a subset of its items |
| ItemGroups.Occurrences | apriori_algo.py:36 | how often a group appears in the item list: positive exactly when it appears, and at most the list's length |
| ItemGroups.OccurrencesOfDistinct | apriori_algo.py:36 | in a list without repeats, a group that appears does so once |
| Candidates.CartesianProduct | apriori_algo.py:4-31 | yields, once per pair of positions `i < j` whose union has `n_set` items, the canonical key of that union, in the order the pairs are visited; every such pair is visited, none with fewer than two items |
| Candidates.JoinRow | apriori_algo.py:27-31 | the inner loop: the keys of the pairs `(i, j)`, `j > i`, whose union has `n_set` items, in increasing order of `j`, each such `j` included |
| Candidates.YieldedKey | apriori_algo.py:28-31 | a yielded key is ascending, has exactly `n_set` items, and is the union of its pair's items |
| Candidates.JoinedKeys | apriori_algo.py:67 | the keys the join yields are exactly the keys of the joinable pairs, so `set(...)` of them is that set |
| Counting.Counter.constructor | apriori_algo.py:45 | a new `Counter()` is empty |
| Counting.Counter.Increment | apriori_algo.py:40 | `frequencies[g] += 1`: the count of `g` grows by one, a missing key counting as 0; nothing else changes |
| Counting.Counter.Clear | apriori_algo.py:61 | `frequencies.clear()` leaves the counter empty |
| Counting.GetFreq | apriori_algo.py:34-40 | each group's count grows by the number of transactions holding it, times its occurrences in `items`; a key enters the counter only when some transaction holds it |
| Counting.CountTransaction | apriori_algo.py:36-40 | one transaction adds one to the count of every group it holds, once per occurrence; no other count changes |
| Dicts.FirstIndex | apriori_algo.py:49-52 | the position of a key's first occurrence in a list, or the list's length when it does not occur: the place a dict filled from that list gives the key |
| Dicts.Distinct | apriori_algo.py:49-52 | the keys of a dict built by iterating over a list: every element once, nothing else, in the order of first occurrence |
| Dicts.Survivors | apriori_algo.py:55-59 | exactly the keys whose support reaches the minimum, in the order they had: any first-occurrence order the input follows, the result follows |
| Dicts.Ratio | apriori_algo.py:50 | `count / len(transactions)`: never negative, times the number of transactions it gives back the count, 0 for a missing key, at most 1 when the count is at most the number of transactions |
| Dicts.Prune | apriori_algo.py:49-59 | `L_temp` holds exactly the candidates whose support `count / len(transactions)` reaches the minimum, each with that support, keyed in the order of the candidates' first occurrences |
| Dicts.Unseen | apriori_algo.py:66 | exactly the keys of `b` that `a` lacks, in the order they have in `b`; all of `b` when none is in `a` |
| Dicts.Merge | apriori_algo.py:66 | `{**a, **b}` has the keys of both, each with `b`'s value where `b` has one and `a`'s otherwise; `a`'s keys keep their places, and after them come exactly `b`'s new keys, in `b`'s order |
| Dicts.Enumerate | apriori_algo.py:67 | iterating over a set lists each element exactly once and nothing else |
| Levels.FirstLevel | apriori_algo.py:44-47 | the loop's invariant holds on entry: an empty result and the level-1 items as candidates, among them every frequent single item |
| Levels.Survive | apriori_algo.py:49-59 | the survivors of a level are ascending keys of `n` items over the alphabet, and every frequent group of `n` items survives |
| Levels.SurvivorValues | apriori_algo.py:49-59 | each survivor's value reaches the minimum; it is the exact support above level 1, and at level 1 the item's occurrences in the list times its transaction count, over the number of transactions |
| Levels.Kept | apriori_algo.py:48-59 | counting then pruning one level gives survivors with both properties above |
| Levels.NoOverwrite | apriori_algo.py:66 | the merge never overwrites an earlier entry: the survivors' keys are disjoint from the result's so far |
| Levels.OrderAfterMerge | apriori_algo.py:49-66 | the merge keeps the result's single items in the order of their first occurrence in the level-1 list, given that level 1's survivors are in that order and later survivors are longer |
| Levels.MergedInOrder | apriori_algo.py:47-66 | one turn of the loop keeps the result's single items in the order of the level-1 list, and keeps every level-1 item whose value reaches the minimum |
| Levels.SinglesSurvive | apriori_algo.py:49-59 | at level 1, every listed item whose value `occurrences * count / len(transactions)` reaches the minimum is in `L_temp` |
| Levels.SinglesMerged | apriori_algo.py:66 | those level-1 survivors stay in the result through every later merge |
| Levels.FrequentDownwardClosed | apriori_algo.py:43-69 | the Apriori property: removing one item from a frequent group leaves a frequent group |
| Levels.Shrink | apriori_algo.py:43-69 | a frequent group has a frequent subgroup of every smaller size |
| Levels.NothingLongerIsFrequent | apriori_algo.py:63-64 | when a level keeps nothing, no frequent group is missing from the result, so stopping there loses nothing |
| Levels.LevelMerged | apriori_algo.py:66 | merging the survivors keeps the result invariant for the next level: keys, values, completeness below `n + 1` and level order |
| Levels.JoinFinds | apriori_algo.py:67 | every frequent group of `n + 1` items is the join of two survivors of level `n` |
| Levels.NextCandidates | apriori_algo.py:67 | the join of the survivors gives distinct candidates of `n + 1` items over the alphabet, among them every frequent one |
| Levels.NextLevel | apriori_algo.py:47-67 | one turn of the loop keeps its invariant, and the level stays within the alphabet's size plus one (termination) |
| Levels.Mined | apriori_algo.py:63-69 | on exit, the result holds every frequent group and every level-1 item whose value reaches the minimum, with their values, level by level; with distinct items it holds exactly the frequent groups |
| Levels.ExactWhenDistinct | apriori_algo.py:43-69 | with no repeated level-1 item, every key of the result is frequent and carries its exact support |
| Miner.Apriori | apriori_algo.py:43-69 | the result holds every frequent group. Values reach the minimum support, and groups of two or more items carry their exact support. Keys are canonical over the items' alphabet and listed level by level, the single items in the order of their first occurrence in `items`. Every listed item whose level-1 value reaches the minimum is kept. With distinct items, the keys are exactly the frequent groups with their supports. None survives when no level-1 value reaches the minimum |
| Miner.CountAndPrune | apriori_algo.py:48-61 | one level's count, prune and clear: the counter ends empty; the survivors are ascending keys of `n` items, in candidate order, with values reaching the minimum; every frequent group of `n` items survives, and at level 1 so does every item whose value reaches the minimum |
| Miner.NextItems | apriori_algo.py:66-67 | the join of the survivors, with the merged result, keeps the loop's invariant |
| Miner.JoinSurvivors | apriori_algo.py:67 | `set(cartesian_product(...))` lists, without repeats, exactly the keys of the joinable pairs of survivors |
| Rules.GetRules | apriori_algo.py:72-92 | every rule returned joins two disjoint mined groups whose union was mined, with confidence `value(union) / value(antecedent)` at least `conf_lvl`. Every visited pair `i < N - 1`, `i <= j < N` has both of its qualifying rules in the result |
| Rules.Pairable | apriori_algo.py:82-84 | the two tests (no shared item, union mined) give the same answer with the two groups swapped |
| Rules.PairRules | apriori_algo.py:81-90 | one pair yields at most two rules, none unless it is pairable, each between the two groups in one direction or the other with confidence at least `conf_lvl` |
| Rules.AppendPairRules | apriori_algo.py:81-90 | one visit of the inner loop appends exactly the pair's rules to the list |
| Rules.PairSound | apriori_algo.py:81-90 | the rules that one visit appends all qualify |
| Rules.EmittedBackward | apriori_algo.py:87-90 | the rule `Y => X` appended for the pair `(X, Y)` is the rule `Y => X` with its own confidence |
| Rules.RulesOfKeys | apriori_algo.py:77-90 | for nonempty groups, every qualifying rule is in the result, whichever of its two groups comes first in the dict |
| Rules.ConfidenceOfSupports | apriori_algo.py:86-87 | on true supports, the confidence of `X => Y` is the fraction of transactions holding `X` that also hold `Y`, at most 1 |

## Left out

- The `__main__` block of `apriori_algo.py` (lines 95-109) is left out. It holds example data and prints the result.
- Item groups in the source are strings. The model uses `seq<char>`, with no Unicode or encoding details.
- Supports and confidences are IEEE floating-point numbers in the source. The model uses exact reals, so rounding is not modelled.
- Miner.Apriori requires a nonempty transaction list. With an empty list and a nonempty `items`, the source raises `ZeroDivisionError` at line 50. With both empty it divides nothing and returns `{}`. The model covers neither case.
- Miner.Apriori requires every level-1 group to be one character, as in the example data at line 105. `main.py:16` instead passes the spreadsheet's column labels, which may be longer. Line 39 tests each character of a label against transactions that hold whole labels. So a longer label is counted only in transactions that hold each of its characters as a label of its own; with no single-character labels it is never counted. That case is not modelled: the frequent-group guarantee is about single-character items.
- Rules.GetRules requires every value in the dict to be nonzero. The source divides only by the values of the two keys of a pair that passes the tests of lines 82-84, and raises `ZeroDivisionError` when one of those is 0; a zero value on any other key raises nothing. The model covers neither case.
- `itertools.count` (line 47) is an unbounded counter. The model uses a loop on `n`, whose termination measure is the alphabet's size plus one minus `n`.
- Iteration over the Python `set` built at line 67 has no specified order. `Dicts.Enumerate` lists its elements in an order the model leaves open. Everything proved holds whatever that order is.
- Miner.Apriori, on a level-1 list with repeated items, states each single item's value as `occurrences * count / len(transactions)`, which is what the source computes. The single items kept are exactly those whose value reaches the minimum, so a repeated item can be kept below the true support. The exact-support and exactly-frequent clauses are stated only when no level-1 item is repeated.
- Rules.GetRules states which rules the result holds, both soundness and completeness over the visited pairs. It does not state their order or how often each appears. The source's `continue` statements are modelled as nested `if`s.
- The thresholds `min_support` and `conf_lvl` are not checked against `[0, 1]`. The source does not check them either.
- Duplicate candidates: `cartesian_product` can yield the same key for several pairs. The code removes these repeats by wrapping the generator in `set(...)` at line 67, before counting. The model does the same, so a level's candidates never repeat, although the generator itself is modelled with its repeats.
