/** Association rules over the mined item groups: for two groups that share
    no item and whose union was mined, the rule from either group to the
    other, kept when its confidence reaches the minimum. */
module Rules {
  import opened ItemGroups
  import opened Dicts

  /** `antecedent => consequent`, with the confidence of that rule. */
  datatype Rule = Rule(antecedent: Key, consequent: Key, confidence: real)

  /** Every key has a nonzero value, so that lines 86-87 can divide by it. */
  predicate NonZero(itemsets: Itemsets)
  {
    forall g :: g in itemsets.support ==> itemsets.support[g] != 0.0
  }

  /** `x` and `y` share no item, and the key of their union is in the dict:
      the two tests of lines 82-84.  The test does not depend on which of
      the two comes first. */
  predicate Pairable(itemsets: Itemsets, x: Key, y: Key): (b: bool)
    ensures b <==> Chars(y) * Chars(x) == {} && Canonical(y + x) in itemsets.support
  {
    CanonicalUnion(x, y);
    Chars(x) * Chars(y) == {} && Canonical(x + y) in itemsets.support
  }

  /** The value of `g` over the value of `x`. */
  function Over(itemsets: Itemsets, g: Key, x: Key): real
    requires NonZero(itemsets)
    requires g in itemsets.support && x in itemsets.support
  {
    itemsets.support[g] / itemsets.support[x]
  }

  /** The confidence of `x => y`: the value of the union over the value of
      `x`. */
  function Confidence(itemsets: Itemsets, x: Key, y: Key): real
    requires NonZero(itemsets)
    requires x in itemsets.support && Canonical(x + y) in itemsets.support
  {
    Over(itemsets, Canonical(x + y), x)
  }

  /** What a rule the routine returns is: between two keys of the dict that
      share no item and whose union is a key of the dict, carrying the
      confidence of the rule, which reaches `minConfidence`. */
  predicate Qualifies(itemsets: Itemsets, minConfidence: real, r: Rule)
    requires NonZero(itemsets)
  {
    && r.antecedent in itemsets.support && r.consequent in itemsets.support
    && Pairable(itemsets, r.antecedent, r.consequent)
    && r.confidence == Confidence(itemsets, r.antecedent, r.consequent)
    && r.confidence >= minConfidence
  }

  /** What one visit of the inner loop appends for the groups `x` and `y`
      (lines 81-90): nothing unless the two are pairable, then `x => y` and
      `y => x`, each when its confidence reaches `minConfidence`. */
  function PairRules(itemsets: Itemsets, minConfidence: real, x: Key, y: Key): (r: seq<Rule>)
    requires NonZero(itemsets)
    requires x in itemsets.support && y in itemsets.support
    ensures |r| <= 2
    ensures !Pairable(itemsets, x, y) ==> r == []
    ensures forall k :: 0 <= k < |r| ==>
              && r[k].confidence >= minConfidence
              && ((r[k].antecedent, r[k].consequent) == (x, y) || (r[k].antecedent, r[k].consequent) == (y, x))
  {
    if !Pairable(itemsets, x, y) then []
    else
      var union := Canonical(x + y);
      var forward := Over(itemsets, union, x);
      var backward := Over(itemsets, union, y);
      (if forward >= minConfidence then [Rule(x, y, forward)] else [])
      + (if backward >= minConfidence then [Rule(y, x, backward)] else [])
  }

  /** The rows the outer loop visits: `range(N - 1)`, none when `N` is 0. */
  function Rows(itemsets: Itemsets): nat
  {
    if |itemsets.order| == 0 then 0 else |itemsets.order| - 1
  }

  /** `rules` holds what the groups `x` and `y` yield when they are
      pairable: `x => y` and `y => x`, each with the value of the union over
      the value of its antecedent, whenever that reaches `minConfidence`. */
  ghost predicate Emits(itemsets: Itemsets, minConfidence: real, rules: seq<Rule>, x: Key, y: Key)
    requires NonZero(itemsets)
    requires x in itemsets.support && y in itemsets.support
  {
    Pairable(itemsets, x, y) ==>
      var union := Canonical(x + y);
      && (Over(itemsets, union, x) >= minConfidence ==> Rule(x, y, Over(itemsets, union, x)) in rules)
      && (Over(itemsets, union, y) >= minConfidence ==> Rule(y, x, Over(itemsets, union, y)) in rules)
  }

  /** The loops' invariant about the pairs visited before `(i, j)`: those
      of the rows above `i`, and those of row `i` before column `j`. */
  ghost predicate Covers(itemsets: Itemsets, minConfidence: real, rules: seq<Rule>, i: nat, j: nat)
    requires itemsets.Valid() && NonZero(itemsets)
  {
    forall p, q {:trigger Emits(itemsets, minConfidence, rules, itemsets.order[p], itemsets.order[q])} ::
      0 <= p <= q < |itemsets.order| && (p < i || (p == i && q < j))
      ==> Emits(itemsets, minConfidence, rules, itemsets.order[p], itemsets.order[q])
  }

  /** Lines 72-92.  Every rule returned qualifies, and every pair `(i, j)`
      the loops visit, `i < N - 1` and `i <= j < N`, has its rules in the
      result. */
  method GetRules(itemsets: Itemsets, minConfidence: real) returns (rules: seq<Rule>)
    requires itemsets.Valid() && NonZero(itemsets)
    ensures forall r :: r in rules ==> Qualifies(itemsets, minConfidence, r)
    ensures forall i, j :: 0 <= i < Rows(itemsets) && i <= j < |itemsets.order|
                           ==> Emits(itemsets, minConfidence, rules, itemsets.order[i], itemsets.order[j])
  {
    rules := [];
    var itemGroups := itemsets.order;
    var count := |itemGroups|;
    var i := 0;
    while i < count - 1
      invariant 0 <= i <= Rows(itemsets)
      invariant forall r :: r in rules ==> Qualifies(itemsets, minConfidence, r)
      invariant Covers(itemsets, minConfidence, rules, i, i)
    {
      var x := itemGroups[i];
      var j := i;
      while j < count
        invariant i <= j <= count
        invariant forall r :: r in rules ==> Qualifies(itemsets, minConfidence, r)
        invariant Covers(itemsets, minConfidence, rules, i, j)
      {
        var y := itemGroups[j];
        ghost var before := rules;
        rules := AppendPairRules(itemsets, minConfidence, x, y, rules);
        PairStep(itemsets, minConfidence, i, j, before, rules);
        j := j + 1;
      }
      NextRow(itemsets, minConfidence, rules, i);
      i := i + 1;
    }
    Covered(itemsets, minConfidence, rules);
  }

  /** Lines 81-90, one visit of the inner loop: appends to `before` the
      rules of the groups `x` and `y`. */
  method AppendPairRules(itemsets: Itemsets, minConfidence: real, x: Key, y: Key, before: seq<Rule>)
    returns (rules: seq<Rule>)
    requires NonZero(itemsets)
    requires x in itemsets.support && y in itemsets.support
    ensures rules == before + PairRules(itemsets, minConfidence, x, y)
  {
    rules := before;
    if Chars(x) * Chars(y) == {} {
      var itemGroup := Canonical(x + y);
      if itemGroup in itemsets.support {
        var forward := itemsets.support[itemGroup] / itemsets.support[x];
        var backward := itemsets.support[itemGroup] / itemsets.support[y];
        ghost var first := if forward >= minConfidence then [Rule(x, y, forward)] else [];
        ghost var second := if backward >= minConfidence then [Rule(y, x, backward)] else [];
        if forward >= minConfidence {
          rules := rules + [Rule(x, y, forward)];
        }
        assert rules == before + first;
        if backward >= minConfidence {
          rules := rules + [Rule(y, x, backward)];
        }
        Associate(before, first, second);
        assert first + second == PairRules(itemsets, minConfidence, x, y);
      } else {
        assert PairRules(itemsets, minConfidence, x, y) == [];
      }
    } else {
      assert PairRules(itemsets, minConfidence, x, y) == [];
    }
  }

  /** A finished row: the pairs before `(i, N)` are those before the
      first pair `(i + 1, i + 1)` of the next row. */
  lemma NextRow(itemsets: Itemsets, minConfidence: real, rules: seq<Rule>, i: nat)
    requires itemsets.Valid() && NonZero(itemsets)
    requires Covers(itemsets, minConfidence, rules, i, |itemsets.order|)
    ensures Covers(itemsets, minConfidence, rules, i + 1, i + 1)
  {
  }

  /** What the loops' invariant gives once every row is done. */
  lemma Covered(itemsets: Itemsets, minConfidence: real, rules: seq<Rule>)
    requires itemsets.Valid() && NonZero(itemsets)
    requires Covers(itemsets, minConfidence, rules, Rows(itemsets), Rows(itemsets))
    ensures forall i, j :: 0 <= i < Rows(itemsets) && i <= j < |itemsets.order|
                           ==> Emits(itemsets, minConfidence, rules, itemsets.order[i], itemsets.order[j])
  {
  }

  lemma Associate(a: seq<Rule>, b: seq<Rule>, c: seq<Rule>)
    ensures (a + b) + c == a + (b + c)
  {
  }

  /** One visit of the inner loop keeps its invariants. */
  lemma PairStep(itemsets: Itemsets, minConfidence: real, i: nat, j: nat, before: seq<Rule>, rules: seq<Rule>)
    requires itemsets.Valid() && NonZero(itemsets)
    requires i <= j < |itemsets.order|
    requires forall r :: r in before ==> Qualifies(itemsets, minConfidence, r)
    requires Covers(itemsets, minConfidence, before, i, j)
    requires rules == before + PairRules(itemsets, minConfidence, itemsets.order[i], itemsets.order[j])
    ensures forall r :: r in rules ==> Qualifies(itemsets, minConfidence, r)
    ensures Covers(itemsets, minConfidence, rules, i, j + 1)
  {
    var order := itemsets.order;
    PairSound(itemsets, minConfidence, order[i], order[j]);
    forall p, q | 0 <= p <= q < |order| && (p < i || (p == i && q < j + 1))
      ensures Emits(itemsets, minConfidence, rules, order[p], order[q])
    {
      var emitted := PairRules(itemsets, minConfidence, order[i], order[j]);
      if p == i && q == j {
        PairEmits(itemsets, minConfidence, order[p], order[q]);
        EmitsIn(itemsets, minConfidence, emitted, rules, order[p], order[q]);
      } else {
        EmitsIn(itemsets, minConfidence, before, rules, order[p], order[q]);
      }
    }
  }

  /** The rules of one pair qualify. */
  lemma PairSound(itemsets: Itemsets, minConfidence: real, x: Key, y: Key)
    requires NonZero(itemsets)
    requires x in itemsets.support && y in itemsets.support
    ensures forall r :: r in PairRules(itemsets, minConfidence, x, y) ==> Qualifies(itemsets, minConfidence, r)
  {
    if Pairable(itemsets, x, y) {
      CanonicalUnion(x, y);
      assert Pairable(itemsets, y, x);
      var union := Canonical(x + y);
      assert Confidence(itemsets, x, y) == Over(itemsets, union, x);
      assert Confidence(itemsets, y, x) == Over(itemsets, union, y);
    }
  }

  /** A pair's own rules are what `Emits` asks of it. */
  lemma PairEmits(itemsets: Itemsets, minConfidence: real, x: Key, y: Key)
    requires NonZero(itemsets)
    requires x in itemsets.support && y in itemsets.support
    ensures Emits(itemsets, minConfidence, PairRules(itemsets, minConfidence, x, y), x, y)
  {
  }

  /** What `small` holds for a pair, every `large` that holds all of
      `small` holds too. */
  lemma EmitsIn(itemsets: Itemsets, minConfidence: real, small: seq<Rule>, large: seq<Rule>, x: Key, y: Key)
    requires NonZero(itemsets)
    requires x in itemsets.support && y in itemsets.support
    requires Emits(itemsets, minConfidence, small, x, y)
    requires forall r :: r in small ==> r in large
    ensures Emits(itemsets, minConfidence, large, x, y)
  {
  }

  /** For the nonempty keys the miner produces, the result of `GetRules`
      holds every qualifying rule, whatever the positions of its two keys
      in the dict. */
  lemma RulesOfKeys(itemsets: Itemsets, minConfidence: real, rules: seq<Rule>, x: Key, y: Key)
    requires itemsets.Valid() && NonZero(itemsets)
    requires forall i, j :: 0 <= i < Rows(itemsets) && i <= j < |itemsets.order|
                           ==> Emits(itemsets, minConfidence, rules, itemsets.order[i], itemsets.order[j])
    requires x in itemsets.support && y in itemsets.support && x != []
    requires Pairable(itemsets, x, y)
    requires Confidence(itemsets, x, y) >= minConfidence
    ensures Rule(x, y, Confidence(itemsets, x, y)) in rules
  {
    var order := itemsets.order;
    var p :| 0 <= p < |order| && order[p] == x;
    var q :| 0 <= q < |order| && order[q] == y;
    assert x[0] in Chars(x) * Chars(x);
    assert x != y;
    if p < q {
      assert Emits(itemsets, minConfidence, rules, order[p], order[q]);
    } else {
      assert Emits(itemsets, minConfidence, rules, order[q], order[p]);
      EmittedBackward(itemsets, minConfidence, rules, x, y);
    }
  }

  /** The rule `x => y` that the pair `(y, x)` yields is the one of the
      pair `(x, y)`. */
  lemma EmittedBackward(itemsets: Itemsets, minConfidence: real, rules: seq<Rule>, x: Key, y: Key)
    requires NonZero(itemsets)
    requires x in itemsets.support && y in itemsets.support
    requires Emits(itemsets, minConfidence, rules, y, x)
    requires Pairable(itemsets, x, y)
    requires Confidence(itemsets, x, y) >= minConfidence
    ensures Rule(x, y, Confidence(itemsets, x, y)) in rules
  {
    CanonicalUnion(y, x);
    assert Pairable(itemsets, y, x);
  }

  /** When the dict holds true supports, the confidence of `x => y` is the
      fraction of the transactions holding `x` that also hold `y`, so at
      most 1. */
  lemma ConfidenceOfSupports(itemsets: Itemsets, transactions: seq<Transaction>, x: Key, y: Key)
    requires |transactions| > 0 && NonZero(itemsets)
    requires forall g :: g in itemsets.support ==> itemsets.support[g] == Support(transactions, g)
    requires x in itemsets.support && Canonical(x + y) in itemsets.support
    ensures Count(transactions, x) > 0
    ensures Confidence(itemsets, x, y) == Count(transactions, Canonical(x + y)) as real / Count(transactions, x) as real
    ensures Confidence(itemsets, x, y) <= 1.0
  {
    var t := |transactions| as real;
    var union := Canonical(x + y);
    var u := Count(transactions, union) as real;
    var c := Count(transactions, x) as real;
    assert itemsets.support[x] == c / t;
    assert itemsets.support[union] == u / t;
    CanonicalUnion(x, y);
    CountAntiMonotone(transactions, x, union);
    Cancel(u, c, t);
  }

  /** `(u / t) / (c / t) == u / c <= 1` when `0 < u <= c`. */
  lemma Cancel(u: real, c: real, t: real)
    requires t > 0.0 && 0.0 <= u <= c && u / t != 0.0
    ensures c > 0.0
    ensures (u / t) / (c / t) == u / c
    ensures u / c <= 1.0
  {
    assert u != 0.0;
    var a, b := u / t, c / t;
    assert a * t == u && b * t == c;
    assert b > 0.0;
    assert (a / b) * c == a / b * (b * t);
  }
}
