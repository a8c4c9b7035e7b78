/** Python dicts as the miner uses them: insertion-ordered mappings from
    item groups to supports, and the comprehensions and merges over them. */
module Dicts {
  import opened ItemGroups
  import opened Counting

  /** A dict from item groups to supports: its keys in insertion order, and
      the mapping itself. */
  datatype Itemsets = Itemsets(order: seq<Key>, support: map<Key, real>)
  {
    /** The order lists every key of the mapping exactly once. */
    predicate Valid()
    {
      && NoDuplicates(order)
      && (forall g :: g in support ==> g in order)
      && (forall g :: g in order ==> g in support)
    }
  }

  /** The position of the first occurrence of `g` in `s`, or `|s|` when
      `g` does not occur. */
  function FirstIndex(s: seq<Key>, g: Key): (r: nat)
    ensures r <= |s|
    ensures r < |s| <==> g in s
    ensures r < |s| ==> s[r] == g
    ensures forall k :: 0 <= k < r ==> s[k] != g
  {
    if s == [] then 0
    else if s[0] == g then 0
    else
      assert s == [s[0]] + s[1..];
      1 + FirstIndex(s[1..], g)
  }

  /** `r` lists keys of `s` in the order of their first occurrences in `s`:
      the key order of a dict filled by iterating over `s`. */
  predicate InOrder(r: seq<Key>, s: seq<Key>)
  {
    && (forall g :: g in r ==> g in s)
    && (forall i, j :: 0 <= i < j < |r| ==> FirstIndex(s, r[i]) < FirstIndex(s, r[j]))
  }

  /** Appending a key to `s` leaves the first occurrences of the keys
      already in `s` where they were, and puts a new key last. */
  lemma FirstIndexAppend(s: seq<Key>, c: Key)
    ensures forall g :: g in s ==> FirstIndex(s + [c], g) == FirstIndex(s, g)
    ensures c !in s ==> FirstIndex(s + [c], c) == |s|
  {
    forall g | g in s ensures FirstIndex(s + [c], g) == FirstIndex(s, g) {
      var a, b := FirstIndex(s + [c], g), FirstIndex(s, g);
      assert (s + [c])[b] == g;
      assert s[a] == g;
    }
  }

  /** A list without repeats is in its own order. */
  lemma SelfInOrder(s: seq<Key>)
    requires NoDuplicates(s)
    ensures InOrder(s, s)
  {
    forall i, j | 0 <= i < j < |s| ensures FirstIndex(s, s[i]) < FirstIndex(s, s[j]) {
      assert FirstIndex(s, s[i]) <= i;
      assert FirstIndex(s, s[j]) == j by {
        var k := FirstIndex(s, s[j]);
        assert s[k] == s[j];
      }
    }
  }

  /** `counts[g] / total`, the support that line 50 computes (a true
      division; floating-point rounding is not modelled). */
  function Ratio(counts: map<Key, nat>, g: Key, total: nat): (r: real)
    requires total > 0
    ensures r >= 0.0
    ensures r * total as real == Lookup(counts, g) as real
    ensures g !in counts ==> r == 0.0
    ensures Lookup(counts, g) <= total ==> r <= 1.0
  {
    Lookup(counts, g) as real / total as real
  }

  /** The distinct elements of `s` in order of first occurrence: the key
      order of a dict built by iterating over `s`. */
  function Distinct(s: seq<Key>): (r: seq<Key>)
    ensures NoDuplicates(r)
    ensures forall g :: g in r <==> g in s
    ensures InOrder(r, s)
  {
    if s == [] then []
    else
      var p := Distinct(s[..|s| - 1]);
      assert s == s[..|s| - 1] + [s[|s| - 1]];
      DistinctStep(s[..|s| - 1], p, s[|s| - 1]);
      if s[|s| - 1] in p then p else p + [s[|s| - 1]]
  }

  lemma DistinctStep(s: seq<Key>, p: seq<Key>, c: Key)
    requires forall g :: g in p <==> g in s
    requires InOrder(p, s)
    ensures InOrder(if c in p then p else p + [c], s + [c])
  {
    FirstIndexAppend(s, c);
    var r := if c in p then p else p + [c];
    forall i, j | 0 <= i < j < |r| ensures FirstIndex(s + [c], r[i]) < FirstIndex(s + [c], r[j]) {
      assert r[i] == p[i];
      if j < |p| {
        assert r[j] == p[j];
      } else {
        assert r[j] == c && p[i] in s;
      }
    }
  }

  /** The keys whose support reaches `minSupport`, in the order they have
      in `keys`: whatever order `keys` follows, the result follows too. */
  function Survivors(keys: seq<Key>, counts: map<Key, nat>, total: nat, minSupport: real): (r: seq<Key>)
    requires total > 0
    ensures forall g :: g in r <==> g in keys && Ratio(counts, g, total) >= minSupport
    ensures NoDuplicates(keys) ==> NoDuplicates(r)
    ensures forall s :: InOrder(keys, s) ==> InOrder(r, s)
  {
    if keys == [] then []
    else
      var rest := Survivors(keys[1..], counts, total, minSupport);
      assert keys == [keys[0]] + keys[1..];
      FilterStep(keys, rest, Ratio(counts, keys[0], total) >= minSupport);
      if Ratio(counts, keys[0], total) >= minSupport then [keys[0]] + rest else rest
  }

  /** Keeping or dropping the head of `keys` in front of a filtered tail
      keeps any order that `keys` follows. */
  lemma FilterStep(keys: seq<Key>, rest: seq<Key>, keep: bool)
    requires keys != []
    requires forall g :: g in rest ==> g in keys[1..]
    requires forall s :: InOrder(keys[1..], s) ==> InOrder(rest, s)
    ensures forall s :: InOrder(keys, s) ==> InOrder(if keep then [keys[0]] + rest else rest, s)
  {
    forall s | InOrder(keys, s) ensures InOrder(if keep then [keys[0]] + rest else rest, s) {
      var tail := keys[1..];
      forall i, j | 0 <= i < j < |tail| ensures FirstIndex(s, tail[i]) < FirstIndex(s, tail[j]) {
        assert tail[i] == keys[i + 1] && tail[j] == keys[j + 1];
      }
      assert InOrder(tail, s);
      if keep {
        var r := [keys[0]] + rest;
        forall i, j | 0 <= i < j < |r| ensures FirstIndex(s, r[i]) < FirstIndex(s, r[j]) {
          if i == 0 {
            assert r[j] == rest[j - 1] && rest[j - 1] in rest;
            var m :| 0 <= m < |tail| && tail[m] == r[j];
            assert keys[m + 1] == r[j];
          } else {
            assert r[i] == rest[i - 1] && r[j] == rest[j - 1];
          }
        }
      }
    }
  }

  /** Lines 49-59: the support of every candidate, and the dict `L_temp` of
      the candidates whose support reaches `minSupport`, keyed in the order
      of their first occurrences among the candidates. */
  function Prune(candidates: seq<Key>, counts: map<Key, nat>, total: nat, minSupport: real): (r: Itemsets)
    requires total > 0
    ensures r.Valid()
    ensures forall g :: g in r.support <==> g in candidates && Ratio(counts, g, total) >= minSupport
    ensures forall g :: g in r.support ==> r.support[g] == Ratio(counts, g, total)
    ensures InOrder(r.order, candidates)
  {
    var order := Survivors(Distinct(candidates), counts, total, minSupport);
    Itemsets(order, map g | g in order :: Ratio(counts, g, total))
  }

  /** The keys that `seen` does not have, in the order they have in
      `keys`. */
  function Unseen(keys: seq<Key>, seen: map<Key, real>): (r: seq<Key>)
    ensures forall g :: g in r <==> g in keys && g !in seen
    ensures NoDuplicates(keys) ==> NoDuplicates(r)
    ensures (forall g :: g in keys ==> g !in seen) ==> r == keys
    ensures forall s :: InOrder(keys, s) ==> InOrder(r, s)
  {
    if keys == [] then []
    else
      var rest := Unseen(keys[1..], seen);
      assert keys == [keys[0]] + keys[1..];
      FilterStep(keys, rest, keys[0] !in seen);
      if keys[0] !in seen then [keys[0]] + rest else rest
  }

  /** Line 66, `{**a, **b}`: the keys of both, with `b`'s value where both
      have one; `a`'s keys keep their places and `b`'s new keys follow. */
  function Merge(a: Itemsets, b: Itemsets): (r: Itemsets)
    requires a.Valid() && b.Valid()
    ensures r.Valid()
    ensures forall g :: g in r.support <==> g in a.support || g in b.support
    ensures forall g :: g in b.support ==> r.support[g] == b.support[g]
    ensures forall g :: g in a.support && g !in b.support ==> r.support[g] == a.support[g]
    ensures |a.order| <= |r.order| && r.order[..|a.order|] == a.order
    ensures forall k :: |a.order| <= k < |r.order| ==> r.order[k] in b.support && r.order[k] !in a.support
    ensures InOrder(r.order[|a.order|..], b.order)
    ensures a.support.Keys !! b.support.Keys ==> r.order == a.order + b.order
  {
    var added := Unseen(b.order, a.support);
    AppendUnseen(a, b);
    SelfInOrder(b.order);
    assert (a.order + added)[|a.order|..] == added;
    assert (a.order + added)[..|a.order|] == a.order;
    Itemsets(a.order + added, a.support + b.support)
  }

  /** Appending to `a.order` the keys of `b` that `a` lacks repeats no key. */
  lemma AppendUnseen(a: Itemsets, b: Itemsets)
    requires a.Valid() && b.Valid()
    ensures NoDuplicates(a.order + Unseen(b.order, a.support))
  {
    AppendDistinct(a.order, Unseen(b.order, a.support), a.support.Keys);
  }

  /** Two lists without repeats, the first inside `seen` and the second
      outside it, concatenate to a list without repeats. */
  lemma AppendDistinct(p: seq<Key>, q: seq<Key>, seen: set<Key>)
    requires NoDuplicates(p) && NoDuplicates(q)
    requires forall g :: g in p ==> g in seen
    requires forall g :: g in q ==> g !in seen
    ensures NoDuplicates(p + q)
  {
    var s := p + q;
    forall i, j | 0 <= i < j < |p| ensures s[i] != s[j] {
      assert s[i] == p[i] && s[j] == p[j];
    }
    forall i, j | 0 <= i < |p| <= j < |s| ensures s[i] != s[j] {
      assert s[i] == p[i] && s[j] == q[j - |p|];
      assert s[i] in seen && s[j] !in seen;
    }
    forall i, j | |p| <= i < j < |s| ensures s[i] != s[j] {
      assert s[i] == q[i - |p|] && s[j] == q[j - |p|];
    }
  }

  /** Line 67's iteration over a set: every element once, in an order the
      model leaves open. */
  method Enumerate(s: set<Key>) returns (r: seq<Key>)
    ensures NoDuplicates(r)
    ensures forall g :: g in r <==> g in s
  {
    r := [];
    var rest := s;
    while rest != {}
      invariant rest <= s
      invariant NoDuplicates(r)
      invariant forall g :: g in r <==> g in s && g !in rest
      decreases |rest|
    {
      var g :| g in rest;
      r := r + [g];
      rest := rest - {g};
    }
  }
}
