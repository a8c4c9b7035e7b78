/** Candidate generation: the pairwise join of the groups that survived
    one level into the candidates of the next. */
module Candidates {
  import opened ItemGroups

  /** Positions `i < j` of `items` whose union has exactly `n` items: the
      pairs for which the join yields a candidate. */
  predicate Joinable(items: seq<Key>, n: nat, i: int, j: int)
  {
    0 <= i < j < |items| && |Chars(items[i]) + Chars(items[j])| == n
  }

  /** `s` is what the join yields for the pair `p`: the canonical key of
      the union of the two groups. */
  predicate Yields(items: seq<Key>, n: nat, p: (nat, nat), s: Key)
  {
    Joinable(items, n, p.0, p.1) && s == Canonical(items[p.0] + items[p.1])
  }

  /** Pair `p` is visited before pair `q` by the two nested loops. */
  predicate Before(p: (nat, nat), q: (nat, nat))
  {
    p.0 < q.0 || (p.0 == q.0 && p.1 < q.1)
  }

  /** The join.  It yields, for every pair of positions `i < j` whose union
      has `n` items, the canonical key of that union, once per pair and in
      the order the pairs are visited; the ghost `pairs` names the pair
      behind each yielded key.  Equal keys from different pairs are all
      yielded. */
  method CartesianProduct(items: seq<Key>, n: nat) returns (r: seq<Key>, ghost pairs: seq<(nat, nat)>)
    ensures |pairs| == |r|
    ensures forall k :: 0 <= k < |r| ==> Yields(items, n, pairs[k], r[k])
    ensures forall k, l :: 0 <= k < l < |r| ==> Before(pairs[k], pairs[l])
    ensures forall i, j {:trigger Joinable(items, n, i, j)} :: Joinable(items, n, i, j) ==> (i, j) in pairs
    ensures |items| < 2 ==> r == []
  {
    r, pairs := [], [];
    var i := 0;
    while i + 1 < |items|
      invariant 0 <= i <= |items|
      invariant JoinedUpTo(items, n, i, r, pairs)
      invariant |items| < 2 ==> r == []
    {
      var row;
      ghost var rowPairs;
      row, rowPairs := JoinRow(items, n, i);
      JoinedStep(items, n, i, r, pairs, row, rowPairs);
      r, pairs := r + row, pairs + rowPairs;
      i := i + 1;
    }
  }

  /** The outer loop's invariant: `r` is what the pairs whose first position
      is below `i` yield, in the order they are visited. */
  ghost predicate JoinedUpTo(items: seq<Key>, n: nat, i: nat, r: seq<Key>, pairs: seq<(nat, nat)>)
  {
    && |pairs| == |r|
    && (forall k :: 0 <= k < |r| ==> Yields(items, n, pairs[k], r[k]) && pairs[k].0 < i)
    && (forall k, l :: 0 <= k < l < |r| ==> Before(pairs[k], pairs[l]))
    && (forall i', j {:trigger Joinable(items, n, i', j)} :: Joinable(items, n, i', j) && i' < i ==> (i', j) in pairs)
  }

  lemma JoinedStep(items: seq<Key>, n: nat, i: nat, r: seq<Key>, pairs: seq<(nat, nat)>,
                   row: seq<Key>, rowPairs: seq<(nat, nat)>)
    requires JoinedUpTo(items, n, i, r, pairs)
    requires |rowPairs| == |row|
    requires forall k :: 0 <= k < |row| ==> Yields(items, n, rowPairs[k], row[k]) && rowPairs[k].0 == i
    requires forall k, l :: 0 <= k < l < |row| ==> rowPairs[k].1 < rowPairs[l].1
    requires forall j {:trigger Joinable(items, n, i, j)} :: Joinable(items, n, i, j) ==> (i, j) in rowPairs
    ensures JoinedUpTo(items, n, i + 1, r + row, pairs + rowPairs)
  {
    var r', pairs' := r + row, pairs + rowPairs;
    forall k | 0 <= k < |r'| ensures Yields(items, n, pairs'[k], r'[k]) && pairs'[k].0 < i + 1 {
      if k < |r| {
        assert r'[k] == r[k] && pairs'[k] == pairs[k];
      } else {
        assert r'[k] == row[k - |r|] && pairs'[k] == rowPairs[k - |r|];
      }
    }
    JoinedOrder(pairs, rowPairs, i);
    JoinedComplete(items, n, i, pairs, rowPairs);
  }

  lemma JoinedOrder(pairs: seq<(nat, nat)>, rowPairs: seq<(nat, nat)>, i: nat)
    requires forall k :: 0 <= k < |pairs| ==> pairs[k].0 < i
    requires forall k, l :: 0 <= k < l < |pairs| ==> Before(pairs[k], pairs[l])
    requires forall k :: 0 <= k < |rowPairs| ==> rowPairs[k].0 == i
    requires forall k, l :: 0 <= k < l < |rowPairs| ==> rowPairs[k].1 < rowPairs[l].1
    ensures forall k, l :: 0 <= k < l < |pairs + rowPairs| ==> Before((pairs + rowPairs)[k], (pairs + rowPairs)[l])
  {
  }

  lemma JoinedComplete(items: seq<Key>, n: nat, i: nat, pairs: seq<(nat, nat)>, rowPairs: seq<(nat, nat)>)
    requires forall i', j {:trigger Joinable(items, n, i', j)} :: Joinable(items, n, i', j) && i' < i ==> (i', j) in pairs
    requires forall j {:trigger Joinable(items, n, i, j)} :: Joinable(items, n, i, j) ==> (i, j) in rowPairs
    ensures forall i', j {:trigger Joinable(items, n, i', j)} ::
              Joinable(items, n, i', j) && i' < i + 1 ==> (i', j) in pairs + rowPairs
  {
    forall i', j | Joinable(items, n, i', j) && i' < i + 1 ensures (i', j) in pairs + rowPairs {
      if i' < i {
        assert (i', j) in pairs;
      } else {
        assert (i', j) in rowPairs;
      }
    }
  }

  /** The inner loop of the join: what the pairs `(i, j)`, `i < j`, yield,
      in the order of `j`. */
  method JoinRow(items: seq<Key>, n: nat, i: nat) returns (row: seq<Key>, ghost pairs: seq<(nat, nat)>)
    requires i < |items|
    ensures |pairs| == |row|
    ensures forall k :: 0 <= k < |row| ==> Yields(items, n, pairs[k], row[k]) && pairs[k].0 == i
    ensures forall k, l :: 0 <= k < l < |row| ==> pairs[k].1 < pairs[l].1
    ensures forall j {:trigger Joinable(items, n, i, j)} :: Joinable(items, n, i, j) ==> (i, j) in pairs
  {
    row, pairs := [], [];
    var j := i + 1;
    while j < |items|
      invariant i + 1 <= j <= |items|
      invariant RowUpTo(items, n, i, j, row, pairs)
    {
      var union := Chars(items[i]) + Chars(items[j]);
      ghost var before, beforePairs := row, pairs;
      if |union| == n {
        row, pairs := row + [Canonical(items[i] + items[j])], pairs + [(i, j)];
      }
      RowStep(items, n, i, j, before, beforePairs, row, pairs);
      j := j + 1;
    }
  }

  /** The inner loop's invariant: `row` is what the pairs `(i, j')` with
      `j' < j` yield. */
  ghost predicate RowUpTo(items: seq<Key>, n: nat, i: nat, j: nat, row: seq<Key>, pairs: seq<(nat, nat)>)
  {
    && |pairs| == |row|
    && (forall k :: 0 <= k < |row| ==> Yields(items, n, pairs[k], row[k]) && pairs[k].0 == i && pairs[k].1 < j)
    && (forall k, l :: 0 <= k < l < |row| ==> pairs[k].1 < pairs[l].1)
    && (forall j' {:trigger Joinable(items, n, i, j')} :: Joinable(items, n, i, j') && j' < j ==> (i, j') in pairs)
  }

  lemma RowStep(items: seq<Key>, n: nat, i: nat, j: nat, before: seq<Key>, beforePairs: seq<(nat, nat)>,
                row: seq<Key>, pairs: seq<(nat, nat)>)
    requires i < j < |items|
    requires RowUpTo(items, n, i, j, before, beforePairs)
    requires if Joinable(items, n, i, j)
             then row == before + [Canonical(items[i] + items[j])] && pairs == beforePairs + [(i, j)]
             else row == before && pairs == beforePairs
    ensures RowUpTo(items, n, i, j + 1, row, pairs)
  {
    if Joinable(items, n, i, j) {
      forall k | 0 <= k < |row|
        ensures Yields(items, n, pairs[k], row[k]) && pairs[k].0 == i && pairs[k].1 < j + 1
      {
        if k < |before| {
          assert row[k] == before[k] && pairs[k] == beforePairs[k];
        }
      }
    }
    RowComplete(items, n, i, j, beforePairs, pairs);
  }

  lemma RowComplete(items: seq<Key>, n: nat, i: nat, j: nat, beforePairs: seq<(nat, nat)>,
                    pairs: seq<(nat, nat)>)
    requires forall j' {:trigger Joinable(items, n, i, j')} ::
               Joinable(items, n, i, j') && j' < j ==> (i, j') in beforePairs
    requires pairs == if Joinable(items, n, i, j) then beforePairs + [(i, j)] else beforePairs
    ensures forall j' {:trigger Joinable(items, n, i, j')} ::
              Joinable(items, n, i, j') && j' < j + 1 ==> (i, j') in pairs
  {
    forall j' | Joinable(items, n, i, j') && j' < j + 1 ensures (i, j') in pairs {
      if j' < j {
        assert (i, j') in beforePairs;
      }
    }
  }

  /** What a yielded key is: the canonical key of the union of its pair,
      with exactly `n` items. */
  lemma YieldedKey(items: seq<Key>, n: nat, p: (nat, nat), s: Key)
    requires Yields(items, n, p, s)
    ensures StrictlyAscending(s) && |s| == n
    ensures Chars(s) == Chars(items[p.0]) + Chars(items[p.1])
  {
    KeyOfUnion(items[p.0], items[p.1]);
  }

  /** The keys of the joinable pairs of `items`. */
  ghost function Joins(items: seq<Key>, n: nat): set<Key>
  {
    set i, j | 0 <= i < j < |items| && Joinable(items, n, i, j) :: Canonical(items[i] + items[j])
  }

  /** The keys the join yields are exactly the keys of the joinable pairs. */
  lemma JoinedKeys(items: seq<Key>, n: nat, r: seq<Key>, pairs: seq<(nat, nat)>)
    requires |pairs| == |r|
    requires forall k :: 0 <= k < |r| ==> Yields(items, n, pairs[k], r[k])
    requires forall i, j {:trigger Joinable(items, n, i, j)} :: Joinable(items, n, i, j) ==> (i, j) in pairs
    ensures forall g :: g in r <==> g in Joins(items, n)
  {
    forall g | g in r ensures g in Joins(items, n) {
      var k :| 0 <= k < |r| && r[k] == g;
      assert Yields(items, n, pairs[k], r[k]);
      assert Joinable(items, n, pairs[k].0, pairs[k].1);
    }
    forall g | g in Joins(items, n) ensures g in r {
      var i, j :| Joinable(items, n, i, j) && g == Canonical(items[i] + items[j]);
      var k :| 0 <= k < |pairs| && pairs[k] == (i, j);
      assert Yields(items, n, pairs[k], r[k]);
    }
  }
}
