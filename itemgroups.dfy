/** Items, item groups and transactions, and what it means for a
    transaction to support a group. */
module ItemGroups {

  /** An item group written as a string of single-character items.  The
      keys the miner builds are canonical: strictly ascending, which makes
      them unique per set of items. */
  type Key = seq<char>

  /** A transaction: the set of items observed together. */
  type Transaction = set<char>

  /** The items a key names, Python's `set(key)`. */
  function Chars(s: seq<char>): set<char>
  {
    set c | c in s
  }

  predicate StrictlyAscending(s: seq<char>)
  {
    forall i, j :: 0 <= i < j < |s| ==> s[i] < s[j]
  }

  predicate NoDuplicates(s: seq<Key>)
  {
    forall i, j :: 0 <= i < j < |s| ==> s[i] != s[j]
  }

  /** The distinct keys of `s`, Python's `set(s)`. */
  function KeySet(s: seq<Key>): set<Key>
  {
    set g | g in s
  }

  /** Inserts `c` at its place in the ascending key `s`, unless it is
      already there. */
  function Insert(c: char, s: Key): (r: Key)
    requires StrictlyAscending(s)
    ensures StrictlyAscending(r)
    ensures Chars(r) == Chars(s) + {c}
  {
    if s == [] then [c]
    else if c < s[0] then
      AscendingHead(s);
      AscendingCons(c, s);
      [c] + s
    else if c == s[0] then
      AscendingHead(s);
      s
    else
      var rest := Insert(c, s[1..]);
      AscendingHead(s);
      AscendingCons(s[0], rest);
      [s[0]] + rest
  }

  /** The head of an ascending key is its least item, and the tail holds
      the other items. */
  lemma AscendingHead(s: Key)
    requires StrictlyAscending(s) && s != []
    ensures forall x :: x in Chars(s) ==> s[0] <= x
    ensures Chars(s) == {s[0]} + Chars(s[1..])
    ensures s[0] !in Chars(s[1..])
  {
    assert s == [s[0]] + s[1..];
  }

  /** Putting an item below all others in front keeps a key ascending. */
  lemma AscendingCons(x: char, s: Key)
    requires StrictlyAscending(s)
    requires forall y :: y in Chars(s) ==> x < y
    ensures StrictlyAscending([x] + s)
    ensures Chars([x] + s) == {x} + Chars(s)
  {
    forall k | 0 <= k < |s| ensures x < s[k] {
      assert s[k] in Chars(s);
    }
  }

  /** The canonical key of the items of `s`: `''.join(sorted(set(s)))`. */
  function Canonical(s: seq<char>): (r: Key)
    ensures StrictlyAscending(r)
    ensures Chars(r) == Chars(s)
  {
    if s == [] then []
    else
      assert s == s[..|s| - 1] + [s[|s| - 1]];
      Insert(s[|s| - 1], Canonical(s[..|s| - 1]))
  }

  /** A canonical key has one character per item: `len(set(s)) == len(s)`. */
  lemma {:induction false} AscendingCardinality(s: Key)
    requires StrictlyAscending(s)
    ensures |Chars(s)| == |s|
  {
    if s != [] {
      AscendingCardinality(s[1..]);
      assert Chars(s) == {s[0]} + Chars(s[1..]);
      assert s[0] !in Chars(s[1..]);
    }
  }

  /** Canonical keys are unique per set of items. */
  lemma {:induction false} CanonicalUnique(a: Key, b: Key)
    requires StrictlyAscending(a) && StrictlyAscending(b)
    requires Chars(a) == Chars(b)
    ensures a == b
  {
    AscendingCardinality(a);
    AscendingCardinality(b);
    if a != [] {
      SameHead(a, b);
      CanonicalUnique(a[1..], b[1..]);
      assert a == [a[0]] + a[1..];
      assert b == [b[0]] + b[1..];
    }
  }

  lemma SameHead(a: Key, b: Key)
    requires StrictlyAscending(a) && StrictlyAscending(b)
    requires Chars(a) == Chars(b) && a != [] && b != []
    ensures a[0] == b[0]
    ensures StrictlyAscending(a[1..]) && StrictlyAscending(b[1..])
    ensures Chars(a[1..]) == Chars(b[1..])
  {
    AscendingHead(a);
    AscendingHead(b);
    assert a[0] in Chars(a) && b[0] in Chars(b);
  }

  /** The key of a union does not depend on the order of its operands. */
  lemma CanonicalUnion(x: Key, y: Key)
    ensures Chars(Canonical(x + y)) == Chars(x) + Chars(y)
    ensures Canonical(x + y) == Canonical(y + x)
  {
    assert Chars(x + y) == Chars(x) + Chars(y);
    assert Chars(y + x) == Chars(y) + Chars(x);
    CanonicalUnique(Canonical(x + y), Canonical(y + x));
  }

  /** The key of a union has exactly the union's items, one character each. */
  lemma KeyOfUnion(x: Key, y: Key)
    ensures StrictlyAscending(Canonical(x + y))
    ensures Chars(Canonical(x + y)) == Chars(x) + Chars(y)
    ensures |Canonical(x + y)| == |Chars(x) + Chars(y)|
  {
    assert Chars(x + y) == Chars(x) + Chars(y);
    AscendingCardinality(Canonical(x + y));
  }

  /** Transaction `t` holds every item of group `g`. */
  predicate Contains(t: Transaction, g: Key)
  {
    Chars(g) <= t
  }

  /** The number of transactions that hold every item of `g`. */
  function Count(transactions: seq<Transaction>, g: Key): (r: nat)
    ensures r <= |transactions|
  {
    if transactions == [] then 0
    else
      Count(transactions[..|transactions| - 1], g)
      + (if Contains(transactions[|transactions| - 1], g) then 1 else 0)
  }

  /** The support of `g`: the fraction of transactions that hold it. */
  function Support(transactions: seq<Transaction>, g: Key): (r: real)
    requires |transactions| > 0
    ensures 0.0 <= r <= 1.0
  {
    Count(transactions, g) as real / |transactions| as real
  }

  /** A group with fewer items is held by at least as many transactions. */
  lemma {:induction false} CountAntiMonotone(transactions: seq<Transaction>, small: Key, large: Key)
    requires Chars(small) <= Chars(large)
    ensures Count(transactions, large) <= Count(transactions, small)
  {
    if transactions != [] {
      CountAntiMonotone(transactions[..|transactions| - 1], small, large);
    }
  }

  /** The number of times `g` occurs in `items`. */
  function Occurrences(items: seq<Key>, g: Key): (r: nat)
    ensures r <= |items|
    ensures r > 0 <==> g in items
  {
    if items == [] then 0
    else
      assert items == items[..|items| - 1] + [items[|items| - 1]];
      Occurrences(items[..|items| - 1], g) + (if items[|items| - 1] == g then 1 else 0)
  }

  lemma {:induction false} OccurrencesOfDistinct(items: seq<Key>, g: Key)
    requires NoDuplicates(items) && g in items
    ensures Occurrences(items, g) == 1
  {
    var init := items[..|items| - 1];
    assert items == init + [items[|items| - 1]];
    if items[|items| - 1] == g {
      assert g !in init;
    } else {
      OccurrencesOfDistinct(init, g);
    }
  }
}
