/** What it means for a sequence of records to be in a policy's order, what the
    exchange sort preserves, and a reference stable sort the exchange sort is
    proved to agree with. */
module Ordering {
  import opened Processes

  /** The exchange sort's own promise: no adjacent pair is one the comparator
      would still exchange. */
  predicate InOrder(policy: Policy, s: seq<Process>)
  {
    forall i :: 0 <= i < |s| - 1 ==> !Compare(policy, s[i], s[i + 1])
  }

  /** Keys are non-decreasing over every pair of positions. */
  predicate Sorted(policy: Policy, s: seq<Process>)
  {
    forall a, b :: 0 <= a < b < |s| ==> Key(policy, s[a]) <= Key(policy, s[b])
  }

  /** Keys are strictly increasing (e.g. arrival ids 1..n in insertion order). */
  predicate StrictlySorted(policy: Policy, s: seq<Process>)
  {
    forall a, b :: 0 <= a < b < |s| ==> Key(policy, s[a]) < Key(policy, s[b])
  }

  /** The records of `s` whose key is `k`, in their order in `s`. Stability of a
      sort is that this subsequence is the same before and after, for every `k`. */
  function Filter(policy: Policy, s: seq<Process>, k: int): seq<Process>
  {
    if s == [] then [] else Keep(policy, s[0], k) + Filter(policy, s[1..], k)
  }

  /** `[x]` when `x` has key `k`, otherwise nothing. */
  function Keep(policy: Policy, x: Process, k: int): seq<Process>
  {
    if Key(policy, x) == k then [x] else []
  }

  /** `s` with the records at positions `i` and `j` exchanged (swapData). */
  function Swapped(s: seq<Process>, i: nat, j: nat): (r: seq<Process>)
    requires i < |s| && j < |s|
    ensures |r| == |s| && r[i] == s[j] && r[j] == s[i]
    ensures forall m :: 0 <= m < |s| && m != i && m != j ==> r[m] == s[m]
    ensures multiset(r) == multiset(s)
  {
    s[i := s[j]][j := s[i]]
  }

  // ---------------------------------------------------------------------------
  // Facts about Filter

  /** Regrouping a concatenation, as a fact a proof can name: citing it is far
      cheaper for the solver than rediscovering it inside a larger goal. */
  lemma AppendAssoc(a: seq<Process>, b: seq<Process>, c: seq<Process>)
    ensures a + (b + c) == (a + b) + c
  {
  }

  lemma FilterCons(policy: Policy, x: Process, s: seq<Process>, k: int)
    ensures Filter(policy, [x] + s, k) == Keep(policy, x, k) + Filter(policy, s, k)
  {
    assert ([x] + s)[1..] == s;
  }

  lemma {:induction false} FilterConcat(policy: Policy, a: seq<Process>, b: seq<Process>, k: int)
    ensures Filter(policy, a + b, k) == Filter(policy, a, k) + Filter(policy, b, k)
  {
    if a == [] {
      assert a + b == b;
    } else {
      calc {
        Filter(policy, a + b, k);
        { assert a + b == [a[0]] + (a[1..] + b);
          FilterCons(policy, a[0], a[1..] + b, k); }
        Keep(policy, a[0], k) + Filter(policy, a[1..] + b, k);
        { FilterConcat(policy, a[1..], b, k); }
        Keep(policy, a[0], k) + (Filter(policy, a[1..], k) + Filter(policy, b, k));
        { AppendAssoc(Keep(policy, a[0], k), Filter(policy, a[1..], k), Filter(policy, b, k)); }
        Filter(policy, a, k) + Filter(policy, b, k);
      }
    }
  }

  /** The subsequence of key `k` holds exactly the records of `s` with key `k`. */
  lemma {:induction false} FilterMembers(policy: Policy, s: seq<Process>, k: int, x: Process)
    ensures x in Filter(policy, s, k) <==> x in s && Key(policy, x) == k
  {
    if s != [] {
      FilterMembers(policy, s[1..], k, x);
      assert s == [s[0]] + s[1..];
    }
  }

  /** No record of `s` has key `k`: the subsequence of key `k` is empty. */
  lemma {:induction false} FilterNone(policy: Policy, s: seq<Process>, k: int)
    requires forall i :: 0 <= i < |s| ==> Key(policy, s[i]) != k
    ensures Filter(policy, s, k) == []
  {
    if s != [] {
      FilterNone(policy, s[1..], k);
    }
  }

  /** A sequence none of whose keys is selected by any `k` is empty. */
  lemma FilterAllEmpty(policy: Policy, s: seq<Process>)
    requires forall k :: Filter(policy, s, k) == []
    ensures s == []
  {
    assert s != [] ==> |Filter(policy, s, Key(policy, s[0]))| > 0;
  }

  /** Exchanging two adjacent records with different keys -- the only exchange
      the sort ever makes -- leaves the subsequence of key `k` as it was. */
  lemma SwapKeepsFilter(policy: Policy, s: seq<Process>, j: nat, k: int)
    requires j + 1 < |s|
    requires Compare(policy, s[j], s[j + 1])
    ensures Filter(policy, Swapped(s, j, j + 1), k) == Filter(policy, s, k)
  {
    var pre, post := s[..j], s[j + 2..];
    var x, y := s[j], s[j + 1];
    assert s == pre + ([x] + ([y] + post));
    assert Swapped(s, j, j + 1) == pre + ([y] + ([x] + post));
    FilterConcat(policy, pre, [x] + ([y] + post), k);
    FilterConcat(policy, pre, [y] + ([x] + post), k);
    FilterCons(policy, x, [y] + post, k);
    FilterCons(policy, y, post, k);
    FilterCons(policy, y, [x] + post, k);
    FilterCons(policy, x, post, k);
    KeepCommute(policy, x, y, k, Filter(policy, post, k));
  }

  /** Two records with different keys cannot both be kept for one key. */
  lemma KeepCommute(policy: Policy, x: Process, y: Process, k: int, rest: seq<Process>)
    requires Key(policy, x) != Key(policy, y)
    ensures Keep(policy, x, k) + (Keep(policy, y, k) + rest) == Keep(policy, y, k) + (Keep(policy, x, k) + rest)
  {
    if Key(policy, x) == k {
      assert Keep(policy, y, k) == [];
    } else {
      assert Keep(policy, x, k) == [];
    }
  }

  /** The same, for every key at once. */
  lemma SwapKeepsFilters(policy: Policy, s: seq<Process>, j: nat)
    requires j + 1 < |s|
    requires Compare(policy, s[j], s[j + 1])
    ensures forall k :: Filter(policy, Swapped(s, j, j + 1), k) == Filter(policy, s, k)
  {
    forall k
      ensures Filter(policy, Swapped(s, j, j + 1), k) == Filter(policy, s, k)
    {
      SwapKeepsFilter(policy, s, j, k);
    }
  }

  // ---------------------------------------------------------------------------
  // One step and one pass of the exchange sort

  /** Positions `m` and beyond hold their final records: every pair whose later
      position is at least `m` is in key order. */
  ghost predicate SettledFrom(policy: Policy, s: seq<Process>, m: int)
  {
    forall a, b :: 0 <= a < b < |s| && m <= b ==> Key(policy, s[a]) <= Key(policy, s[b])
  }

  /** The record at `j` has the largest key among positions 0..j. */
  ghost predicate MaxAt(policy: Policy, s: seq<Process>, j: int)
  {
    forall a :: 0 <= a <= j < |s| ==> Key(policy, s[a]) <= Key(policy, s[j])
  }

  /** One comparison-and-exchange at `j` carries the largest key seen so far one
      position further and disturbs nothing already settled. */
  lemma BubbleStep(policy: Policy, s: seq<Process>, j: nat, m: int)
    requires j + 1 < m <= |s|
    requires SettledFrom(policy, s, m) && MaxAt(policy, s, j)
    ensures var t := if Compare(policy, s[j], s[j + 1]) then Swapped(s, j, j + 1) else s;
            SettledFrom(policy, t, m) && MaxAt(policy, t, j + 1)
  {
  }

  /** At the end of a pass over 0..m-1 the largest key of that range sits at
      m-1, which is then settled too. */
  lemma PassSettles(policy: Policy, s: seq<Process>, m: int)
    requires 1 <= m <= |s|
    requires SettledFrom(policy, s, m) && MaxAt(policy, s, m - 1)
    ensures SettledFrom(policy, s, m - 1)
  {
  }

  // ---------------------------------------------------------------------------
  // The two notions of order agree

  /** The comparator-based promise and the key order are the same thing. */
  lemma {:induction false} InOrderIffSorted(policy: Policy, s: seq<Process>)
    ensures InOrder(policy, s) <==> Sorted(policy, s)
  {
    if InOrder(policy, s) && |s| > 1 {
      InOrderIffSorted(policy, s[1..]);
      assert Sorted(policy, s[1..]);
      forall a, b | 0 <= a < b < |s|
        ensures Key(policy, s[a]) <= Key(policy, s[b])
      {
        if a > 0 {
          assert s[a] == s[1..][a - 1] && s[b] == s[1..][b - 1];
        } else if b > 1 {
          assert s[1] == s[1..][0] && s[b] == s[1..][b - 1];
        }
      }
    }
  }

  // ---------------------------------------------------------------------------
  // Stable sorting is determined by order and filters

  /** Two sequences that are both in key order and have the same subsequence
      for every key are the same sequence: a stable sort has one possible
      result, whatever algorithm computes it. */
  lemma {:induction false} SortedFilterUnique(policy: Policy, a: seq<Process>, b: seq<Process>)
    requires Sorted(policy, a) && Sorted(policy, b)
    requires forall k :: Filter(policy, a, k) == Filter(policy, b, k)
    ensures a == b
    decreases |a|
  {
    if a == [] || b == [] {
      FilterAllEmpty(policy, a);
      FilterAllEmpty(policy, b);
    } else {
      SameFiltersSameHead(policy, a, b);
      forall k
        ensures Filter(policy, a[1..], k) == Filter(policy, b[1..], k)
      {
        SameHeadFilterTail(policy, a, b, k);
      }
      SortedTail(policy, a);
      SortedTail(policy, b);
      SortedFilterUnique(policy, a[1..], b[1..]);
      assert a == [a[0]] + a[1..] && b == [b[0]] + b[1..];
    }
  }

  /** The first record of a sequence in key order has the smallest key. */
  lemma SortedHeadLeast(policy: Policy, s: seq<Process>, x: Process)
    requires Sorted(policy, s) && x in s
    ensures Key(policy, s[0]) <= Key(policy, x)
  {
    var m :| 0 <= m < |s| && s[m] == x;
    assert m == 0 || Key(policy, s[0]) <= Key(policy, s[m]);
  }

  lemma SortedTail(policy: Policy, s: seq<Process>)
    requires Sorted(policy, s) && s != []
    ensures Sorted(policy, s[1..])
  {
    forall a, b | 0 <= a < b < |s[1..]|
      ensures Key(policy, s[1..][a]) <= Key(policy, s[1..][b])
    {
      assert s[1..][a] == s[a + 1] && s[1..][b] == s[b + 1];
    }
  }

  /** Sequences in key order with the same subsequence for every key start
      with the same record: the first record of the subsequence of the
      smallest key. */
  lemma SameFiltersSameHead(policy: Policy, a: seq<Process>, b: seq<Process>)
    requires Sorted(policy, a) && Sorted(policy, b) && a != [] && b != []
    requires forall k :: Filter(policy, a, k) == Filter(policy, b, k)
    ensures a[0] == b[0]
  {
    var ka, kb := Key(policy, a[0]), Key(policy, b[0]);
    assert Filter(policy, a, ka)[0] == a[0] by {
      FilterCons(policy, a[0], a[1..], ka);
      assert a == [a[0]] + a[1..];
    }
    assert Filter(policy, b, kb)[0] == b[0] by {
      FilterCons(policy, b[0], b[1..], kb);
      assert b == [b[0]] + b[1..];
    }
    HeadKeyAtMost(policy, a, b);
    HeadKeyAtMost(policy, b, a);
    assert Filter(policy, a, ka) == Filter(policy, b, kb);
  }

  /** With the same subsequence for every key, the first record of `b` occurs
      in `a`, so its key is at least that of `a`'s first record. */
  lemma HeadKeyAtMost(policy: Policy, a: seq<Process>, b: seq<Process>)
    requires Sorted(policy, a) && a != [] && b != []
    requires forall k :: Filter(policy, a, k) == Filter(policy, b, k)
    ensures Key(policy, a[0]) <= Key(policy, b[0])
  {
    var kb := Key(policy, b[0]);
    FilterCons(policy, b[0], b[1..], kb);
    assert b == [b[0]] + b[1..];
    assert b[0] in Filter(policy, b, kb);
    FilterMembers(policy, a, kb, b[0]);
    SortedHeadLeast(policy, a, b[0]);
  }

  /** Equal heads and equal subsequences for key `k` give equal subsequences
      of the tails. */
  lemma SameHeadFilterTail(policy: Policy, a: seq<Process>, b: seq<Process>, k: int)
    requires a != [] && b != [] && a[0] == b[0]
    requires Filter(policy, a, k) == Filter(policy, b, k)
    ensures Filter(policy, a[1..], k) == Filter(policy, b[1..], k)
  {
    var head := Keep(policy, a[0], k);
    assert Filter(policy, a, k) == head + Filter(policy, a[1..], k);
    assert Filter(policy, b, k) == head + Filter(policy, b[1..], k);
    assert Filter(policy, a[1..], k) == Filter(policy, a, k)[|head|..];
    assert Filter(policy, b[1..], k) == Filter(policy, b, k)[|head|..];
  }

  /** Two sequences in key order holding the same records are equal when the
      keys of one are all distinct. This is why sorting by arrival id restores
      the insertion order whatever order the records were in before. */
  lemma {:induction false} DistinctKeysPermutationUnique(policy: Policy, s: seq<Process>, t: seq<Process>)
    requires Sorted(policy, s) && StrictlySorted(policy, t)
    requires multiset(s) == multiset(t)
    ensures s == t
    decreases |s|
  {
    if s == [] || t == [] {
      assert |s| == |multiset(s)| == |multiset(t)| == |t|;
    } else {
      assert s[0] == t[0] by {
        assert s[0] in multiset(t) && t[0] in multiset(s);
        SortedHeadLeast(policy, s, t[0]);
        StrictHeadOnlyLeast(policy, t, s[0]);
      }
      SameHeadSameTail(s, t);
      SortedTail(policy, s);
      DistinctKeysPermutationUnique(policy, s[1..], t[1..]);
      assert s == [s[0]] + s[1..] && t == [t[0]] + t[1..];
    }
  }

  /** In a sequence with strictly increasing keys, the only record whose key
      is at most the first one's is the first one. */
  lemma StrictHeadOnlyLeast(policy: Policy, t: seq<Process>, x: Process)
    requires StrictlySorted(policy, t) && x in t
    requires Key(policy, x) <= Key(policy, t[0])
    ensures x == t[0]
  {
    var j :| 0 <= j < |t| && t[j] == x;
    assert Key(policy, t[j]) <= Key(policy, t[0]);
  }

  /** Removing the same first record from two sequences with the same records
      leaves two sequences with the same records. */
  lemma SameHeadSameTail(s: seq<Process>, t: seq<Process>)
    requires s != [] && t != [] && s[0] == t[0]
    requires multiset(s) == multiset(t)
    ensures multiset(s[1..]) == multiset(t[1..])
  {
    assert s == [s[0]] + s[1..] && t == [t[0]] + t[1..];
    assert multiset(s) == multiset{s[0]} + multiset(s[1..]);
    assert multiset(t) == multiset{s[0]} + multiset(t[1..]);
    forall x
      ensures multiset(s[1..])[x] == multiset(t[1..])[x]
    {
      assert multiset(s)[x] == multiset{s[0]}[x] + multiset(s[1..])[x];
      assert multiset(t)[x] == multiset{s[0]}[x] + multiset(t[1..])[x];
    }
  }

  // ---------------------------------------------------------------------------
  // Reference stable sort: insertion sort

  /** Places `x` after every record of `s` whose key is at most `x`'s. */
  function Insert(policy: Policy, x: Process, s: seq<Process>): seq<Process>
  {
    if s == [] then [x]
    else if Key(policy, x) < Key(policy, s[0]) then [x] + s
    else [s[0]] + Insert(policy, x, s[1..])
  }

  /** Reference definition of the stable sort by a policy's key. */
  function StableSort(policy: Policy, s: seq<Process>): seq<Process>
  {
    if s == [] then [] else Insert(policy, s[|s| - 1], StableSort(policy, s[..|s| - 1]))
  }

  lemma {:induction false} InsertMultiset(policy: Policy, x: Process, s: seq<Process>)
    ensures multiset(Insert(policy, x, s)) == multiset(s) + multiset{x}
  {
    if s != [] && Key(policy, x) >= Key(policy, s[0]) {
      InsertMultiset(policy, x, s[1..]);
      assert s == [s[0]] + s[1..];
    }
  }

  lemma {:induction false} InsertSorted(policy: Policy, x: Process, s: seq<Process>)
    requires Sorted(policy, s)
    ensures Sorted(policy, Insert(policy, x, s))
  {
    if s == [] {
    } else if Key(policy, x) < Key(policy, s[0]) {
      forall y | y in s
        ensures Key(policy, x) <= Key(policy, y)
      {
        SortedHeadLeast(policy, s, y);
      }
      SortedCons(policy, x, s);
    } else {
      var tail := Insert(policy, x, s[1..]);
      SortedTail(policy, s);
      InsertSorted(policy, x, s[1..]);
      InsertMultiset(policy, x, s[1..]);
      forall y | y in tail
        ensures Key(policy, s[0]) <= Key(policy, y)
      {
        assert y in multiset(tail);
        if y != x {
          assert y in multiset(s[1..]);
          assert y in s;
          SortedHeadLeast(policy, s, y);
        }
      }
      SortedCons(policy, s[0], tail);
    }
  }

  /** A record whose key is at most every key of a sequence in key order can
      go in front of it. */
  lemma SortedCons(policy: Policy, h: Process, t: seq<Process>)
    requires Sorted(policy, t)
    requires forall y :: y in t ==> Key(policy, h) <= Key(policy, y)
    ensures Sorted(policy, [h] + t)
  {
    var r := [h] + t;
    forall a, b | 0 <= a < b < |r|
      ensures Key(policy, r[a]) <= Key(policy, r[b])
    {
      assert r[b] == t[b - 1];
      if a > 0 {
        assert r[a] == t[a - 1];
      } else {
        assert t[b - 1] in t;
      }
    }
  }

  lemma {:induction false} InsertFilter(policy: Policy, x: Process, s: seq<Process>, k: int)
    requires Sorted(policy, s)
    ensures Filter(policy, Insert(policy, x, s), k) == Filter(policy, s, k) + Keep(policy, x, k)
  {
    if s == [] {
      FilterCons(policy, x, [], k);
      assert [x] + [] == [x];
    } else if Key(policy, x) < Key(policy, s[0]) {
      InsertFilterFront(policy, x, s, k);
    } else {
      var tail := Insert(policy, x, s[1..]);
      assert Filter(policy, Insert(policy, x, s), k) == Keep(policy, s[0], k) + Filter(policy, tail, k) by {
        FilterCons(policy, s[0], tail, k);
      }
      assert Filter(policy, s, k) == Keep(policy, s[0], k) + Filter(policy, s[1..], k) by {
        FilterCons(policy, s[0], s[1..], k);
        assert s == [s[0]] + s[1..];
      }
      SortedTail(policy, s);
      InsertFilter(policy, x, s[1..], k);
      AppendAssoc(Keep(policy, s[0], k), Filter(policy, s[1..], k), Keep(policy, x, k));
    }
  }

  /** When `x` goes in front, it is also behind every record of its key,
      because there is none. */
  lemma InsertFilterFront(policy: Policy, x: Process, s: seq<Process>, k: int)
    requires Sorted(policy, s) && s != [] && Key(policy, x) < Key(policy, s[0])
    ensures Filter(policy, Insert(policy, x, s), k) == Filter(policy, s, k) + Keep(policy, x, k)
  {
    FilterCons(policy, x, s, k);
    if Key(policy, x) == k {
      forall i | 0 <= i < |s|
        ensures Key(policy, s[i]) != k
      {
        SortedHeadLeast(policy, s, s[i]);
      }
      FilterNone(policy, s, k);
    }
  }

  /** The reference sort orders by key, keeps the records, and is stable. */
  lemma {:induction false} StableSortProperties(policy: Policy, s: seq<Process>)
    ensures Sorted(policy, StableSort(policy, s))
    ensures multiset(StableSort(policy, s)) == multiset(s)
    ensures forall k :: Filter(policy, StableSort(policy, s), k) == Filter(policy, s, k)
  {
    if s != [] {
      var init, last := s[..|s| - 1], s[|s| - 1];
      var sorted := StableSort(policy, init);
      assert StableSort(policy, s) == Insert(policy, last, sorted);
      assert s == init + [last];
      StableSortProperties(policy, init);
      InsertSorted(policy, last, sorted);
      InsertMultiset(policy, last, sorted);
      forall k
        ensures Filter(policy, Insert(policy, last, sorted), k) == Filter(policy, init + [last], k)
      {
        InsertLastFilter(policy, init, last, sorted, k);
      }
    }
  }

  /** Inserting the last record into the sorted front keeps every key's
      subsequence of the whole sequence. */
  lemma InsertLastFilter(policy: Policy, init: seq<Process>, last: Process, sorted: seq<Process>, k: int)
    requires Sorted(policy, sorted) && Filter(policy, sorted, k) == Filter(policy, init, k)
    ensures Filter(policy, Insert(policy, last, sorted), k) == Filter(policy, init + [last], k)
  {
    InsertFilter(policy, last, sorted, k);
    FilterConcat(policy, init, [last], k);
    FilterCons(policy, last, [], k);
    assert [last] + [] == [last];
  }

  /** What the exchange sort's loops establish about the first `n` records
      (`after`, from `before`) is everything promised about its result. */
  lemma SortOutcome(policy: Policy, before: seq<Process>, after: seq<Process>)
    requires SettledFrom(policy, after, 1)
    requires forall k :: Filter(policy, after, k) == Filter(policy, before, k)
    ensures InOrder(policy, after) && Sorted(policy, after)
    ensures after == StableSort(policy, before)
    ensures multiset(after) == multiset(before)
    ensures InOrder(policy, before) ==> after == before
  {
    assert Sorted(policy, after);
    InOrderIffSorted(policy, after);
    StableSortCharacterized(policy, before, after);
    StableSortProperties(policy, before);
    InOrderIffSorted(policy, before);
    if Sorted(policy, before) {
      SortedFilterUnique(policy, after, before);
    }
  }

  /** Anything in key order with the same subsequence for every key as `s` is
      the reference stable sort of `s`. */
  lemma StableSortCharacterized(policy: Policy, s: seq<Process>, r: seq<Process>)
    requires Sorted(policy, r)
    requires forall k :: Filter(policy, r, k) == Filter(policy, s, k)
    ensures r == StableSort(policy, s)
  {
    StableSortProperties(policy, s);
    SortedFilterUnique(policy, r, StableSort(policy, s));
  }

  /** Sorting a sequence that is already in key order changes nothing. */
  lemma StableSortOfSorted(policy: Policy, s: seq<Process>)
    requires Sorted(policy, s)
    ensures StableSort(policy, s) == s
  {
    StableSortCharacterized(policy, s, s);
  }

  /** Sorting twice by the same policy is sorting once. */
  lemma StableSortIdempotent(policy: Policy, s: seq<Process>)
    ensures StableSort(policy, StableSort(policy, s)) == StableSort(policy, s)
  {
    StableSortProperties(policy, s);
    StableSortOfSorted(policy, StableSort(policy, s));
  }
}
