/**
 * The order a PriorityQueue hands entries back in: ascending priority, and
 * among equal priorities the order in which they were enqueued.
 */
module PriorityOrder {

  /** An item together with the priority it was enqueued with. */
  datatype Entry<T> = Entry(value: T, priority: int)

  ghost predicate Sorted<T>(s: seq<Entry<T>>) {
    forall i, j | 0 <= i < j < |s| :: s[i].priority <= s[j].priority
  }

  /** Every entry of `s` has a priority strictly below `p`. */
  ghost predicate AllBelow<T>(s: seq<Entry<T>>, p: int) {
    forall i | 0 <= i < |s| :: s[i].priority < p
  }

  /** Every entry of `s` has a priority of at least `p`. */
  ghost predicate AllAtLeast<T>(s: seq<Entry<T>>, p: int) {
    forall i | 0 <= i < |s| :: s[i].priority >= p
  }

  /**
   * Insertion of `e` into the entry sequence `s`: `e` goes in front of the
   * first entry whose priority is strictly greater than its own.
   */
  function InsertSorted<T>(s: seq<Entry<T>>, e: Entry<T>): seq<Entry<T>> {
    if s == [] then [e]
    else if s[0].priority > e.priority then [e] + s
    else [s[0]] + InsertSorted(s[1..], e)
  }

  /** The number of leading entries of `s` that `InsertSorted` passes over. */
  function InsertionPoint<T>(s: seq<Entry<T>>, p: int): (k: nat)
    ensures k <= |s|
  {
    if s == [] || s[0].priority > p then 0 else 1 + InsertionPoint(s[1..], p)
  }

  /** The entries of `s` with priority exactly `p`, in their order in `s`. */
  function WithPriority<T>(s: seq<Entry<T>>, p: int): seq<Entry<T>> {
    if s == [] then []
    else (if s[0].priority == p then [s[0]] else []) + WithPriority(s[1..], p)
  }

  /** The entries `es`, enqueued one after the other into an empty queue. */
  function SortByPriority<T>(es: seq<Entry<T>>): seq<Entry<T>> {
    if es == [] then [] else InsertSorted(SortByPriority(es[..|es| - 1]), es[|es| - 1])
  }

  /**
   * `InsertSorted` puts `e` after every entry it passes over (all of priority at
   * most `e.priority`) and before the rest; in a sorted sequence the rest all
   * have a strictly greater priority.
   */
  lemma {:induction false} InsertSortedSplit<T>(s: seq<Entry<T>>, e: Entry<T>)
    ensures var k := InsertionPoint(s, e.priority);
      && InsertSorted(s, e) == s[..k] + [e] + s[k..]
      && (forall i | 0 <= i < k :: s[i].priority <= e.priority)
      && (Sorted(s) ==> forall i | k <= i < |s| :: s[i].priority > e.priority)
  {
    if s != [] && s[0].priority <= e.priority {
      InsertSortedSplit(s[1..], e);
      var k := InsertionPoint(s[1..], e.priority);
      assert s[1..][..k] == s[1..k + 1];
      assert s[1..][k..] == s[k + 1..];
      assert s[..k + 1] == [s[0]] + s[1..k + 1];
    }
  }

  /** Entries ahead of a strictly greater priority stay behind the insertion. */
  lemma {:induction false} InsertSortedBeforeGreater<T>(a: seq<Entry<T>>, b: seq<Entry<T>>, e: Entry<T>)
    requires b != [] && b[0].priority > e.priority
    ensures InsertSorted(a + b, e) == InsertSorted(a, e) + b
  {
    if a == [] {
      assert a + b == b;
    } else {
      assert (a + b)[1..] == a[1..] + b;
      if a[0].priority <= e.priority {
        InsertSortedBeforeGreater(a[1..], b, e);
      }
    }
  }

  /** Entries of priority at most `e.priority` are passed over. */
  lemma {:induction false} InsertSortedAfterSmaller<T>(a: seq<Entry<T>>, b: seq<Entry<T>>, e: Entry<T>)
    requires forall i | 0 <= i < |a| :: a[i].priority <= e.priority
    ensures InsertSorted(a + b, e) == a + InsertSorted(b, e)
  {
    if a == [] {
      assert a + b == b;
    } else {
      assert (a + b)[1..] == a[1..] + b;
      InsertSortedAfterSmaller(a[1..], b, e);
    }
  }

  /** Inserting an entry within a priority bound keeps the bound. */
  lemma InsertSortedBounds<T>(s: seq<Entry<T>>, e: Entry<T>, p: int)
    ensures AllBelow(s, p) && e.priority < p ==> AllBelow(InsertSorted(s, e), p)
    ensures AllAtLeast(s, p) && e.priority >= p ==> AllAtLeast(InsertSorted(s, e), p)
  {
    InsertSortedSplit(s, e);
    var k := InsertionPoint(s, e.priority);
    var r := InsertSorted(s, e);
    forall i | 0 <= i < |r|
      ensures r[i] == e || (0 <= i - 1 < |s| && r[i] == s[i - 1]) || (i < |s| && r[i] == s[i])
    {
      if i < k {
        assert r[i] == s[i];
      } else if i > k {
        assert r[i] == s[i - 1];
      }
    }
  }

  lemma InsertSortedKeepsSorted<T>(s: seq<Entry<T>>, e: Entry<T>)
    requires Sorted(s)
    ensures Sorted(InsertSorted(s, e))
  {
    InsertSortedSplit(s, e);
    var k := InsertionPoint(s, e.priority);
    var r := InsertSorted(s, e);
    forall i, j | 0 <= i < j < |r| ensures r[i].priority <= r[j].priority {
      if j < k || i > k {
      } else if i == k {
        assert r[j] == s[j - 1];
      } else {
        assert r[i] == s[i];
      }
    }
  }

  lemma InsertSortedAdds<T>(s: seq<Entry<T>>, e: Entry<T>)
    ensures multiset(InsertSorted(s, e)) == multiset(s) + multiset{e}
  {
    InsertSortedSplit(s, e);
    var k := InsertionPoint(s, e.priority);
    assert s == s[..k] + s[k..];
  }

  lemma {:induction false} WithPriorityAppend<T>(a: seq<Entry<T>>, b: seq<Entry<T>>, p: int)
    ensures WithPriority(a + b, p) == WithPriority(a, p) + WithPriority(b, p)
  {
    if a != [] {
      assert (a + b)[1..] == a[1..] + b;
      WithPriorityAppend(a[1..], b, p);
    } else {
      assert a + b == b;
    }
  }

  lemma {:induction false} WithPriorityNone<T>(s: seq<Entry<T>>, p: int)
    requires forall i | 0 <= i < |s| :: s[i].priority != p
    ensures WithPriority(s, p) == []
  {
    if s != [] {
      WithPriorityNone(s[1..], p);
    }
  }

  /**
   * Equal priorities keep their arrival order: inserting `e` into a sorted
   * sequence places it after every entry that shares its priority.
   */
  lemma InsertSortedIsStable<T>(s: seq<Entry<T>>, e: Entry<T>, p: int)
    requires Sorted(s)
    ensures WithPriority(InsertSorted(s, e), p)
         == WithPriority(s, p) + (if e.priority == p then [e] else [])
  {
    InsertSortedSplit(s, e);
    var k := InsertionPoint(s, e.priority);
    assert s == s[..k] + s[k..];
    WithPriorityAppend(s[..k], s[k..], p);
    WithPriorityAppend(s[..k] + [e], s[k..], p);
    WithPriorityAppend(s[..k], [e], p);
    assert WithPriority([e], p) == (if e.priority == p then [e] else []) by {
      assert [e][1..] == [];
    }
    if e.priority == p {
      WithPriorityNone(s[k..], p);
    }
  }

  /**
   * Enqueuing `es` into an empty queue leaves its entries in stable priority
   * order: sorted, a permutation of `es`, and for every priority the entries
   * of that priority in the order they were enqueued.
   */
  lemma {:induction false} SortByPriorityIsStableSort<T>(es: seq<Entry<T>>)
    ensures Sorted(SortByPriority(es))
    ensures multiset(SortByPriority(es)) == multiset(es)
    ensures forall p :: WithPriority(SortByPriority(es), p) == WithPriority(es, p)
  {
    if es != [] {
      var init, last := es[..|es| - 1], es[|es| - 1];
      assert es == init + [last];
      SortByPriorityIsStableSort(init);
      InsertSortedKeepsSorted(SortByPriority(init), last);
      InsertSortedAdds(SortByPriority(init), last);
      forall p ensures WithPriority(SortByPriority(es), p) == WithPriority(es, p) {
        InsertSortedIsStable(SortByPriority(init), last, p);
        WithPriorityAppend(init, [last], p);
        assert [last][1..] == [];
      }
    }
  }
}
