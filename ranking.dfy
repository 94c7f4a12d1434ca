/**
 * `Counter.most_common(n)`: `heapq.nlargest(n, items, key=count)`, which
 * Python documents as `sorted(items, key=count, reverse=True)[:n]`. Python's
 * sort is stable, also when reversed, so keys with equal counts keep the order
 * in which they were first stored.
 */
module Ranking {
  import opened Counters

  /** A `(key, count)` pair of `Counter.items()`. */
  type Entry = (string, nat)

  /** `c.items()`: every key with its count, in insertion order. */
  function Items(c: Counter): seq<Entry>
    requires Valid(c)
  {
    seq(|c.order|, i requires 0 <= i < |c.order| => (c.order[i], c.counts[c.order[i]]))
  }

  /** The keys of a list of entries, in order. */
  function KeysOf(s: seq<Entry>): seq<string>
  {
    seq(|s|, i requires 0 <= i < |s| => s[i].0)
  }

  predicate SortedByCount(s: seq<Entry>)
  {
    forall i, j :: 0 <= i < j < |s| ==> s[i].1 >= s[j].1
  }

  predicate DistinctEntries(s: seq<Entry>)
  {
    forall i, j :: 0 <= i < j < |s| ==> s[i] != s[j]
  }

  /** The entries of `s` whose count is `n`, in their order in `s`. */
  function WithCount(s: seq<Entry>, n: nat): seq<Entry>
  {
    if s == [] then [] else (if s[0].1 == n then [s[0]] else []) + WithCount(s[1..], n)
  }

  /** Places `e` after every entry whose count is at least its own. */
  function Insert(e: Entry, s: seq<Entry>): (r: seq<Entry>)
    ensures |r| == |s| + 1
  {
    if s == [] || s[0].1 < e.1 then [e] + s else [s[0]] + Insert(e, s[1..])
  }

  /** `sorted(s, key=count, reverse=True)`, by insertion. */
  function SortByCount(s: seq<Entry>): (r: seq<Entry>)
    ensures |r| == |s|
  {
    if s == [] then [] else Insert(s[|s| - 1], SortByCount(s[..|s| - 1]))
  }

  lemma {:induction false} WithCountAppend(a: seq<Entry>, b: seq<Entry>, n: nat)
    ensures WithCount(a + b, n) == WithCount(a, n) + WithCount(b, n)
  {
    if a == [] {
      assert a + b == b;
    } else {
      assert (a + b)[0] == a[0] && (a + b)[1..] == a[1..] + b;
      WithCountAppend(a[1..], b, n);
      var h := if a[0].1 == n then [a[0]] else [];
      assert WithCount(a + b, n) == h + (WithCount(a[1..], n) + WithCount(b, n));
    }
  }

  lemma {:induction false} WithCountNone(s: seq<Entry>, n: nat)
    requires forall i :: 0 <= i < |s| ==> s[i].1 != n
    ensures WithCount(s, n) == []
  {
    if s != [] {
      WithCountNone(s[1..], n);
    }
  }

  lemma {:induction false} InsertPermutes(e: Entry, s: seq<Entry>)
    ensures multiset(Insert(e, s)) == multiset(s) + multiset{e}
  {
    if s != [] && s[0].1 >= e.1 {
      InsertPermutes(e, s[1..]);
      assert s == [s[0]] + s[1..];
    }
  }

  lemma {:induction false} InsertSorted(e: Entry, s: seq<Entry>)
    requires SortedByCount(s)
    ensures SortedByCount(Insert(e, s))
  {
    if s != [] && s[0].1 >= e.1 {
      InsertSorted(e, s[1..]);
      var t := Insert(e, s[1..]);
      InsertPermutes(e, s[1..]);
      forall j | 0 <= j < |t|
        ensures s[0].1 >= t[j].1
      {
        assert t[j] in multiset(t);
        assert t[j] == e || t[j] in multiset(s[1..]);
      }
    }
  }

  /** An entry joins the end of the entries of its own count. */
  lemma {:induction false} InsertWithCount(e: Entry, s: seq<Entry>, n: nat)
    requires SortedByCount(s)
    ensures WithCount(Insert(e, s), n) == WithCount(s, n) + (if e.1 == n then [e] else [])
  {
    if s == [] || s[0].1 < e.1 {
      var r := [e] + s;
      assert r[1..] == s;
      if e.1 == n {
        WithCountNone(s, n);
      }
    } else {
      var r := [s[0]] + Insert(e, s[1..]);
      assert r[1..] == Insert(e, s[1..]);
      InsertWithCount(e, s[1..], n);
    }
  }

  /** The sort orders by count, keeps every entry, and is stable. */
  lemma {:induction false} SortByCountCorrect(s: seq<Entry>)
    ensures SortedByCount(SortByCount(s))
    ensures multiset(SortByCount(s)) == multiset(s)
    ensures forall n :: WithCount(SortByCount(s), n) == WithCount(s, n)
  {
    if s != [] {
      var init, last := s[..|s| - 1], s[|s| - 1];
      assert s == init + [last];
      SortByCountCorrect(init);
      InsertSorted(last, SortByCount(init));
      InsertPermutes(last, SortByCount(init));
      forall n
        ensures WithCount(SortByCount(s), n) == WithCount(s, n)
      {
        InsertWithCount(last, SortByCount(init), n);
        WithCountAppend(init, [last], n);
      }
    }
  }

  /** A duplicate-free list counts each entry once. */
  lemma {:induction false} DistinctOccursOnce(s: seq<Entry>, e: Entry)
    requires DistinctEntries(s)
    ensures multiset(s)[e] <= 1
  {
    if s != [] {
      var init, last := s[..|s| - 1], s[|s| - 1];
      assert s == init + [last];
      DistinctOccursOnce(init, e);
      if last == e {
        assert e !in init;
      }
    }
  }

  /** Reordering a duplicate-free list leaves it duplicate-free. */
  lemma DistinctPermutation(a: seq<Entry>, b: seq<Entry>)
    requires multiset(a) == multiset(b) && DistinctEntries(b)
    ensures DistinctEntries(a)
  {
    forall i, j | 0 <= i < j < |a|
      ensures a[i] != a[j]
    {
      if a[i] == a[j] {
        var x := a[i];
        assert a == a[..j] + [a[j]] + a[j + 1..];
        assert x in a[..j];
        assert multiset(a)[x] >= 2;
        DistinctOccursOnce(b, x);
        assert false;
      }
    }
  }

  lemma ItemsFacts(c: Counter)
    requires Valid(c)
    ensures DistinctEntries(Items(c))
    ensures forall e :: e in Items(c) ==> e.0 in c.counts && e.1 == c.counts[e.0]
    ensures forall k :: k in c.counts ==> (k, c.counts[k]) in Items(c)
  {
    var items := Items(c);
    forall k | k in c.counts
      ensures (k, c.counts[k]) in items
    {
      var p :| 0 <= p < |c.order| && c.order[p] == k;
      assert items[p] == (k, c.counts[k]);
    }
  }

  /** Every entry of `s` pairs a key of `c` with its count. */
  predicate TrueCounts(s: seq<Entry>, c: Counter)
  {
    forall e :: e in s ==> e.0 in c.counts && e.1 == c.counts[e.0]
  }

  /** Every key of `c` appears in `s` with its count. */
  predicate Covers(s: seq<Entry>, c: Counter)
  {
    forall k :: k in c.counts ==> (k, c.counts[k]) in s
  }

  lemma SortedItemsFacts(c: Counter)
    requires Valid(c)
    ensures var s := SortByCount(Items(c));
      SortedByCount(s) && DistinctEntries(s) && TrueCounts(s, c) && Covers(s, c)
      && (forall m :: WithCount(s, m) == WithCount(Items(c), m))
  {
    var items := Items(c);
    var s := SortByCount(items);
    SortByCountCorrect(items);
    ItemsFacts(c);
    DistinctPermutation(s, items);
    forall e | e in s
      ensures e.0 in c.counts && e.1 == c.counts[e.0]
    {
      assert e in multiset(items);
    }
    forall k | k in c.counts
      ensures (k, c.counts[k]) in s
    {
      assert (k, c.counts[k]) in multiset(s);
    }
  }

  lemma PrefixKeysDistinct(c: Counter, s: seq<Entry>, len: nat)
    requires DistinctEntries(s) && TrueCounts(s, c) && len <= |s|
    ensures forall i, j :: 0 <= i < j < len ==> s[..len][i].0 != s[..len][j].0
  {
    forall i, j | 0 <= i < j < len
      ensures s[i].0 != s[j].0
    {
      assert s[i] in s && s[j] in s;
    }
  }

  /** A key missing from the first `len` entries counts no more than any of them. */
  lemma PrefixComplete(c: Counter, s: seq<Entry>, len: nat)
    requires SortedByCount(s) && Covers(s, c) && len <= |s|
    ensures forall k, i :: k in c.counts && 0 <= i < len && c.counts[k] > s[..len][i].1 ==> k in KeysOf(s[..len])
    ensures len == |s| ==> forall k :: k in c.counts ==> k in KeysOf(s[..len])
  {
    var r := s[..len];
    forall k, i | k in c.counts && 0 <= i < len && c.counts[k] > r[i].1
      ensures k in KeysOf(r)
    {
      var q :| 0 <= q < |s| && s[q] == (k, c.counts[k]);
      if q < len {
        assert KeysOf(r)[q] == k;
      } else {
        assert false;
      }
    }
    if len == |s| {
      forall k | k in c.counts
        ensures k in KeysOf(r)
      {
        var q :| 0 <= q < |s| && s[q] == (k, c.counts[k]);
        assert KeysOf(r)[q] == k;
      }
    }
  }

  lemma PrefixWithCount(s: seq<Entry>, len: nat, m: nat)
    requires len <= |s|
    ensures WithCount(s[..len], m) <= WithCount(s, m)
  {
    assert s == s[..len] + s[len..];
    WithCountAppend(s[..len], s[len..], m);
  }

  /**
   * `c.most_common(n)`: the `n` entries with the largest counts (all of them if
   * there are fewer), each with its true count, no key twice, in non-increasing
   * count order. No key left out counts more than a listed one, and for each count
   * the listed keys are the first ones with that count in insertion order.
   */
  function MostCommon(c: Counter, n: nat): (r: seq<Entry>)
    requires Valid(c)
    ensures |r| == if n < |c.order| then n else |c.order|
    ensures SortedByCount(r)
    ensures forall e :: e in r ==> e.0 in c.counts && e.1 == c.counts[e.0]
    ensures forall i, j :: 0 <= i < j < |r| ==> r[i].0 != r[j].0
    ensures forall k, i :: k in c.counts && 0 <= i < |r| && c.counts[k] > r[i].1 ==> k in KeysOf(r)
    ensures n >= |c.order| ==> forall k :: k in c.counts ==> k in KeysOf(r)
    ensures forall m :: WithCount(r, m) <= WithCount(Items(c), m)
  {
    var s := SortByCount(Items(c));
    var len := if n < |c.order| then n else |c.order|;
    SortedItemsFacts(c);
    PrefixKeysDistinct(c, s, len);
    PrefixComplete(c, s, len);
    assert forall m :: WithCount(s[..len], m) <= WithCount(Items(c), m) by {
      forall m
        ensures WithCount(s[..len], m) <= WithCount(Items(c), m)
      {
        PrefixWithCount(s, len, m);
      }
    }
    s[..len]
  }
}
