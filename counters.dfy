/**
 * `collections.Counter` as `analyze` uses it: a count per key, and the order in
 * which keys were first stored (a Counter is a dict, which iterates in insertion
 * order; `most_common` relies on that order for equal counts).
 */
module Counters {

  datatype Counter = Counter(counts: map<string, nat>, order: seq<string>)

  const Empty := Counter(map[], [])

  predicate Distinct(s: seq<string>)
  {
    forall i, j :: 0 <= i < j < |s| ==> s[i] != s[j]
  }

  /** Every stored key is listed exactly once in `order`, with a positive count. */
  predicate Valid(c: Counter)
  {
    && Distinct(c.order)
    && (forall k :: k in c.counts ==> k in c.order)
    && (forall k :: k in c.order ==> k in c.counts)
    && (forall k :: k in c.counts ==> c.counts[k] > 0)
  }

  /** `c[key] += 1`: a missing key reads as 0 and is stored at the end of the order. */
  function Add(c: Counter, key: string): Counter
  {
    if key in c.counts then Counter(c.counts[key := c.counts[key] + 1], c.order)
    else Counter(c.counts[key := 1], c.order + [key])
  }

  /** `c[key] += 1` keeps every key listed once with a positive count. */
  lemma AddValid(c: Counter, key: string)
    requires Valid(c)
    ensures Valid(Add(c, key))
    ensures key in Add(c, key).counts && Add(c, key).counts[key] == (if key in c.counts then c.counts[key] else 0) + 1
    ensures forall k :: k != key ==> (k in Add(c, key).counts <==> k in c.counts)
    ensures forall k :: k != key && k in c.counts ==> Add(c, key).counts[k] == c.counts[k]
  {
  }

  /** The counter left by adding `keys` one at a time to an empty one. */
  function FromKeys(keys: seq<string>): Counter
  {
    if keys == [] then Empty
    else
      Add(FromKeys(keys[..|keys| - 1]), keys[|keys| - 1])
  }

  lemma {:induction false} FromKeysValid(keys: seq<string>)
    ensures Valid(FromKeys(keys))
  {
    if keys != [] {
      var init, last := keys[..|keys| - 1], keys[|keys| - 1];
      FromKeysValid(init);
      AddValid(FromKeys(init), last);
    }
  }

  /** The counter holds exactly the keys of `keys`, each with the number of times it occurs. */
  lemma {:induction false} FromKeysCounts(keys: seq<string>)
    ensures forall k :: k in FromKeys(keys).counts <==> k in keys
    ensures forall k :: k in FromKeys(keys).counts ==> FromKeys(keys).counts[k] == multiset(keys)[k]
  {
    if keys != [] {
      var init, last := keys[..|keys| - 1], keys[|keys| - 1];
      FromKeysCounts(init);
      assert keys == init + [last];
    }
  }

  lemma FromKeysAppend(keys: seq<string>, key: string)
    ensures FromKeys(keys + [key]) == Add(FromKeys(keys), key)
  {
    assert (keys + [key])[..|keys|] == keys;
  }

  /** The index of the first occurrence of `k` in `keys`. */
  function FirstIndex(keys: seq<string>, k: string): (i: nat)
    requires k in keys
    ensures i < |keys| && keys[i] == k && k !in keys[..i]
  {
    var init := keys[..|keys| - 1];
    if k in init then
      var i := FirstIndex(init, k);
      assert keys[..i] == init[..i];
      i
    else |keys| - 1
  }

  /** Each key of `order` occurs in `keys`, and they stand in the order of their first occurrences. */
  predicate InFirstSeenOrder(order: seq<string>, keys: seq<string>)
  {
    && (forall k :: k in order ==> k in keys)
    && (forall i, j :: 0 <= i < j < |order| ==>
          order[i] in keys && order[j] in keys && FirstIndex(keys, order[i]) < FirstIndex(keys, order[j]))
  }

  lemma OrderAfterAdd(init: seq<string>, last: string, o0: seq<string>)
    requires InFirstSeenOrder(o0, init)
    ensures InFirstSeenOrder(if last in init then o0 else o0 + [last], init + [last])
  {
    var keys, o := init + [last], if last in init then o0 else o0 + [last];
    assert keys[..|keys| - 1] == init;
    forall i, j | 0 <= i < j < |o|
      ensures o[i] in keys && o[j] in keys && FirstIndex(keys, o[i]) < FirstIndex(keys, o[j])
    {
      assert o[i] == o0[i];
      if j < |o0| {
        assert o[j] == o0[j];
      }
    }
  }

  /** Keys stand in `order` as they first occur in `keys`. */
  lemma {:induction false} FromKeysOrder(keys: seq<string>)
    ensures InFirstSeenOrder(FromKeys(keys).order, keys)
  {
    if keys != [] {
      var init, last := keys[..|keys| - 1], keys[|keys| - 1];
      FromKeysOrder(init);
      FromKeysCounts(init);
      var c0 := FromKeys(init);
      assert keys == init + [last];
      assert FromKeys(keys).order == if last in init then c0.order else c0.order + [last];
      OrderAfterAdd(init, last, c0.order);
    }
  }

  /** `c[k]`: a key the counter does not hold reads as 0. */
  function Get(counts: map<string, nat>, k: string): nat
  {
    if k in counts then counts[k] else 0
  }

  /** The sum of the counts of the keys in `order`. */
  function SumCounts(order: seq<string>, counts: map<string, nat>): nat
  {
    if order == [] then 0
    else SumCounts(order[..|order| - 1], counts) + Get(counts, order[|order| - 1])
  }

  /** `sum(c.values())`. */
  function Total(c: Counter): nat
  {
    SumCounts(c.order, c.counts)
  }

  lemma {:induction false} SumCountsOther(order: seq<string>, counts: map<string, nat>, k: string, v: nat)
    requires k !in order
    ensures SumCounts(order, counts[k := v]) == SumCounts(order, counts)
  {
    if order != [] {
      SumCountsOther(order[..|order| - 1], counts, k, v);
    }
  }

  lemma {:induction false} SumCountsIncrement(order: seq<string>, counts: map<string, nat>, k: string)
    requires Distinct(order) && k in order && k in counts
    ensures SumCounts(order, counts[k := counts[k] + 1]) == SumCounts(order, counts) + 1
  {
    var init, last := order[..|order| - 1], order[|order| - 1];
    if last == k {
      assert k !in init;
      SumCountsOther(init, counts, k, counts[k] + 1);
    } else {
      SumCountsIncrement(init, counts, k);
    }
  }

  /** Count conservation: the counts add up to the number of keys added. */
  lemma {:induction false} FromKeysTotal(keys: seq<string>)
    ensures Total(FromKeys(keys)) == |keys|
  {
    if keys != [] {
      var init, last := keys[..|keys| - 1], keys[|keys| - 1];
      FromKeysTotal(init);
      FromKeysValid(init);
      var c0 := FromKeys(init);
      assert keys[..|keys| - 1] == init;
      if last in c0.counts {
        SumCountsIncrement(c0.order, c0.counts, last);
      } else {
        SumCountsOther(c0.order, c0.counts, last, 1);
        var c := FromKeys(keys);
        assert c.order[..|c.order| - 1] == c0.order;
      }
    }
  }
}
