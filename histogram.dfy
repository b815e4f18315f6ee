/**
  Histograms of small keys: the counting the multiplicity arms of the
  witness solver do before they store their counts.
*/
module Histograms {

  /** All keys fit a table of n counters. */
  predicate KeysBelow(keys: seq<nat>, n: nat) {
    forall k :: 0 <= k < |keys| ==> keys[k] < n
  }

  /** n counters, each incremented once per key, keys taken in order. */
  function Histogram(keys: seq<nat>, n: nat): (h: seq<nat>)
    requires KeysBelow(keys, n)
    ensures |h| == n
  {
    if |keys| == 0 then seq(n, _ => 0)
    else
      var h := Histogram(keys[..|keys| - 1], n);
      var key := keys[|keys| - 1];
      h[key := h[key] + 1]
  }

  /** Counting one more key of a list increments that key's counter. */
  lemma HistogramStep(keys: seq<nat>, n: nat, k: nat)
    requires KeysBelow(keys, n) && k < |keys|
    ensures KeysBelow(keys[..k], n) && KeysBelow(keys[..k + 1], n) && keys[k] < n
    ensures Histogram(keys[..k + 1], n)
         == Histogram(keys[..k], n)[keys[k] := Histogram(keys[..k], n)[keys[k]] + 1]
  {
    assert keys[..k + 1][..k] == keys[..k];
  }

  /** The sum of a sequence of counts. */
  function Total(s: seq<nat>): nat {
    if |s| == 0 then 0 else Total(s[..|s| - 1]) + s[|s| - 1]
  }

  /** Counter i holds the number of occurrences of i among the keys. */
  lemma {:induction false} HistogramCounts(keys: seq<nat>, n: nat, i: nat)
    requires KeysBelow(keys, n) && i < n
    ensures Histogram(keys, n)[i] == multiset(keys)[i]
    decreases |keys|
  {
    if |keys| > 0 {
      var init := keys[..|keys| - 1];
      HistogramCounts(init, n, i);
      assert keys == init + [keys[|keys| - 1]];
    }
  }

  /** The counters add up to the number of keys. */
  lemma {:induction false} HistogramTotal(keys: seq<nat>, n: nat)
    requires KeysBelow(keys, n)
    ensures Total(Histogram(keys, n)) == |keys|
    decreases |keys|
  {
    if |keys| == 0 {
      ZerosTotal(n);
    } else {
      var init := keys[..|keys| - 1];
      HistogramTotal(init, n);
      IncrementTotal(Histogram(init, n), keys[|keys| - 1]);
    }
  }

  lemma {:induction false} ZerosTotal(n: nat)
    ensures Total(seq(n, _ => 0)) == 0
  {
    if n > 0 {
      ZerosTotal(n - 1);
      assert seq(n, _ => 0)[..n - 1] == seq(n - 1, _ => 0);
    }
  }

  /** Incrementing one counter increments the total. */
  lemma {:induction false} IncrementTotal(s: seq<nat>, i: nat)
    requires i < |s|
    ensures Total(s[i := s[i] + 1]) == Total(s) + 1
    decreases |s|
  {
    var t := s[i := s[i] + 1];
    if i < |s| - 1 {
      IncrementTotal(s[..|s| - 1], i);
      assert t[..|t| - 1] == s[..|s| - 1][i := s[i] + 1];
    } else {
      assert t[..|t| - 1] == s[..|s| - 1];
    }
  }

  /** Every counter is at most the number of keys. */
  lemma CountAtMostKeys(keys: seq<nat>, n: nat, i: nat)
    requires KeysBelow(keys, n) && i < n
    ensures Histogram(keys, n)[i] <= |keys|
  {
    HistogramCounts(keys, n, i);
    assert |multiset(keys)| == |keys|;
  }
}
