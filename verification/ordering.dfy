/**
 * Stable sorting by a natural-number key, largest key first. Both "newest first"
 * orders of the application use it: the dashboard's note list and the history query.
 */
module Ordering {

  /** Keys never grow from left to right. */
  ghost predicate NonIncreasing<T>(s: seq<T>, key: T -> nat) {
    forall i, j :: 0 <= i < j < |s| ==> key(s[i]) >= key(s[j])
  }

  /** Puts `x` into an ordered sequence, ahead of every element whose key does not exceed its own. */
  function Insert<T>(x: T, s: seq<T>, key: T -> nat): (r: seq<T>)
    requires NonIncreasing(s, key)
    ensures NonIncreasing(r, key)
    ensures multiset(r) == multiset(s) + multiset{x}
  {
    if s == [] || key(s[0]) <= key(x) then
      [x] + s
    else
      var rest := Insert(x, s[1..], key);
      assert s == [s[0]] + s[1..];
      HeadDominates(s[0], x, s[1..], rest, key);
      [s[0]] + rest
  }

  /** An element whose key is at least every key of an ordered sequence can go in front of it. */
  lemma HeadDominates<T>(h: T, x: T, t: seq<T>, rest: seq<T>, key: T -> nat)
    requires NonIncreasing([h] + t, key) && key(x) < key(h)
    requires NonIncreasing(rest, key) && multiset(rest) == multiset(t) + multiset{x}
    ensures NonIncreasing([h] + rest, key)
  {
    var ht := [h] + t;
    assert ht[0] == h;
    forall j | 0 <= j < |rest| ensures key(h) >= key(rest[j]) {
      assert rest[j] in multiset(rest);
      if rest[j] != x {
        assert rest[j] in multiset(t);
        var m :| 0 <= m < |t| && t[m] == rest[j];
        assert ht[m + 1] == rest[j];
      }
    }
    var r := [h] + rest;
    forall i, j | 0 <= i < j < |r| ensures key(r[i]) >= key(r[j]) {
      assert r[j] == rest[j - 1];
      if i == 0 {
        assert r[i] == h;
      } else {
        assert r[i] == rest[i - 1];
      }
    }
  }

  /** Insertion sort: a permutation of `s` whose keys are non-increasing. */
  function SortDesc<T>(s: seq<T>, key: T -> nat): (r: seq<T>)
    ensures NonIncreasing(r, key)
    ensures multiset(r) == multiset(s)
  {
    if s == [] then
      []
    else
      assert s == [s[0]] + s[1..];
      Insert(s[0], SortDesc(s[1..], key), key)
  }
}
