/**
 * Sequence helpers standing in for the SQL the analytics queries run:
 * `DISTINCT`, `ORDER BY … DESC` and duplicate-free result sets.
 */
module Seqs {

  import opened Wrappers

  /** The index of the first element satisfying `p` (a `first()` over a table in insertion order). */
  function FindFirst<T>(s: seq<T>, p: T -> bool): (r: Option<nat>)
    ensures r.Some? ==> r.value < |s| && p(s[r.value]) && forall j :: 0 <= j < r.value ==> !p(s[j])
    ensures r.None? ==> forall j :: 0 <= j < |s| ==> !p(s[j])
  {
    FindFrom(s, p, 0)
  }

  function FindFrom<T>(s: seq<T>, p: T -> bool, k: nat): (r: Option<nat>)
    requires k <= |s|
    requires forall j :: 0 <= j < k ==> !p(s[j])
    ensures r.Some? ==> k <= r.value < |s| && p(s[r.value]) && forall j :: 0 <= j < r.value ==> !p(s[j])
    ensures r.None? ==> forall j :: 0 <= j < |s| ==> !p(s[j])
    decreases |s| - k
  {
    if k == |s| then None
    else if p(s[k]) then Some(k)
    else FindFrom(s, p, k + 1)
  }

  ghost predicate NoDup<T>(s: seq<T>) {
    forall i, j :: 0 <= i < j < |s| ==> s[i] != s[j]
  }

  /** The distinct elements of `s`, each once (SQL `DISTINCT`). */
  function Distinct<T(==)>(s: seq<T>): (r: seq<T>)
    ensures NoDup(r)
    ensures forall i :: 0 <= i < |r| ==> r[i] in s
    ensures forall i :: 0 <= i < |s| ==> s[i] in r
    ensures |r| <= |s|
  {
    if s == [] then []
    else
      var rest := Distinct(s[1..]);
      if s[0] in rest then rest else [s[0]] + rest
  }

  /** Keys never increase from left to right. */
  ghost predicate SortedDesc<T>(s: seq<T>, key: T -> int) {
    forall i, j :: 0 <= i < j < |s| ==> key(s[i]) >= key(s[j])
  }

  /** Inserts `x` before the first element whose key is below `x`'s. */
  function InsertDesc<T(==)>(x: T, s: seq<T>, key: T -> int): (r: seq<T>)
    ensures multiset(r) == multiset(s) + multiset{x}
    ensures |r| == |s| + 1
    decreases |s|
  {
    if s == [] then [x]
    else if key(s[0]) >= key(x) then
      assert s == [s[0]] + s[1..];
      [s[0]] + InsertDesc(x, s[1..], key)
    else
      [x] + s
  }

  /** Every key in `s` is at most `b`. */
  ghost predicate AllAtMost<T>(s: seq<T>, key: T -> int, b: int) {
    forall k :: 0 <= k < |s| ==> key(s[k]) <= b
  }

  /** A head no smaller than every key of a descending tail keeps the order. */
  lemma SortedCons<T>(h: T, t: seq<T>, key: T -> int)
    requires SortedDesc(t, key) && AllAtMost(t, key, key(h))
    ensures SortedDesc([h] + t, key)
  {
    var r := [h] + t;
    forall i, j | 0 <= i < j < |r| ensures key(r[i]) >= key(r[j]) {
      assert r[j] == t[j - 1];
      if i > 0 {
        assert r[i] == t[i - 1];
      }
    }
  }

  /** Inserting a key at most `b` into keys at most `b` gives keys at most `b`. */
  lemma {:induction false} InsertDescAtMost<T>(x: T, s: seq<T>, key: T -> int, b: int)
    requires AllAtMost(s, key, b) && key(x) <= b
    ensures AllAtMost(InsertDesc(x, s, key), key, b)
    decreases |s|
  {
    if s != [] && key(s[0]) >= key(x) {
      InsertDescAtMost(x, s[1..], key, b);
      var r := InsertDesc(x, s, key);
      assert r == [s[0]] + InsertDesc(x, s[1..], key);
      assert forall k :: 1 <= k < |r| ==> r[k] == InsertDesc(x, s[1..], key)[k - 1];
    }
  }

  /** Insertion keeps the descending order. */
  lemma {:induction false} InsertDescSorted<T>(x: T, s: seq<T>, key: T -> int)
    requires SortedDesc(s, key)
    ensures SortedDesc(InsertDesc(x, s, key), key)
    decreases |s|
  {
    if s == [] {
    } else if key(s[0]) >= key(x) {
      var tail := s[1..];
      assert SortedDesc(tail, key) by {
        assert forall i :: 0 <= i < |tail| ==> tail[i] == s[i + 1];
      }
      assert AllAtMost(tail, key, key(s[0])) by {
        assert forall i :: 0 <= i < |tail| ==> tail[i] == s[i + 1];
      }
      InsertDescSorted(x, tail, key);
      InsertDescAtMost(x, tail, key, key(s[0]));
      SortedCons(s[0], InsertDesc(x, tail, key), key);
    } else {
      SortedCons(x, s, key);
    }
  }

  /** A head absent from a duplicate-free tail keeps it duplicate-free. */
  lemma NoDupCons<T>(h: T, t: seq<T>)
    requires NoDup(t) && h !in t
    ensures NoDup([h] + t)
  {
    var r := [h] + t;
    forall i, j | 0 <= i < j < |r| ensures r[i] != r[j] {
      assert r[j] == t[j - 1];
      if i > 0 {
        assert r[i] == t[i - 1];
      }
    }
  }

  /** Inserting a new element into a duplicate-free sequence keeps it duplicate-free. */
  lemma {:induction false} InsertDescNoDup<T>(x: T, s: seq<T>, key: T -> int)
    requires NoDup(s) && x !in s
    ensures NoDup(InsertDesc(x, s, key))
    decreases |s|
  {
    if s == [] {
    } else if key(s[0]) >= key(x) {
      var tail := s[1..];
      assert s == [s[0]] + tail;
      assert NoDup(tail) by {
        assert forall i :: 0 <= i < |tail| ==> tail[i] == s[i + 1];
      }
      assert s[0] !in tail by {
        assert forall i :: 0 <= i < |tail| ==> tail[i] == s[i + 1];
      }
      InsertDescNoDup(x, tail, key);
      var r := InsertDesc(x, tail, key);
      assert s[0] !in r by {
        assert multiset(r)[s[0]] == multiset(tail)[s[0]] + multiset{x}[s[0]];
      }
      NoDupCons(s[0], r);
    } else {
      NoDupCons(x, s);
    }
  }

  /** `ORDER BY key DESC`: an insertion sort. */
  function SortDesc<T(==)>(s: seq<T>, key: T -> int): (r: seq<T>)
    ensures multiset(r) == multiset(s)
    ensures |r| == |s|
    decreases |s|
  {
    if s == [] then []
    else
      assert s == s[..|s| - 1] + [s[|s| - 1]];
      InsertDesc(s[|s| - 1], SortDesc(s[..|s| - 1], key), key)
  }

  /** The sort yields descending keys, and no duplicates from a duplicate-free input. */
  lemma {:induction false} SortDescSpec<T>(s: seq<T>, key: T -> int)
    ensures SortedDesc(SortDesc(s, key), key)
    ensures NoDup(s) ==> NoDup(SortDesc(s, key))
    decreases |s|
  {
    if s != [] {
      var init := s[..|s| - 1];
      var last := s[|s| - 1];
      var sorted := SortDesc(init, key);
      SortDescSpec(init, key);
      InsertDescSorted(last, sorted, key);
      if NoDup(s) {
        assert forall k :: 0 <= k < |init| ==> init[k] == s[k] != last;
        assert last !in multiset(init);
        assert last !in sorted by { assert multiset(sorted)[last] == 0; }
        assert NoDup(init) by {
          assert forall i, j :: 0 <= i < j < |init| ==> init[i] == s[i] && init[j] == s[j];
        }
        InsertDescNoDup(last, sorted, key);
      }
    }
  }

  /** In a descending sequence, every element kept by `Take` has a key at least that of every element dropped. */
  lemma TakeDominates<T>(s: seq<T>, n: nat, key: T -> int)
    requires SortedDesc(s, key)
    ensures forall i, j :: 0 <= i < |Take(s, n)| <= j < |s| ==> key(s[i]) >= key(s[j])
  {
  }

  /** `LIMIT` keeps elements of the input, each at most as often as the input holds it. */
  lemma TakeSubMultiset<T>(s: seq<T>, n: nat)
    ensures multiset(Take(s, n)) <= multiset(s)
  {
    var r := Take(s, n);
    assert s == r + s[|r|..];
  }

  /** The first `n` elements, or all of them when there are fewer (SQL `LIMIT n`). */
  function Take<T>(s: seq<T>, n: nat): (r: seq<T>)
    ensures |r| == if |s| <= n then |s| else n
    ensures |s| <= n ==> r == s
    ensures r <= s
  {
    if |s| <= n then s else s[..n]
  }
}
