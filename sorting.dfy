/** `Array.prototype.sort` with a numeric comparator `(a, b) => key(a) - key(b)`:
    a stable sort by an integer key. */
module Sorting {

  ghost predicate SortedBy<T>(s: seq<T>, key: T -> int) {
    forall i, j :: 0 <= i < j < |s| ==> key(s[i]) <= key(s[j])
  }

  /** Puts x in front of the first element whose key is not smaller. */
  function InsertBy<T>(x: T, s: seq<T>, key: T -> int): (r: seq<T>)
    requires SortedBy(s, key)
    ensures SortedBy(r, key)
    ensures multiset(r) == multiset(s) + multiset{x}
    ensures |r| == |s| + 1
    ensures forall i :: 0 <= i < |r| ==> r[i] == x || r[i] in s
  {
    if s == [] || key(x) <= key(s[0]) then
      var r := [x] + s;
      assert forall i :: 1 <= i < |r| ==> r[i] == s[i - 1];
      r
    else
      var rest := InsertBy(x, s[1..], key);
      ConsStep(x, s, rest, key);
      [s[0]] + rest
  }

  /** Putting s[0] back in front of the insertion into s[1..] keeps the
      insertion's properties when x's key is larger than s[0]'s. */
  lemma ConsStep<T>(x: T, s: seq<T>, rest: seq<T>, key: T -> int)
    requires SortedBy(s, key) && s != [] && key(s[0]) < key(x)
    requires SortedBy(rest, key)
    requires multiset(rest) == multiset(s[1..]) + multiset{x}
    requires forall i :: 0 <= i < |rest| ==> rest[i] == x || rest[i] in s[1..]
    ensures SortedBy([s[0]] + rest, key)
    ensures multiset([s[0]] + rest) == multiset(s) + multiset{x}
    ensures forall i :: 0 <= i < |[s[0]] + rest| ==> ([s[0]] + rest)[i] == x || ([s[0]] + rest)[i] in s
  {
    assert s == [s[0]] + s[1..];
    var r := [s[0]] + rest;
    HeadBelowRest(x, s, rest, key);
    assert forall i :: 1 <= i < |r| ==> r[i] == rest[i - 1];
  }

  /** Every element of the insertion into s[1..] has a key no smaller than
      s[0]'s when x's key is larger. */
  lemma HeadBelowRest<T>(x: T, s: seq<T>, rest: seq<T>, key: T -> int)
    requires SortedBy(s, key) && s != [] && key(s[0]) < key(x)
    requires forall i :: 0 <= i < |rest| ==> rest[i] == x || rest[i] in s[1..]
    ensures forall j :: 0 <= j < |rest| ==> key(s[0]) <= key(rest[j])
  {
    forall j | 0 <= j < |rest| ensures key(s[0]) <= key(rest[j]) {
      if rest[j] != x {
        var i :| 0 <= i < |s[1..]| && s[1..][i] == rest[j];
        assert s[i + 1] == rest[j];
      }
    }
  }

  /** The elements of s whose key is k, in their order in s. */
  function WithKey<T>(s: seq<T>, key: T -> int, k: int): seq<T> {
    if s == [] then []
    else (if key(s[0]) == k then [s[0]] else []) + WithKey(s[1..], key, k)
  }

  /** Inserting x adds it in front of the elements with its key and leaves
      the order of every other key's elements alone. */
  lemma {:induction false} InsertByWithKey<T>(x: T, s: seq<T>, key: T -> int, k: int)
    requires SortedBy(s, key)
    ensures WithKey(InsertBy(x, s, key), key, k) == (if key(x) == k then [x] else []) + WithKey(s, key, k)
  {
    if s == [] || key(x) <= key(s[0]) {
      assert ([x] + s)[1..] == s;
    } else {
      var rest := InsertBy(x, s[1..], key);
      assert SortedBy(s[1..], key);
      InsertByWithKey(x, s[1..], key, k);
      assert ([s[0]] + rest)[1..] == rest;
      assert InsertBy(x, s, key) == [s[0]] + rest;
    }
  }

  /** Insertion sort: sorted by key, a permutation of its input, and stable:
      the elements with one key keep their order. */
  function SortBy<T>(s: seq<T>, key: T -> int): (r: seq<T>)
    ensures SortedBy(r, key)
    ensures multiset(r) == multiset(s)
    ensures |r| == |s|
    ensures forall k :: WithKey(r, key, k) == WithKey(s, key, k)
  {
    if s == [] then []
    else
      assert s == [s[0]] + s[1..];
      var rest := SortBy(s[1..], key);
      assert forall k :: WithKey(InsertBy(s[0], rest, key), key, k) == WithKey(s, key, k) by {
        forall k ensures WithKey(InsertBy(s[0], rest, key), key, k) == WithKey(s, key, k) {
          InsertByWithKey(s[0], rest, key, k);
        }
      }
      InsertBy(s[0], rest, key)
  }

  /** The index a scan `if (d < min) { min = d; idx = i }` over keys[..k] ends
      with (the minimum starting at +Infinity); it is also the head of a
      stable sort of the indices by key: the first index attaining the
      minimum. */
  function FirstMinIn(keys: seq<real>, k: nat): (c: nat)
    requires 1 <= k <= |keys|
    ensures c < k
    ensures forall j :: 0 <= j < k ==> keys[c] <= keys[j]
    ensures forall j :: 0 <= j < c ==> keys[j] > keys[c]
  {
    if k == 1 then 0
    else
      var c := FirstMinIn(keys, k - 1);
      if keys[k - 1] < keys[c] then k - 1 else c
  }

  function FirstMin(keys: seq<real>): nat
    requires |keys| >= 1
  {
    FirstMinIn(keys, |keys|)
  }
}
