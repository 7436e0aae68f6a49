/**
 * Operations on an ordered list of records that each carry an integer key.
 * The key is given as a function so that the same definitions serve the
 * server tables (jobs, departments, entries, admin users) and the client
 * lists held by the Redux slices.
 */
module Rows {

  /** Keys strictly increase along the list: what an identity column gives
      to rows kept in insertion order, and what makes keys unique. */
  ghost predicate IncreasingKeys<T>(s: seq<T>, key: T -> int) {
    forall i, j :: 0 <= i < j < |s| ==> key(s[i]) < key(s[j])
  }

  /** Some row of `s` has key `id`. */
  ghost predicate HasKey<T, K>(s: seq<T>, key: T -> K, id: K) {
    exists i :: 0 <= i < |s| && key(s[i]) == id
  }

  /** The index of the first row whose key is `id`, or -1 when there is none
      (JavaScript's `findIndex`, and the lookup behind a primary-key find or a
      `FirstOrDefault` on any other column). */
  function FindIndex<T, K(==)>(s: seq<T>, key: T -> K, id: K): (r: int)
    ensures -1 <= r < |s|
    ensures r == -1 <==> !HasKey(s, key, id)
    ensures r != -1 ==> key(s[r]) == id
    ensures r != -1 ==> forall k :: 0 <= k < r ==> key(s[k]) != id
  {
    if s == [] then -1
    else if key(s[0]) == id then 0
    else
      var t := FindIndex(s[1..], key, id);
      assert forall k :: 0 < k < |s| ==> s[k] == s[1..][k - 1];
      if t == -1 then -1 else t + 1
  }

  /** With unique keys, the row found is the only one carrying that key. */
  lemma {:induction false} FindIndexUnique<T>(s: seq<T>, key: T -> int, id: int, j: int)
    requires IncreasingKeys(s, key)
    requires 0 <= j < |s| && key(s[j]) == id
    ensures FindIndex(s, key, id) == j
  {
    var r := FindIndex(s, key, id);
    assert r != -1;
  }

  /** `s` with its first row keyed like `x` replaced by `x`; `s` itself when no
      row has that key (the `findIndex` then `items[index] = payload` idiom). */
  function ReplaceFirst<T>(s: seq<T>, key: T -> int, x: T): (r: seq<T>)
    ensures |r| == |s|
    ensures !HasKey(s, key, key(x)) ==> r == s
    ensures HasKey(s, key, key(x)) ==>
      var i := FindIndex(s, key, key(x));
      r[i] == x && forall k :: 0 <= k < |s| && k != i ==> r[k] == s[k]
    ensures forall k :: 0 <= k < |s| ==> key(r[k]) == key(s[k])
  {
    var i := FindIndex(s, key, key(x));
    if i == -1 then s else s[i := x]
  }

  /** Replacing a row by one with the same key keeps the keys increasing. */
  lemma ReplaceFirstKeepsIncreasingKeys<T>(s: seq<T>, key: T -> int, x: T)
    requires IncreasingKeys(s, key)
    ensures IncreasingKeys(ReplaceFirst(s, key, x), key)
  {
    var r := ReplaceFirst(s, key, x);
    forall i, j | 0 <= i < j < |r| ensures key(r[i]) < key(r[j]) {
      assert key(r[i]) == key(s[i]) && key(r[j]) == key(s[j]);
    }
  }

  /** The rows of `s` that satisfy `p`, in their original order
      (LINQ `Where`, JavaScript `filter`). */
  function Filter<T>(s: seq<T>, p: T -> bool): (r: seq<T>)
    ensures |r| <= |s|
    ensures forall k :: 0 <= k < |r| ==> r[k] in s && p(r[k])
    ensures forall k :: 0 <= k < |s| && p(s[k]) ==> s[k] in r
    ensures (forall k :: 0 <= k < |s| ==> p(s[k])) ==> r == s
  {
    if s == [] then []
    else
      var rest := Filter(s[1..], p);
      assert forall k :: 0 < k < |s| ==> s[k] == s[1..][k - 1];
      if p(s[0]) then [s[0]] + rest else rest
  }

  /** Filtering distributes over concatenation: every kept row stays in its
      segment, so the relative order of the kept rows is that of `s`. */
  lemma {:induction false} FilterAppend<T>(a: seq<T>, b: seq<T>, p: T -> bool)
    ensures Filter(a + b, p) == Filter(a, p) + Filter(b, p)
  {
    if a == [] {
      assert a + b == b;
    } else {
      assert (a + b)[1..] == a[1..] + b;
      FilterAppend(a[1..], b, p);
    }
  }

  /** `r` can be obtained from `s` by deleting rows, keeping the order. */
  ghost predicate IsSubsequence<T>(r: seq<T>, s: seq<T>)
    decreases |s|
  {
    if r == [] then true
    else if s == [] then false
    else if r[0] == s[0] then IsSubsequence(r[1..], s[1..])
    else IsSubsequence(r, s[1..])
  }

  lemma {:induction false} FilterIsSubsequence<T>(s: seq<T>, p: T -> bool)
    ensures IsSubsequence(Filter(s, p), s)
  {
    if s != [] {
      FilterIsSubsequence(s[1..], p);
      var rest := Filter(s[1..], p);
      if !p(s[0]) {
        SubsequenceDropHead(rest, s);
      }
    }
  }

  lemma {:induction false} SubsequenceDropHead<T>(r: seq<T>, s: seq<T>)
    requires s != [] && IsSubsequence(r, s[1..])
    ensures IsSubsequence(r, s)
    decreases |s|, 0
  {
    if r != [] && r[0] == s[0] {
      SubsequenceTail(r, s[1..]);
    }
  }

  lemma {:induction false} SubsequenceTail<T>(r: seq<T>, t: seq<T>)
    requires r != [] && IsSubsequence(r, t)
    ensures IsSubsequence(r[1..], t)
    decreases |t|, 1
  {
    if r[0] == t[0] {
      SubsequenceDropHead(r[1..], t);
    } else {
      SubsequenceTail(r, t[1..]);
      SubsequenceDropHead(r[1..], t);
    }
  }

  /** Filters that agree on every row of `s` select the same rows. */
  lemma {:induction false} FilterCongruent<T>(s: seq<T>, p: T -> bool, q: T -> bool)
    requires forall k :: 0 <= k < |s| ==> p(s[k]) == q(s[k])
    ensures Filter(s, p) == Filter(s, q)
  {
    if s != [] {
      FilterCongruent(s[1..], p, q);
    }
  }

  /** `s` without the rows keyed `id`, order kept (the client-side delete). */
  function RemoveKey<T>(s: seq<T>, key: T -> int, id: int): (r: seq<T>)
    ensures forall k :: 0 <= k < |r| ==> r[k] in s && key(r[k]) != id
    ensures forall k :: 0 <= k < |s| && key(s[k]) != id ==> s[k] in r
    ensures !HasKey(s, key, id) ==> r == s
  {
    Filter(s, (x: T) => key(x) != id)
  }

  lemma RemoveKeyIsSubsequence<T>(s: seq<T>, key: T -> int, id: int)
    ensures IsSubsequence(RemoveKey(s, key, id), s)
  {
    FilterIsSubsequence(s, (x: T) => key(x) != id);
  }

  /** `s` with the row at index `i` removed (the server-side delete). */
  function RemoveAt<T>(s: seq<T>, i: int): (r: seq<T>)
    requires 0 <= i < |s|
    ensures |r| == |s| - 1
    ensures forall k :: 0 <= k < i ==> r[k] == s[k]
    ensures forall k :: i <= k < |r| ==> r[k] == s[k + 1]
  {
    s[..i] + s[i + 1..]
  }

  /** When keys are unique, deleting the one row with key `id` on the server
      and filtering out key `id` on the client give the same list. */
  lemma RemoveAtIsRemoveKey<T>(s: seq<T>, key: T -> int, i: int)
    requires IncreasingKeys(s, key)
    requires 0 <= i < |s|
    ensures RemoveAt(s, i) == RemoveKey(s, key, key(s[i]))
  {
    var id := key(s[i]);
    var p := (x: T) => key(x) != id;
    assert s == s[..i] + ([s[i]] + s[i + 1..]);
    FilterAppend(s[..i], [s[i]] + s[i + 1..], p);
    FilterAppend([s[i]], s[i + 1..], p);
    assert Filter([s[i]], p) == [] by {
      assert [s[i]][1..] == [];
    }
    var pre, post := s[..i], s[i + 1..];
    forall k | 0 <= k < |pre| ensures p(pre[k]) {
      assert key(s[k]) < key(s[i]);
    }
    forall k | 0 <= k < |post| ensures p(post[k]) {
      assert key(s[i]) < key(s[i + 1 + k]);
    }
  }

  /** Removing rows keeps the keys increasing. */
  lemma RemoveAtKeepsIncreasingKeys<T>(s: seq<T>, key: T -> int, i: int)
    requires IncreasingKeys(s, key)
    requires 0 <= i < |s|
    ensures IncreasingKeys(RemoveAt(s, i), key)
  {
    var r := RemoveAt(s, i);
    forall a, b | 0 <= a < b < |r| ensures key(r[a]) < key(r[b]) {
      var sa := if a < i then a else a + 1;
      var sb := if b < i then b else b + 1;
      assert r[a] == s[sa] && r[b] == s[sb];
    }
  }
}
