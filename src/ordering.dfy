/** Python's `sorted(xs, key=...)` and `list.sort(key=...)`: a stable sort by
    a key. The keys the server uses are integers, strings, and pairs
    `(0, int)` / `(1, str)`; all of them fit the ordered type `SortKey`, in
    which every number comes before every word, numbers compare as integers
    and words compare as Python compares `str` values. */
module Ordering {

  datatype SortKey = Num(n: int) | Word(w: string)

  /** Python's `a <= b` on `str`: lexicographic by code point, a proper
      prefix first. */
  predicate StrLe(a: string, b: string) {
    a == [] || (b != [] && (a[0] < b[0] || (a[0] == b[0] && StrLe(a[1..], b[1..]))))
  }

  predicate KeyLe(a: SortKey, b: SortKey) {
    match a
    case Num(x) => (match b case Num(y) => x <= y case Word(_) => true)
    case Word(x) => (match b case Num(_) => false case Word(y) => StrLe(x, y))
  }

  lemma {:induction false} StrLeTotal(a: string, b: string)
    ensures StrLe(a, b) || StrLe(b, a)
  {
    if a != [] && b != [] && a[0] == b[0] {
      StrLeTotal(a[1..], b[1..]);
    }
  }

  lemma {:induction false} StrLeAntisymmetric(a: string, b: string)
    requires StrLe(a, b) && StrLe(b, a)
    ensures a == b
  {
    if a != [] && b != [] {
      StrLeAntisymmetric(a[1..], b[1..]);
      assert a == [a[0]] + a[1..] && b == [b[0]] + b[1..];
    }
  }

  lemma {:induction false} StrLeTransitive(a: string, b: string, c: string)
    requires StrLe(a, b) && StrLe(b, c)
    ensures StrLe(a, c)
  {
    if a != [] && b != [] && c != [] && a[0] == b[0] == c[0] {
      StrLeTransitive(a[1..], b[1..], c[1..]);
    }
  }

  lemma {:induction false} StrLeReflexive(a: string)
    ensures StrLe(a, a)
  {
    if a != [] {
      StrLeReflexive(a[1..]);
    }
  }

  /** A common prefix does not change how two strings compare. */
  lemma {:induction false} StrLeCommonPrefix(p: string, a: string, b: string)
    ensures StrLe(p + a, p + b) <==> StrLe(a, b)
  {
    if p != [] {
      assert (p + a)[1..] == p[1..] + a && (p + b)[1..] == p[1..] + b;
      assert (p + a)[0] == p[0] == (p + b)[0];
      assert StrLe(p + a, p + b) == StrLe(p[1..] + a, p[1..] + b);
      StrLeCommonPrefix(p[1..], a, b);
    } else {
      assert p + a == a && p + b == b;
    }
  }

  lemma KeyLeReflexive(a: SortKey)
    ensures KeyLe(a, a)
  {
    if a.Word? {
      StrLeReflexive(a.w);
    }
  }

  lemma KeyLeTotal(a: SortKey, b: SortKey)
    ensures KeyLe(a, b) || KeyLe(b, a)
  {
    if a.Word? && b.Word? {
      StrLeTotal(a.w, b.w);
    }
  }

  lemma KeyLeAntisymmetric(a: SortKey, b: SortKey)
    requires KeyLe(a, b) && KeyLe(b, a)
    ensures a == b
  {
    if a.Word? && b.Word? {
      StrLeAntisymmetric(a.w, b.w);
    }
  }

  lemma KeyLeTransitive(a: SortKey, b: SortKey, c: SortKey)
    requires KeyLe(a, b) && KeyLe(b, c)
    ensures KeyLe(a, c)
  {
    if a.Word? && b.Word? && c.Word? {
      StrLeTransitive(a.w, b.w, c.w);
    }
  }

  /** The keys of `s` never decrease. */
  ghost predicate SortedBy<T>(s: seq<T>, key: T -> SortKey) {
    forall i, j :: 0 <= i < j < |s| ==> KeyLe(key(s[i]), key(s[j]))
  }

  /** The elements of `s` whose key is `k`, in their order in `s`. */
  function WithKey<T>(s: seq<T>, key: T -> SortKey, k: SortKey): seq<T> {
    if s == [] then []
    else (if key(s[0]) == k then [s[0]] else []) + WithKey(s[1..], key, k)
  }

  /** Places `x` before the first element whose key is at least its own. */
  function Insert<T>(x: T, s: seq<T>, key: T -> SortKey): seq<T> {
    if s == [] || KeyLe(key(x), key(s[0])) then [x] + s
    else [s[0]] + Insert(x, s[1..], key)
  }

  /** The stable sort: insertion of each element, the first element last, so
      that among equal keys the earlier element ends up in front. */
  function SortBy<T>(s: seq<T>, key: T -> SortKey): seq<T> {
    if s == [] then [] else Insert(s[0], SortBy(s[1..], key), key)
  }

  lemma {:induction false} InsertPermutation<T>(x: T, s: seq<T>, key: T -> SortKey)
    ensures multiset(Insert(x, s, key)) == multiset{x} + multiset(s)
  {
    if s != [] && !KeyLe(key(x), key(s[0])) {
      InsertPermutation(x, s[1..], key);
      assert s == [s[0]] + s[1..];
    }
  }

  /** The sort returns a permutation of its input. */
  lemma {:induction false} SortByPermutation<T>(s: seq<T>, key: T -> SortKey)
    ensures multiset(SortBy(s, key)) == multiset(s)
  {
    if s != [] {
      SortByPermutation(s[1..], key);
      InsertPermutation(s[0], SortBy(s[1..], key), key);
      assert s == [s[0]] + s[1..];
    }
  }

  /** Sorting keeps the length and the members. */
  lemma SortByMembers<T>(s: seq<T>, key: T -> SortKey)
    ensures |SortBy(s, key)| == |s|
    ensures forall x :: x in SortBy(s, key) <==> x in s
  {
    SortByPermutation(s, key);
    var r := SortBy(s, key);
    assert |r| == |multiset(r)| == |multiset(s)| == |s|;
    assert forall x :: x in r <==> x in multiset(r);
  }

  lemma {:induction false} InsertSorted<T>(x: T, s: seq<T>, key: T -> SortKey)
    requires SortedBy(s, key)
    ensures SortedBy(Insert(x, s, key), key)
  {
    if s == [] {
    } else if KeyLe(key(x), key(s[0])) {
      forall j | 0 < j < |s| ensures KeyLe(key(x), key(s[j])) {
        KeyLeTransitive(key(x), key(s[0]), key(s[j]));
      }
    } else {
      KeyLeTotal(key(x), key(s[0]));
      var rest := Insert(x, s[1..], key);
      InsertSorted(x, s[1..], key);
      InsertPermutation(x, s[1..], key);
      forall j | 0 <= j < |rest| ensures KeyLe(key(s[0]), key(rest[j])) {
        assert rest[j] in multiset(rest);
        if rest[j] != x {
          assert rest[j] in multiset(s[1..]);
          var m :| 0 <= m < |s[1..]| && s[1..][m] == rest[j];
          assert s[m + 1] == rest[j];
        }
      }
    }
  }

  /** The keys of the sorted sequence never decrease. */
  lemma {:induction false} SortBySorted<T>(s: seq<T>, key: T -> SortKey)
    ensures SortedBy(SortBy(s, key), key)
  {
    if s != [] {
      SortBySorted(s[1..], key);
      InsertSorted(s[0], SortBy(s[1..], key), key);
    }
  }

  lemma {:induction false} InsertWithKey<T>(x: T, s: seq<T>, key: T -> SortKey, k: SortKey)
    ensures WithKey(Insert(x, s, key), key, k) == (if key(x) == k then [x] else []) + WithKey(s, key, k)
  {
    if s == [] {
    } else if KeyLe(key(x), key(s[0])) {
      var t := [x] + s;
      assert t[0] == x && t[1..] == s;
    } else {
      var rest := Insert(x, s[1..], key);
      InsertWithKey(x, s[1..], key, k);
      var t := [s[0]] + rest;
      assert t[0] == s[0] && t[1..] == rest;
      assert WithKey(t, key, k) == (if key(s[0]) == k then [s[0]] else []) + WithKey(rest, key, k);
      if key(x) == k {
        // s[0]'s key is strictly below x's, so s[0] is not among the elements keyed k
        KeyLeReflexive(key(x));
        assert key(s[0]) != k;
      }
    }
  }

  /** Stability: for every key, the elements with that key keep their input
      order. */
  lemma {:induction false} SortByStable<T>(s: seq<T>, key: T -> SortKey, k: SortKey)
    ensures WithKey(SortBy(s, key), key, k) == WithKey(s, key, k)
  {
    if s != [] {
      SortByStable(s[1..], key, k);
      InsertWithKey(s[0], SortBy(s[1..], key), key, k);
    }
  }

  lemma {:induction false} WithKeyMember<T>(s: seq<T>, key: T -> SortKey, k: SortKey, x: T)
    ensures x in WithKey(s, key, k) <==> x in s && key(x) == k
  {
    if s != [] {
      WithKeyMember(s[1..], key, k, x);
      assert s == [s[0]] + s[1..];
    }
  }

  /** The first element of a non-empty sequence is kept by its own key. */
  lemma WithKeyHead<T>(s: seq<T>, key: T -> SortKey)
    ensures s != [] ==> s[0] in WithKey(s, key, key(s[0]))
  {
    if s != [] {
      WithKeyMember(s, key, key(s[0]), s[0]);
    }
  }

  /** A sorted sequence that keeps, key by key, the order of another one is
      unique: sortedness and stability determine the result of the sort. */
  lemma {:induction false} SortedStableUnique<T>(r: seq<T>, q: seq<T>, key: T -> SortKey)
    requires SortedBy(r, key) && SortedBy(q, key)
    requires forall k :: WithKey(r, key, k) == WithKey(q, key, k)
    ensures r == q
  {
    if r == [] || q == [] {
      WithKeyHead(r, key);
      WithKeyHead(q, key);
    } else {
      var kr, kq := key(r[0]), key(q[0]);
      WithKeyMember(r, key, kr, r[0]);
      WithKeyMember(q, key, kr, r[0]);
      WithKeyMember(q, key, kq, q[0]);
      WithKeyMember(r, key, kq, q[0]);
      var i :| 0 <= i < |q| && q[i] == r[0];
      var j :| 0 <= j < |r| && r[j] == q[0];
      KeyLeReflexive(kr);
      assert KeyLe(kq, kr) by { if i > 0 { assert KeyLe(key(q[0]), key(q[i])); } }
      assert KeyLe(kr, kq) by { if j > 0 { assert KeyLe(key(r[0]), key(r[j])); } }
      KeyLeAntisymmetric(kr, kq);
      assert r[0] == q[0] by {
        assert WithKey(r, key, kr)[0] == r[0];
        assert WithKey(q, key, kr)[0] == q[0];
      }
      forall k ensures WithKey(r[1..], key, k) == WithKey(q[1..], key, k) {
        var head := if key(r[0]) == k then [r[0]] else [];
        assert WithKey(r, key, k) == head + WithKey(r[1..], key, k);
        assert WithKey(q, key, k) == head + WithKey(q[1..], key, k);
        assert WithKey(r[1..], key, k) == (head + WithKey(r[1..], key, k))[|head|..];
        assert WithKey(q[1..], key, k) == (head + WithKey(q[1..], key, k))[|head|..];
      }
      SortedStableUnique(r[1..], q[1..], key);
      assert r == [r[0]] + r[1..] && q == [q[0]] + q[1..];
    }
  }

  /** `r` is sorted by `key` and keeps, key by key, the order of `s`. */
  ghost predicate IsStableSortOf<T>(r: seq<T>, s: seq<T>, key: T -> SortKey) {
    SortedBy(r, key) && forall k :: WithKey(r, key, k) == WithKey(s, key, k)
  }

  /** The sort is characterised without reference to insertion: `r` is the
      sorted form of `s` exactly when its keys never decrease and, key by
      key, it keeps the order of `s`. */
  lemma SortByCharacterization<T>(s: seq<T>, r: seq<T>, key: T -> SortKey)
    ensures r == SortBy(s, key) <==> IsStableSortOf(r, s, key)
  {
    var t := SortBy(s, key);
    SortBySorted(s, key);
    forall k ensures WithKey(t, key, k) == WithKey(s, key, k) {
      SortByStable(s, key, k);
    }
    if SortedBy(r, key) && forall k :: WithKey(r, key, k) == WithKey(s, key, k) {
      forall k ensures WithKey(r, key, k) == WithKey(t, key, k) {
        assert WithKey(r, key, k) == WithKey(s, key, k);
      }
      SortedStableUnique(r, t, key);
    }
  }

  /** In a sorted sequence an element with a strictly smaller key comes first. */
  lemma SortedStrictlyBefore<T>(s: seq<T>, key: T -> SortKey, i: int, j: int)
    requires SortedBy(s, key)
    requires 0 <= i < |s| && 0 <= j < |s|
    requires KeyLe(key(s[i]), key(s[j])) && key(s[i]) != key(s[j])
    ensures i < j
  {
    if j <= i {
      if j < i {
        KeyLeAntisymmetric(key(s[i]), key(s[j]));
      }
    }
  }
}
