/** The stable sort of Rust's `slice::sort_by`, as the archiver uses it: by a
    key under a total preorder. A stable sort's output is determined by its
    input, so the insertion sort below yields what the library's merge sort
    yields. */
module Sorting {

  ghost predicate TotalPreorder<K(!new)>(leq: (K, K) -> bool) {
    && (forall a, b :: leq(a, b) || leq(b, a))
    && (forall a, b, c :: leq(a, b) && leq(b, c) ==> leq(a, c))
  }

  ghost predicate SortedBy<T, K>(s: seq<T>, key: T -> K, leq: (K, K) -> bool) {
    forall i, j :: 0 <= i < j < |s| ==> leq(key(s[i]), key(s[j]))
  }

  /** Places `x` after every element of `s` whose key is not greater. */
  function Insert<T, K>(x: T, s: seq<T>, key: T -> K, leq: (K, K) -> bool): (r: seq<T>)
    ensures multiset(r) == multiset(s) + multiset{x}
    ensures |r| == |s| + 1
  {
    if |s| == 0 then [x]
    else if !leq(key(s[0]), key(x)) then [x] + s
    else
      assert s == [s[0]] + s[1..];
      [s[0]] + Insert(x, s[1..], key, leq)
  }

  function SortBy<T, K>(s: seq<T>, key: T -> K, leq: (K, K) -> bool): (r: seq<T>)
    ensures multiset(r) == multiset(s)
    ensures |r| == |s|
  {
    if |s| == 0 then []
    else
      assert s == s[..|s| - 1] + [s[|s| - 1]];
      Insert(s[|s| - 1], SortBy(s[..|s| - 1], key, leq), key, leq)
  }

  lemma {:induction false} InsertSorted<T, K(!new)>(x: T, s: seq<T>, key: T -> K, leq: (K, K) -> bool)
    requires TotalPreorder(leq) && SortedBy(s, key, leq)
    ensures SortedBy(Insert(x, s, key, leq), key, leq)
  {
    if |s| > 0 && leq(key(s[0]), key(x)) {
      var t := Insert(x, s[1..], key, leq);
      InsertSorted(x, s[1..], key, leq);
      forall j | 0 <= j < |t| ensures leq(key(s[0]), key(t[j])) {
        assert t[j] in multiset(t);
        assert t[j] == x || t[j] in multiset(s[1..]);
        if t[j] != x {
          var m :| 0 <= m < |s[1..]| && s[1..][m] == t[j];
          assert s[m + 1] == t[j];
        }
      }
    }
  }

  /** The output of `SortBy` is sorted by the key. */
  lemma {:induction false} SortBySorted<T, K(!new)>(s: seq<T>, key: T -> K, leq: (K, K) -> bool)
    requires TotalPreorder(leq)
    ensures SortedBy(SortBy(s, key, leq), key, leq)
  {
    if |s| > 0 {
      SortBySorted(s[..|s| - 1], key, leq);
      InsertSorted(s[|s| - 1], SortBy(s[..|s| - 1], key, leq), key, leq);
    }
  }

  predicate Equivalent<K>(leq: (K, K) -> bool, a: K, b: K) {
    leq(a, b) && leq(b, a)
  }

  /** The elements of `s` whose key is equivalent to `k`, in order. */
  function Equivalents<T, K>(s: seq<T>, k: K, key: T -> K, leq: (K, K) -> bool): (r: seq<T>)
    ensures |r| <= |s|
  {
    if |s| == 0 then []
    else (if Equivalent(leq, key(s[0]), k) then [s[0]] else []) + Equivalents(s[1..], k, key, leq)
  }

  lemma {:induction false} EquivalentsAppend<T, K>(a: seq<T>, b: seq<T>, k: K, key: T -> K, leq: (K, K) -> bool)
    ensures Equivalents(a + b, k, key, leq) == Equivalents(a, k, key, leq) + Equivalents(b, k, key, leq)
  {
    if |a| > 0 {
      assert (a + b)[0] == a[0] && (a + b)[1..] == a[1..] + b;
      EquivalentsAppend(a[1..], b, k, key, leq);
    } else {
      assert a + b == b;
    }
  }

  lemma {:induction false} EquivalentsNone<T, K>(s: seq<T>, k: K, key: T -> K, leq: (K, K) -> bool)
    requires forall j :: 0 <= j < |s| ==> !Equivalent(leq, key(s[j]), k)
    ensures Equivalents(s, k, key, leq) == []
  {
    if |s| > 0 { EquivalentsNone(s[1..], k, key, leq); }
  }

  lemma {:induction false} InsertStable<T, K(!new)>(x: T, s: seq<T>, k: K, key: T -> K, leq: (K, K) -> bool)
    requires TotalPreorder(leq) && SortedBy(s, key, leq)
    ensures Equivalents(Insert(x, s, key, leq), k, key, leq)
         == Equivalents(s, k, key, leq) + (if Equivalent(leq, key(x), k) then [x] else [])
  {
    var tail := if Equivalent(leq, key(x), k) then [x] else [];
    if |s| == 0 {
      assert Equivalents([x], k, key, leq) == tail + Equivalents([x][1..], k, key, leq);
    } else if !leq(key(s[0]), key(x)) {
      assert ([x] + s)[1..] == s;
      assert Equivalents([x] + s, k, key, leq) == tail + Equivalents(s, k, key, leq);
      if Equivalent(leq, key(x), k) {
        forall j | 0 <= j < |s| ensures !Equivalent(leq, key(s[j]), k) {
          if j > 0 { assert leq(key(s[0]), key(s[j])); }
        }
        EquivalentsNone(s, k, key, leq);
      }
    } else {
      var t := Insert(x, s[1..], key, leq);
      var head := if Equivalent(leq, key(s[0]), k) then [s[0]] else [];
      assert SortedBy(s[1..], key, leq);
      InsertStable(x, s[1..], k, key, leq);
      assert ([s[0]] + t)[1..] == t;
      calc {
        Equivalents([s[0]] + t, k, key, leq);
        head + Equivalents(t, k, key, leq);
        head + (Equivalents(s[1..], k, key, leq) + tail);
        (head + Equivalents(s[1..], k, key, leq)) + tail;
        Equivalents(s, k, key, leq) + tail;
      }
    }
  }

  /** Stability: the elements of any one key class leave `SortBy` in the
      order in which they entered it. */
  lemma {:induction false} SortByStable<T, K(!new)>(s: seq<T>, k: K, key: T -> K, leq: (K, K) -> bool)
    requires TotalPreorder(leq)
    ensures Equivalents(SortBy(s, key, leq), k, key, leq) == Equivalents(s, k, key, leq)
  {
    if |s| > 0 {
      var init, last := s[..|s| - 1], s[|s| - 1];
      var sorted := SortBy(init, key, leq);
      var tail := if Equivalent(leq, key(last), k) then [last] else [];
      calc {
        Equivalents(SortBy(s, key, leq), k, key, leq);
        Equivalents(Insert(last, sorted, key, leq), k, key, leq);
        { SortBySorted(init, key, leq); InsertStable(last, sorted, k, key, leq); }
        Equivalents(sorted, k, key, leq) + tail;
        { SortByStable(init, k, key, leq); }
        Equivalents(init, k, key, leq) + tail;
        { assert [last][1..] == []; }
        Equivalents(init, k, key, leq) + Equivalents([last], k, key, leq);
        { EquivalentsAppend(init, [last], k, key, leq); assert s == init + [last]; }
        Equivalents(s, k, key, leq);
      }
    }
  }
}
