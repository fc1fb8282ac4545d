/**
 * Ordering used by the `ORDER BY` clauses and `sort.Slice` calls of the
 * backend: a stable insertion sort over any total preorder, and the
 * lexicographic order on strings (code point by code point).
 */
module Sorting {

  /** `le` is total and transitive, so every sequence has a sorted permutation. */
  ghost predicate TotalPreorder<T(!new)>(le: (T, T) -> bool) {
    && (forall a, b :: le(a, b) || le(b, a))
    && (forall a, b, c :: le(a, b) && le(b, c) ==> le(a, c))
  }

  predicate SortedBy<T>(le: (T, T) -> bool, s: seq<T>) {
    forall i, j :: 0 <= i < j < |s| ==> le(s[i], s[j])
  }

  /** Inserts `x` before the first element it is `le` to. */
  function Insert<T>(le: (T, T) -> bool, x: T, s: seq<T>): (r: seq<T>)
    ensures multiset(r) == multiset(s) + multiset{x}
    ensures |r| == |s| + 1
  {
    if |s| == 0 then [x]
    else if le(x, s[0]) then [x] + s
    else
      assert s == [s[0]] + s[1..];
      [s[0]] + Insert(le, x, s[1..])
  }

  /** Insertion sort; the result is a permutation of the input. */
  function SortBy<T>(le: (T, T) -> bool, s: seq<T>): (r: seq<T>)
    ensures multiset(r) == multiset(s)
    ensures |r| == |s|
  {
    if |s| == 0 then []
    else
      assert s == [s[0]] + s[1..];
      Insert(le, s[0], SortBy(le, s[1..]))
  }

  lemma {:induction false} InsertSorted<T(!new)>(le: (T, T) -> bool, x: T, s: seq<T>)
    requires TotalPreorder(le)
    requires SortedBy(le, s)
    ensures SortedBy(le, Insert(le, x, s))
  {
    if |s| > 0 && !le(x, s[0]) {
      var t := Insert(le, x, s[1..]);
      InsertSorted(le, x, s[1..]);
      assert le(s[0], x);
      forall k | 0 <= k < |t| ensures le(s[0], t[k]) {
        assert t[k] in multiset(t);
        if t[k] != x {
          assert t[k] in multiset(s[1..]);
          var m :| 0 <= m < |s[1..]| && s[1..][m] == t[k];
          assert s[m + 1] == t[k];
        }
      }
      var r := [s[0]] + t;
      forall i, j | 0 <= i < j < |r| ensures le(r[i], r[j]) {
        if i > 0 { assert r[i] == t[i - 1] && r[j] == t[j - 1]; }
      }
    } else if |s| > 0 {
      var r := [x] + s;
      forall i, j | 0 <= i < j < |r| ensures le(r[i], r[j]) {
        if i == 0 { assert le(x, s[0]); if j > 1 { assert le(s[0], s[j - 1]); } }
      }
    }
  }

  /** Insertion sort over a total preorder returns a sorted permutation. */
  lemma {:induction false} SortBySorted<T(!new)>(le: (T, T) -> bool, s: seq<T>)
    requires TotalPreorder(le)
    ensures SortedBy(le, SortBy(le, s))
  {
    if |s| > 0 {
      SortBySorted(le, s[1..]);
      InsertSorted(le, s[0], SortBy(le, s[1..]));
    }
  }

  // ---------------------------------------------------------------------------
  // Lexicographic order on strings
  // ---------------------------------------------------------------------------

  /** `a` sorts at or before `b`, comparing code points left to right. */
  predicate StrLe(a: string, b: string) {
    |a| == 0 || (|b| > 0 && (a[0] < b[0] || (a[0] == b[0] && StrLe(a[1..], b[1..]))))
  }

  lemma {:induction false} StrLeTotal(a: string, b: string)
    ensures StrLe(a, b) || StrLe(b, a)
  {
    if |a| > 0 && |b| > 0 && a[0] == b[0] {
      StrLeTotal(a[1..], b[1..]);
    }
  }

  lemma {:induction false} StrLeTrans(a: string, b: string, c: string)
    requires StrLe(a, b) && StrLe(b, c)
    ensures StrLe(a, c)
  {
    if |a| > 0 && a[0] == b[0] && b[0] == c[0] {
      StrLeTrans(a[1..], b[1..], c[1..]);
    }
  }

  lemma {:induction false} StrLeAntisymmetric(a: string, b: string)
    requires StrLe(a, b) && StrLe(b, a)
    ensures a == b
  {
    if |a| > 0 {
      StrLeAntisymmetric(a[1..], b[1..]);
      assert a == [a[0]] + a[1..] && b == [b[0]] + b[1..];
    }
  }

  /** Orders records by a string field, ascending or descending (`ORDER BY f ASC|DESC`). */
  function StrKeyOrder<T>(key: T -> string, descending: bool): (T, T) -> bool {
    (x: T, y: T) => if descending then StrLe(key(y), key(x)) else StrLe(key(x), key(y))
  }

  /** Ordering records by a string field, ascending or descending, is a total preorder. */
  lemma StrKeyPreorder<T(!new)>(key: T -> string, descending: bool)
    ensures TotalPreorder(StrKeyOrder(key, descending))
  {
    var le := StrKeyOrder(key, descending);
    forall a, b ensures le(a, b) || le(b, a) {
      StrLeTotal(key(a), key(b));
    }
    forall a, b, c | le(a, b) && le(b, c) ensures le(a, c) {
      if descending { StrLeTrans(key(c), key(b), key(a)); } else { StrLeTrans(key(a), key(b), key(c)); }
    }
  }

  /** Orders records by an integer field, largest first. */
  function IntKeyDesc<T>(key: T -> int): (T, T) -> bool {
    (x: T, y: T) => key(y) <= key(x)
  }

  /** Ordering records by an integer field, descending, is a total preorder. */
  lemma IntKeyDescPreorder<T(!new)>(key: T -> int)
    ensures TotalPreorder(IntKeyDesc(key))
  {
  }
}
