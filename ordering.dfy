/**
 * `sortByOrder`: the values of an id-keyed map, sorted by their string
 * `order` field with JavaScript's string `<`, equal keys keeping the order
 * they had (the engine's `sort` is stable).
 *
 * The map is given by its values in `Object.values` order, and each value's
 * `order` field by the function `order`; the ids themselves take no part.
 */
module Ordering {
  import opened Strings

  /** Ascending by `order`: no element is strictly smaller than one before it. */
  predicate Sorted<T>(s: seq<T>, order: T -> string)
  {
    forall i, j :: 0 <= i < j < |s| ==> !Less(order(s[j]), order(s[i]))
  }

  /** `x` placed after every element whose key is not greater than its own. */
  function Insert<T>(x: T, s: seq<T>, order: T -> string): seq<T>
    decreases |s|
  {
    if |s| == 0 then [x]
    else if Less(order(x), order(s[0])) then [x] + s
    else [s[0]] + Insert(x, s[1..], order)
  }

  /** The stable sort by `order`: each value in turn taken into the sorted prefix. */
  function SortByOrder<T>(values: seq<T>, order: T -> string): seq<T>
    decreases |values|
  {
    if |values| == 0 then []
    else
      var n := |values| - 1;
      Insert(values[n], SortByOrder(values[..n], order), order)
  }

  /** The elements with key `k`, in order. */
  function WithKey<T>(s: seq<T>, order: T -> string, k: string): seq<T>
    decreases |s|
  {
    if |s| == 0 then []
    else (if order(s[0]) == k then [s[0]] else []) + WithKey(s[1..], order, k)
  }

  lemma {:induction false} WithKeyAppend<T>(a: seq<T>, b: seq<T>, order: T -> string, k: string)
    ensures WithKey(a + b, order, k) == WithKey(a, order, k) + WithKey(b, order, k)
    decreases |a|
  {
    if |a| == 0 {
      assert a + b == b;
    } else {
      var h := if order(a[0]) == k then [a[0]] else [];
      assert (a + b)[0] == a[0] && (a + b)[1..] == a[1..] + b;
      WithKeyAppend(a[1..], b, order, k);
      var x, y := WithKey(a[1..], order, k), WithKey(b, order, k);
      assert WithKey(a + b, order, k) == h + (x + y);
      assert WithKey(a, order, k) == h + x;
      assert h + (x + y) == (h + x) + y;
    }
  }

  lemma {:induction false} InsertPermutes<T>(x: T, s: seq<T>, order: T -> string)
    ensures multiset(Insert(x, s, order)) == multiset(s) + multiset{x}
    decreases |s|
  {
    if |s| > 0 && !Less(order(x), order(s[0])) {
      InsertPermutes(x, s[1..], order);
      assert s == [s[0]] + s[1..];
    }
  }

  /** A bound below no element of `s` and not above `x` stays below no element of the result. */
  lemma {:induction false} InsertLowerBound<T>(x: T, s: seq<T>, order: T -> string, b: string)
    requires !Less(order(x), b)
    requires forall i :: 0 <= i < |s| ==> !Less(order(s[i]), b)
    ensures forall i :: 0 <= i < |Insert(x, s, order)| ==> !Less(order(Insert(x, s, order)[i]), b)
    decreases |s|
  {
    if |s| > 0 && !Less(order(x), order(s[0])) {
      InsertLowerBound(x, s[1..], order, b);
      var t := Insert(x, s[1..], order);
      assert Insert(x, s, order) == [s[0]] + t;
    }
  }

  lemma {:induction false} InsertSorted<T>(x: T, s: seq<T>, order: T -> string)
    requires Sorted(s, order)
    ensures Sorted(Insert(x, s, order), order)
    decreases |s|
  {
    var r := Insert(x, s, order);
    if |s| == 0 {
    } else if Less(order(x), order(s[0])) {
      forall i, j | 0 <= i < j < |r| ensures !Less(order(r[j]), order(r[i])) {
        if i == 0 {
          assert r[j] == s[j - 1];
          if Less(order(s[j - 1]), order(x)) {
            LessTransitive(order(s[j - 1]), order(x), order(s[0]));
            if j == 1 {
              LessIrreflexive(order(s[0]));
            }
          }
        } else {
          assert r[i] == s[i - 1] && r[j] == s[j - 1];
        }
      }
    } else {
      var rest := s[1..];
      assert Sorted(rest, order) by {
        forall i, j | 0 <= i < j < |rest| ensures !Less(order(rest[j]), order(rest[i])) {
          assert rest[i] == s[i + 1] && rest[j] == s[j + 1];
        }
      }
      assert forall i :: 0 <= i < |rest| ==> !Less(order(rest[i]), order(s[0])) by {
        forall i | 0 <= i < |rest| ensures !Less(order(rest[i]), order(s[0])) {
          assert rest[i] == s[i + 1];
        }
      }
      var t := Insert(x, rest, order);
      InsertSorted(x, rest, order);
      InsertLowerBound(x, rest, order, order(s[0]));
      assert r == [s[0]] + t;
      forall i, j | 0 <= i < j < |r| ensures !Less(order(r[j]), order(r[i])) {
        assert r[j] == t[j - 1];
        if i > 0 {
          assert r[i] == t[i - 1];
        }
      }
    }
  }

  /** Inserting into a sorted sequence adds `x` after every element with its key. */
  lemma {:induction false} InsertWithKey<T>(x: T, s: seq<T>, order: T -> string, k: string)
    requires Sorted(s, order)
    ensures WithKey(Insert(x, s, order), order, k)
         == WithKey(s, order, k) + (if order(x) == k then [x] else [])
    decreases |s|
  {
    var hx := if order(x) == k then [x] else [];
    assert WithKey([x], order, k) == hx + WithKey([x][1..], order, k);
    assert [x][1..] == [];
    if |s| == 0 {
      assert Insert(x, s, order) == [x];
      assert WithKey(s, order, k) == [];
    } else if Less(order(x), order(s[0])) {
      assert Insert(x, s, order) == [x] + s;
      WithKeyAppend([x], s, order, k);
      if order(x) == k {
        NoneWithKey(s, order, k);
      }
    } else {
      var rest := s[1..];
      assert Sorted(rest, order) by {
        forall i, j | 0 <= i < j < |rest| ensures !Less(order(rest[j]), order(rest[i])) {
          assert rest[i] == s[i + 1] && rest[j] == s[j + 1];
        }
      }
      var t := Insert(x, rest, order);
      assert Insert(x, s, order) == [s[0]] + t;
      InsertWithKey(x, rest, order, k);
      WithKeyAppend([s[0]], t, order, k);
      WithKeyAppend([s[0]], rest, order, k);
      assert [s[0]] + rest == s;
      var h0 := WithKey([s[0]], order, k);
      assert h0 + (WithKey(rest, order, k) + hx) == (h0 + WithKey(rest, order, k)) + hx;
    }
  }

  /** No element of a sorted sequence that starts above `k` has key `k`. */
  lemma {:induction false} NoneWithKey<T>(s: seq<T>, order: T -> string, k: string)
    requires Sorted(s, order) && |s| > 0 && Less(k, order(s[0]))
    ensures WithKey(s, order, k) == []
    decreases |s|
  {
    if order(s[0]) == k {
      LessIrreflexive(k);
    }
    if |s| > 1 {
      if !Less(k, order(s[1])) && order(s[1]) != k {
        LessTotal(k, order(s[1]));
        LessTransitive(order(s[1]), k, order(s[0]));
      }
      assert Sorted(s[1..], order) by {
        forall i, j | 0 <= i < j < |s[1..]| ensures !Less(order(s[1..][j]), order(s[1..][i])) {
          assert s[1..][i] == s[i + 1] && s[1..][j] == s[j + 1];
        }
      }
      NoneWithKey(s[1..], order, k);
    }
  }

  /**
   * The result is ascending by `order` under string comparison and is a
   * permutation of the values: the same multiset, so the same length.
   */
  lemma {:induction false} SortByOrderSortedPermutation<T>(values: seq<T>, order: T -> string)
    ensures Sorted(SortByOrder(values, order), order)
    ensures multiset(SortByOrder(values, order)) == multiset(values)
    ensures |SortByOrder(values, order)| == |values|
    decreases |values|
  {
    if |values| > 0 {
      var n := |values| - 1;
      SortByOrderSortedPermutation(values[..n], order);
      InsertSorted(values[n], SortByOrder(values[..n], order), order);
      InsertPermutes(values[n], SortByOrder(values[..n], order), order);
      assert values == values[..n] + [values[n]];
    }
    assert |multiset(SortByOrder(values, order))| == |multiset(values)|;
  }

  /** Stability: the values sharing an `order` key come out in the order they went in. */
  lemma {:induction false} SortByOrderStable<T>(values: seq<T>, order: T -> string, k: string)
    ensures WithKey(SortByOrder(values, order), order, k) == WithKey(values, order, k)
    decreases |values|
  {
    if |values| > 0 {
      var n := |values| - 1;
      SortByOrderStable(values[..n], order, k);
      SortByOrderSortedPermutation(values[..n], order);
      InsertWithKey(values[n], SortByOrder(values[..n], order), order, k);
      WithKeyAppend(values[..n], [values[n]], order, k);
      assert values == values[..n] + [values[n]];
    }
  }

  /** A sequence already in order comes back unchanged. */
  lemma {:induction false} SortByOrderKeepsSorted<T>(values: seq<T>, order: T -> string)
    requires Sorted(values, order)
    ensures SortByOrder(values, order) == values
    decreases |values|
  {
    if |values| > 0 {
      var n := |values| - 1;
      var p := values[..n];
      assert Sorted(p, order) by {
        forall i, j | 0 <= i < j < |p| ensures !Less(order(p[j]), order(p[i])) {
          assert p[i] == values[i] && p[j] == values[j];
        }
      }
      SortByOrderKeepsSorted(p, order);
      InsertAtEnd(values[n], p, order);
      assert p + [values[n]] == values;
    }
  }

  /** An element not below any element of `s` goes at its end. */
  lemma {:induction false} InsertAtEnd<T>(x: T, s: seq<T>, order: T -> string)
    requires forall i :: 0 <= i < |s| ==> !Less(order(x), order(s[i]))
    ensures Insert(x, s, order) == s + [x]
    decreases |s|
  {
    if |s| > 0 {
      InsertAtEnd(x, s[1..], order);
      assert s == [s[0]] + s[1..];
    }
  }

  /** The comparison is on strings, not numbers: the key "10" sorts before "9". */
  lemma StringNotNumericOrder()
    ensures SortByOrder(["9", "10"], (s: string) => s) == ["10", "9"]
  {
    var id := (s: string) => s;
    assert Less("10", "9");
    assert ["9", "10"][..1] == ["9"];
    assert ["9"][..0] == [];
    assert SortByOrder(["9"], id) == Insert("9", [], id) == ["9"];
  }
}
