/**
 * How the storage engine orders the rows of a result. A SELECT without
 * ORDER BY returns its rows in an order the engine chooses; ORDER BY ... DESC
 * sorts them, leaving rows with equal keys in an order the engine chooses.
 * Both choices are modelled by Dafny's `:|`, which picks a fixed but
 * unspecified element: nothing proved here depends on which one it picks.
 */
module Sql {

  /** The elements of `s`, each exactly once, in an order the engine chooses. */
  ghost function Enumerate<T(!new)>(s: set<T>): (r: seq<T>)
    ensures |r| == |s|
    ensures forall x :: x in r <==> x in s
    ensures forall i :: 0 <= i < |r| ==> r[i] in s
    ensures forall i, j :: 0 <= i < j < |r| ==> r[i] != r[j]
    decreases s
  {
    if s == {} then []
    else
      var x :| x in s;
      [x] + Enumerate(s - {x})
  }

  /** A non-empty finite set has an element whose key no other element exceeds. */
  lemma {:induction false} ArgMaxExists<T>(s: set<T>, key: T -> int)
    requires s != {}
    ensures exists x :: x in s && forall y :: y in s ==> key(y) <= key(x)
    decreases s
  {
    var x :| x in s;
    if s != {x} {
      ArgMaxExists(s - {x}, key);
      var z :| z in s - {x} && forall y :: y in s - {x} ==> key(y) <= key(z);
      if key(z) < key(x) {
        assert forall y :: y in s ==> key(y) <= key(x);
      } else {
        assert forall y :: y in s ==> key(y) <= key(z);
      }
    } else {
      assert forall y :: y in s ==> y == x;
    }
  }

  /**
   * The elements of `s` as `ORDER BY key DESC` returns them: each exactly
   * once, keys non-increasing, ties in an order the engine chooses.
   */
  ghost function OrderByDesc<T(!new)>(s: set<T>, key: T -> int): (r: seq<T>)
    ensures |r| == |s|
    ensures forall x :: x in r <==> x in s
    ensures forall i :: 0 <= i < |r| ==> r[i] in s
    ensures forall i, j :: 0 <= i < j < |r| ==> r[i] != r[j]
    ensures forall i, j :: 0 <= i < j < |r| ==> key(r[i]) >= key(r[j])
    ensures |r| > 0 ==> forall y :: y in s ==> key(y) <= key(r[0])
    decreases s
  {
    if s == {} then []
    else
      ArgMaxExists(s, key);
      var x :| x in s && forall y :: y in s ==> key(y) <= key(x);
      [x] + OrderByDesc(s - {x}, key)
  }

  /** The image of a set under a function. */
  ghost function Image<A, B>(s: set<A>, f: A -> B): set<B> {
    set x | x in s :: f(x)
  }

  /** An injective image of a finite set has as many elements as the set. */
  lemma {:induction false} InjectiveImageSize<A, B>(s: set<A>, f: A -> B)
    requires forall x, y :: x in s && y in s && f(x) == f(y) ==> x == y
    ensures |Image(s, f)| == |s|
    decreases s
  {
    if s != {} {
      var x :| x in s;
      var rest := s - {x};
      InjectiveImageSize(rest, f);
      assert Image(s, f) == Image(rest, f) + {f(x)};
      assert f(x) !in Image(rest, f);
    } else {
      assert Image(s, f) == {};
    }
  }

  /**
   * The rows of a result, one per key of `m`, in an order the engine
   * chooses. A join or a filter is written as the map from the key of each
   * row it produces to that row, so rows that look alike are still counted
   * once per key, as SQL counts them.
   */
  ghost function Rows<K(!new), R(!new)>(m: map<K, R>): (r: seq<R>)
    ensures |r| == |m|
    ensures forall i :: 0 <= i < |r| ==> Enumerate(m.Keys)[i] in m && r[i] == m[Enumerate(m.Keys)[i]]
    ensures forall x :: x in r <==> x in m.Values
  {
    var ks := Enumerate(m.Keys);
    var r := seq(|ks|, i requires 0 <= i < |ks| => m[ks[i]]);
    RowsListValues(m, ks, r);
    r
  }

  lemma RowsListValues<K(!new), R(!new)>(m: map<K, R>, ks: seq<K>, r: seq<R>)
    requires |ks| == |r|
    requires forall k :: k in ks <==> k in m
    requires forall i :: 0 <= i < |r| ==> ks[i] in m && r[i] == m[ks[i]]
    ensures forall x :: x in r <==> x in m.Values
  {
  }
}
