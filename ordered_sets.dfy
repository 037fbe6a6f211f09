/** JavaScript's Set and Map remember insertion order: iterating them, or
    taking `Array.from` of them, visits elements in the order they were first
    added. This module models such a collection as a sequence in which no
    element occurs twice. */
module OrderedSets {

  /** No element occurs twice. */
  ghost predicate Distinct<T>(xs: seq<T>)
  {
    forall i, j :: 0 <= i < j < |xs| ==> xs[i] != xs[j]
  }

  /** The elements of xs, forgetting their order. */
  function Elements<T>(xs: seq<T>): set<T>
  {
    set x | x in xs
  }

  /** `Set.prototype.add`: a new element goes at the end, and adding an element
      that is already present changes nothing. */
  function Insert<T(==)>(xs: seq<T>, x: T): (r: seq<T>)
    ensures Elements(r) == Elements(xs) + {x}
    ensures Distinct(xs) ==> Distinct(r)
    ensures xs <= r && |r| <= |xs| + 1
    ensures x in xs ==> r == xs
  {
    if x in xs then xs else xs + [x]
  }

  /** `Set.prototype.delete`, and equally `Array.prototype.filter(y => y !== x)`:
      every occurrence of x goes, and the others keep their order. */
  function Without<T(==)>(xs: seq<T>, x: T): (r: seq<T>)
    ensures Elements(r) == Elements(xs) - {x}
    ensures x !in r
    ensures |r| <= |xs|
    ensures x !in xs ==> r == xs
    ensures Distinct(xs) ==> Distinct(r)
    ensures Distinct(xs) && x in xs ==> |r| == |xs| - 1
  {
    if xs == [] then []
    else if xs[0] == x then Without(xs[1..], x)
    else
      var rest := Without(xs[1..], x);
      DistinctCons(xs[0], xs[1..]);
      DistinctCons(xs[0], rest);
      assert Elements([xs[0]] + rest) == {xs[0]} + Elements(rest);
      [xs[0]] + rest
  }

  /** A sequence with a head is duplicate-free when its tail is and does not
      hold the head. */
  lemma DistinctCons<T>(a: T, xs: seq<T>)
    ensures Distinct([a] + xs) <==> a !in xs && Distinct(xs)
  {
    var ys := [a] + xs;
    if Distinct(ys) {
      forall i, j | 0 <= i < j < |xs| ensures xs[i] != xs[j] {
        assert ys[i + 1] == xs[i] && ys[j + 1] == xs[j];
      }
      forall k | 0 <= k < |xs| ensures xs[k] != a {
        assert ys[0] == a && ys[k + 1] == xs[k];
      }
    }
    if a !in xs && Distinct(xs) {
      forall i, j | 0 <= i < j < |ys| ensures ys[i] != ys[j] {
        if i > 0 {
          assert ys[i] == xs[i - 1] && ys[j] == xs[j - 1];
        } else {
          assert ys[j] == xs[j - 1];
        }
      }
    }
  }

  /** The same, for an element appended at the end. */
  lemma DistinctSnoc<T>(xs: seq<T>, a: T)
    ensures Distinct(xs + [a]) <==> a !in xs && Distinct(xs)
  {
    var ys := xs + [a];
    if Distinct(ys) {
      forall i, j | 0 <= i < j < |xs| ensures xs[i] != xs[j] {
        assert ys[i] == xs[i] && ys[j] == xs[j];
      }
      forall k | 0 <= k < |xs| ensures xs[k] != a {
        assert ys[|xs|] == a && ys[k] == xs[k];
      }
    }
    if a !in xs && Distinct(xs) {
      forall i, j | 0 <= i < j < |ys| ensures ys[i] != ys[j] {
        if j < |xs| {
          assert ys[i] == xs[i] && ys[j] == xs[j];
        } else {
          assert ys[i] == xs[i];
        }
      }
    }
  }

  /** Deleting x leaves a non-empty collection empty exactly when x was its only
      element. */
  lemma WithoutEmpty<T>(xs: seq<T>, x: T)
    requires xs != []
    ensures Without(xs, x) == [] <==> Elements(xs) == {x}
  {
    var r := Without(xs, x);
    assert xs[0] in Elements(xs);
    if r != [] {
      assert r[0] in Elements(r);
    }
  }

  /** Filtering distributes over concatenation. */
  lemma {:induction false} WithoutAppend<T>(xs: seq<T>, ys: seq<T>, x: T)
    ensures Without(xs + ys, x) == Without(xs, x) + Without(ys, x)
  {
    if xs == [] {
      assert xs + ys == ys;
    } else {
      assert (xs + ys)[1..] == xs[1..] + ys;
      WithoutAppend(xs[1..], ys, x);
    }
  }

  /** a occurs in xs somewhere before b. */
  ghost predicate Before<T>(xs: seq<T>, a: T, b: T)
  {
    exists i, j :: 0 <= i < j < |xs| && xs[i] == a && xs[j] == b
  }

  /** Deleting x keeps the other elements in the order they had. */
  lemma {:induction false} WithoutOrder<T>(xs: seq<T>, x: T)
    ensures forall i, j :: 0 <= i < j < |Without(xs, x)| ==> Before(xs, Without(xs, x)[i], Without(xs, x)[j])
  {
    if xs != [] {
      var r, tail := Without(xs, x), xs[1..];
      var rest := Without(tail, x);
      WithoutOrder(tail, x);
      forall i, j | 0 <= i < j < |r| ensures Before(xs, r[i], r[j]) {
        if xs[0] == x {
          var a, b :| 0 <= a < b < |tail| && tail[a] == r[i] && tail[b] == r[j];
          assert xs[a + 1] == r[i] && xs[b + 1] == r[j];
        } else if i == 0 {
          assert r[j] == rest[j - 1] && rest[j - 1] in Elements(rest);
          var b :| 0 <= b < |tail| && tail[b] == r[j];
          assert xs[0] == r[0] && xs[b + 1] == r[j];
        } else {
          assert r[i] == rest[i - 1] && r[j] == rest[j - 1];
          var a, b :| 0 <= a < b < |tail| && tail[a] == rest[i - 1] && tail[b] == rest[j - 1];
          assert xs[a + 1] == r[i] && xs[b + 1] == r[j];
        }
      }
    }
  }

  /** The size of a Set is the length of its duplicate-free sequence. */
  lemma {:induction false} DistinctSize<T>(xs: seq<T>)
    requires Distinct(xs)
    ensures |Elements(xs)| == |xs|
  {
    if xs != [] {
      assert xs == [xs[0]] + xs[1..];
      DistinctCons(xs[0], xs[1..]);
      DistinctSize(xs[1..]);
      assert Elements(xs) == {xs[0]} + Elements(xs[1..]);
    }
  }
}
