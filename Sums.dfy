/**
 * Lists of distinct cells and the sum of their values, as UpdateSelected
 * computes it (Assets/Scripts/GameManager.cs): `entered.ToList()` lists a
 * set in some order, and a loop adds up the values.  Whatever order the
 * set is listed in, the sum is the same.
 */
module Sums {

  /** No element occurs twice. */
  ghost predicate Distinct<T>(xs: seq<T>) {
    forall i, j | 0 <= i < j < |xs| :: xs[i] != xs[j]
  }

  function Elements<T>(xs: seq<T>): set<T> {
    set x | x in xs
  }

  lemma NoElements<T>(xs: seq<T>)
    ensures Elements(xs) == {} <==> xs == []
  {
    if xs != [] {
      assert xs[0] in Elements(xs);
    }
  }

  /** The sum of the values of the elements, adding the last one last. */
  function Total<T>(xs: seq<T>, value: T -> int): int {
    if xs == [] then 0 else Total(xs[..|xs| - 1], value) + value(xs[|xs| - 1])
  }

  lemma {:induction false} TotalAppend<T>(xs: seq<T>, x: T, value: T -> int)
    ensures Total(xs + [x], value) == Total(xs, value) + value(x)
  {
    assert (xs + [x])[..|xs|] == xs;
  }

  /** Taking element i out of a list takes its value out of the total. */
  lemma {:induction false} TotalRemove<T>(ys: seq<T>, i: int, value: T -> int)
    requires 0 <= i < |ys|
    ensures Total(ys, value) == Total(ys[..i] + ys[i + 1..], value) + value(ys[i])
    decreases |ys|
  {
    var last := |ys| - 1;
    if i == last {
      assert ys[..i] + ys[i + 1..] == ys[..last];
    } else {
      var init := ys[..last];
      TotalRemove(init, i, value);
      assert init[i] == ys[i];
      assert ys[..i] + ys[i + 1..] == (init[..i] + init[i + 1..]) + [ys[last]];
      TotalAppend(init[..i] + init[i + 1..], ys[last], value);
    }
  }

  /**
   * `xs` lists the set `s`: every element of `s` once and nothing else.
   * Stated from the last element back, the way a chain grows and shrinks.
   */
  ghost predicate Lists<T>(xs: seq<T>, s: set<T>)
    decreases |xs|
  {
    if xs == [] then s == {} else xs[|xs| - 1] in s && Lists(xs[..|xs| - 1], s - {xs[|xs| - 1]})
  }

  /** The last element splits the elements of a list, and the list is distinct when its front is and leaves the last out. */
  lemma SplitLast<T>(xs: seq<T>)
    requires xs != []
    ensures Elements(xs) == Elements(xs[..|xs| - 1]) + {xs[|xs| - 1]}
    ensures Distinct(xs) <==> Distinct(xs[..|xs| - 1]) && xs[|xs| - 1] !in Elements(xs[..|xs| - 1])
  {
    var init, x := xs[..|xs| - 1], xs[|xs| - 1];
    assert xs == init + [x];
    if Distinct(init) && x !in Elements(init) {
      forall i, j | 0 <= i < j < |xs| ensures xs[i] != xs[j] {
        if j == |xs| - 1 {
          assert xs[i] == init[i] && init[i] in Elements(init);
        } else {
          assert xs[i] == init[i] && xs[j] == init[j];
        }
      }
    }
    if Distinct(xs) {
      forall i | 0 <= i < |init| ensures init[i] != x {
        assert xs[i] == init[i];
      }
    }
  }

  /** Lists says no more and no less than: distinct, with exactly the elements of the set. */
  lemma {:induction false} ListsMeans<T>(xs: seq<T>, s: set<T>)
    ensures Lists(xs, s) <==> Distinct(xs) && Elements(xs) == s
    decreases |xs|
  {
    if xs == [] {
      NoElements(xs);
    } else {
      var init, x := xs[..|xs| - 1], xs[|xs| - 1];
      ListsMeans(init, s - {x});
      SplitLast(xs);
      if Distinct(xs) && Elements(xs) == s {
        assert Elements(init) == s - {x};
      }
    }
  }

  /** An element is in a listing exactly when it is in the set listed. */
  lemma {:induction false} ListsIn<T>(xs: seq<T>, s: set<T>, y: T)
    requires Lists(xs, s)
    ensures y in xs <==> y in s
    decreases |xs|
  {
    if xs != [] {
      var init, x := xs[..|xs| - 1], xs[|xs| - 1];
      ListsIn(init, s - {x}, y);
      assert xs == init + [x];
    }
  }

  /** Appending an element not in the set lists the set with it. */
  lemma ListsAppend<T>(xs: seq<T>, s: set<T>, x: T)
    requires Lists(xs, s) && x !in s
    ensures Lists(xs + [x], s + {x})
  {
    assert (xs + [x])[..|xs|] == xs;
    assert (s + {x}) - {x} == s;
  }

  /** Dropping the last element lists the set without it, and the rest does not hold it. */
  lemma ListsDropLast<T>(xs: seq<T>, s: set<T>)
    requires Lists(xs, s) && xs != []
    ensures Lists(xs[..|xs| - 1], s - {xs[|xs| - 1]}) && xs[|xs| - 1] !in xs[..|xs| - 1]
  {
    ListsIn(xs[..|xs| - 1], s - {xs[|xs| - 1]}, xs[|xs| - 1]);
  }

  /** Taking element i out of a listing lists the set without it. */
  lemma {:induction false} ListsRemove<T>(ys: seq<T>, s: set<T>, i: int)
    requires Lists(ys, s) && 0 <= i < |ys|
    ensures ys[i] in s && Lists(ys[..i] + ys[i + 1..], s - {ys[i]})
    decreases |ys|
  {
    var last := |ys| - 1;
    if i == last {
      assert ys[..i] + ys[i + 1..] == ys[..last];
    } else {
      var init, x := ys[..last], ys[last];
      ListsRemove(init, s - {x}, i);
      assert init[i] == ys[i];
      var rest := init[..i] + init[i + 1..];
      assert ys[..i] + ys[i + 1..] == rest + [x];
      assert s - {x} - {ys[i]} == s - {ys[i]} - {x};
      ListsAppend(rest, s - {x} - {ys[i]}, x);
      assert s - {ys[i]} - {x} + {x} == s - {ys[i]};
    }
  }

  /** Two listings of the same set have the same total: the order a set is listed in does not matter. */
  lemma {:induction false} TotalSameSet<T>(xs: seq<T>, ys: seq<T>, s: set<T>, value: T -> int)
    requires Lists(xs, s) && Lists(ys, s)
    ensures Total(xs, value) == Total(ys, value)
    decreases |xs|
  {
    if xs != [] {
      var last := |xs| - 1;
      var x := xs[last];
      ListsIn(ys, s, x);
      var i :| 0 <= i < |ys| && ys[i] == x;
      ListsRemove(ys, s, i);
      TotalRemove(ys, i, value);
      TotalSameSet(xs[..last], ys[..i] + ys[i + 1..], s - {x}, value);
    }
  }

  /** `HashSet.ToList`: every element once, in an order the set does not fix. */
  method Enumerate<T>(s: set<T>) returns (xs: seq<T>)
    ensures Lists(xs, s)
  {
    xs := [];
    var rest := s;
    while rest != {}
      invariant rest <= s && Lists(xs, s - rest)
      decreases |rest|
    {
      var x :| x in rest;
      ListsAppend(xs, s - rest, x);
      assert (s - rest) + {x} == s - (rest - {x});
      xs := xs + [x];
      rest := rest - {x};
    }
    assert s - rest == s;
  }

  /**
   * The body of UpdateSelected: list the set, then add up the values of
   * the listed elements in list order.
   */
  /** The total of any one listing is the total of every listing of the same set. */
  lemma SumOfListing<T>(xs: seq<T>, s: set<T>, value: T -> int)
    requires Lists(xs, s)
    ensures forall ys | Lists(ys, s) :: Total(ys, value) == Total(xs, value)
  {
    forall ys | Lists(ys, s) ensures Total(ys, value) == Total(xs, value) {
      TotalSameSet(ys, xs, s, value);
    }
  }

  /** Lists a set and adds up its values, the way a `foreach` over `ToList()` does. */
  method ListAndSum<T>(s: set<T>, value: T -> int) returns (list: seq<T>, sum: int)
    ensures Lists(list, s) && sum == Total(list, value)
    ensures forall ys | Lists(ys, s) :: Total(ys, value) == sum
  {
    list := Enumerate(s);
    sum := 0;
    for i := 0 to |list|
      invariant sum == Total(list[..i], value)
    {
      assert list[..i + 1] == list[..i] + [list[i]];
      TotalAppend(list[..i], list[i], value);
      sum := sum + value(list[i]);
    }
    assert list[..|list|] == list;
    SumOfListing(list, s, value);
  }
}
