/** Least-recently-used order. A cache that keeps its entries in the order of their last use, and drops the
    first one when it is full, holds exactly those that fewer than `capacity` others were used after. The
    reference is the history of uses, without a cache.
 */
module LruOrder {

  ghost predicate NoDuplicates<T>(s: seq<T>) {
    forall i, j :: 0 <= i < j < |s| ==> s[i] != s[j]
  }

  /** The sequence without one of its elements. */
  function Without<T(==,!new)>(s: seq<T>, x: T): (r: seq<T>)
    ensures forall y :: y in r <==> y in s && y != x
  {
    if s == [] then []
    else
      var n := |s| - 1;
      Without(s[..n], x) + if s[n] == x then [] else [s[n]]
  }

  lemma WithoutNext<T(!new)>(s: seq<T>, y: T, x: T)
    ensures Without(s + [y], x) == Without(s, x) + if y == x then [] else [y]
  {
    assert (s + [y])[..|s|] == s;
  }

  lemma {:induction false} WithoutNoDuplicates<T(!new)>(s: seq<T>, x: T)
    requires NoDuplicates(s)
    ensures NoDuplicates(Without(s, x))
  {
    if s != [] {
      var n := |s| - 1;
      WithoutNoDuplicates(s[..n], x);
      assert s[n] !in s[..n];
    }
  }

  lemma {:induction false} WithoutLength<T(!new)>(s: seq<T>, x: T)
    requires NoDuplicates(s)
    ensures |Without(s, x)| == |s| - if x in s then 1 else 0
  {
    if s != [] {
      var n := |s| - 1;
      WithoutLength(s[..n], x);
      assert s[n] !in s[..n];
    }
  }

  /** What comes after the last `x`, as a set: the others used since `x` was used last. */
  function Since<T(==)>(s: seq<T>, x: T): set<T> {
    if s == [] || s[|s| - 1] == x then {} else Since(s[..|s| - 1], x) + {s[|s| - 1]}
  }

  lemma SinceNext<T(!new)>(s: seq<T>, y: T, x: T)
    ensures Since(s + [y], x) == if x == y then {} else Since(s, x) + {y}
  {
    assert (s + [y])[..|s|] == s;
  }

  /** Moving an element to the end is using it once more. */
  lemma {:induction false} SinceTouched<T(!new)>(s: seq<T>, x: T, y: T)
    requires x != y
    ensures Since(Without(s, x), y) + {x} == Since(s, y) + {x}
  {
    if s != [] {
      var n := |s| - 1;
      SinceTouched(s[..n], x, y);
      if s[n] == x {
        assert Without(s, x) == Without(s[..n], x);
      } else {
        SinceNext(Without(s[..n], x), s[n], y);
      }
    }
  }

  /** Dropping the first element does not change what comes after the others. */
  lemma {:induction false} SinceDropped<T(!new)>(s: seq<T>, y: T)
    requires s != [] && y in s[1..]
    ensures Since(s[1..], y) == Since(s, y)
  {
    var n := |s| - 1;
    var tail := s[1..];
    assert tail[|tail| - 1] == s[n];
    if s[n] != y {
      assert tail[..|tail| - 1] == s[..n][1..];
      SinceDropped(s[..n], y);
    }
  }

  lemma {:induction false} SinceIsAmong<T(!new)>(s: seq<T>, x: T, y: T)
    requires y in Since(s, x)
    ensures y in s && y != x
  {
    var n := |s| - 1;
    if y != s[n] {
      SinceIsAmong(s[..n], x, y);
    }
  }

  /** Fewer others come after an element than the sequence has, and after the first one all of them. */
  lemma {:induction false} SinceSize<T(!new)>(s: seq<T>, x: T)
    requires NoDuplicates(s) && x in s
    ensures |Since(s, x)| < |s| && (x == s[0] ==> |Since(s, x)| == |s| - 1)
  {
    var n := |s| - 1;
    if s[n] != x {
      assert x in s[..n];
      SinceSize(s[..n], x);
      assert s[n] !in s[..n];
      if s[n] in Since(s[..n], x) {
        SinceIsAmong(s[..n], x, s[n]);
      }
    }
  }

  /** The order is what is left of the history in a cache of this capacity. */
  ghost predicate Remembers<T(!new)>(history: seq<T>, order: seq<T>, capacity: nat) {
    && NoDuplicates(order) && |order| <= capacity
    && (forall x :: x in order ==> x in history && Since(order, x) == Since(history, x))
    && (forall x :: x in history && x !in order ==> |Since(history, x)| >= capacity)
  }

  /** An element is cached if and only if it was used and fewer than `capacity` others were used since. */
  lemma RemembersIff<T(!new)>(history: seq<T>, order: seq<T>, capacity: nat, x: T)
    requires Remembers(history, order, capacity)
    ensures x in order <==> x in history && |Since(history, x)| < capacity
  {
    if x in order {
      SinceSize(order, x);
    }
  }

  /** A hit moves the element to the end. */
  lemma HitRemembers<T(!new)>(history: seq<T>, order: seq<T>, capacity: nat, y: T)
    requires Remembers(history, order, capacity) && y in order
    ensures Remembers(history + [y], Without(order, y) + [y], capacity)
  {
    var h, o := history + [y], Without(order, y) + [y];
    WithoutNoDuplicates(order, y);
    WithoutLength(order, y);
    forall x | x in o
      ensures x in h && Since(o, x) == Since(h, x)
    {
      SinceNext(history, y, x);
      SinceNext(Without(order, y), y, x);
      if x != y {
        SinceTouched(order, y, x);
      }
    }
    StaysForgotten(history, y, o, capacity);
  }

  /** A miss appends the element; a full cache drops its first one. */
  lemma MissRemembers<T(!new)>(history: seq<T>, order: seq<T>, capacity: nat, y: T)
    requires Remembers(history, order, capacity) && y !in order && capacity > 0
    ensures var kept := if |order| >= capacity then order[1..] else order;
            Remembers(history + [y], kept + [y], capacity)
  {
    var h, kept := history + [y], if |order| >= capacity then order[1..] else order;
    var o := kept + [y];
    forall x | x in o
      ensures x in h && Since(o, x) == Since(h, x)
    {
      SinceNext(history, y, x);
      SinceNext(kept, y, x);
      if x != y && |order| >= capacity {
        SinceDropped(order, x);
      }
    }
    if |order| >= capacity {
      FirstIsForgotten(history, order, capacity, y);
    }
    forall x | x in h && x !in o
      ensures |Since(h, x)| >= capacity
    {
      SinceNext(history, y, x);
      if x in order {
        assert order == [order[0]] + order[1..];
      } else {
        SinceGrows(history, y, x);
      }
    }
  }

  lemma SinceGrows<T(!new)>(s: seq<T>, y: T, x: T)
    requires x != y
    ensures |Since(s + [y], x)| >= |Since(s, x)|
  {
    SinceNext(s, y, x);
    var was := Since(s, x);
    if y in was {
      assert was + {y} == was;
    }
  }

  lemma FirstIsForgotten<T(!new)>(history: seq<T>, order: seq<T>, capacity: nat, y: T)
    requires Remembers(history, order, capacity) && y !in order && |order| == capacity > 0
    ensures |Since(history + [y], order[0])| >= capacity
  {
    var x := order[0];
    SinceNext(history, y, x);
    SinceSize(order, x);
    if y in Since(order, x) {
      SinceIsAmong(order, x, y);
    }
  }

  lemma StaysForgotten<T(!new)>(history: seq<T>, y: T, order: seq<T>, capacity: nat)
    requires y in order && forall x :: x in history && x !in order ==> |Since(history, x)| >= capacity
    ensures forall x :: x in history + [y] && x !in order ==> |Since(history + [y], x)| >= capacity
  {
    forall x | x in history + [y] && x !in order
      ensures |Since(history + [y], x)| >= capacity
    {
      SinceGrows(history, y, x);
    }
  }

  /** What was used at step `i` has been in the cache ever since: at every later step fewer than `capacity`
      others had been used after its last use. */
  predicate Survives<T(==)>(history: seq<T>, i: nat, capacity: nat) {
    i < |history| &&
    (i == |history| - 1 ||
     (Survives(history[..|history| - 1], i, capacity) && |Since(history, history[i])| < capacity))
  }

  lemma SurvivesNext<T(!new)>(history: seq<T>, y: T, i: nat, capacity: nat)
    requires i <= |history|
    ensures Survives(history + [y], i, capacity) <==>
            i == |history| || (Survives(history, i, capacity) && |Since(history + [y], history[i])| < capacity)
  {
    assert (history + [y])[..|history|] == history;
  }
}
