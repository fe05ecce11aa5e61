/** A stable sort under any total preorder, the behaviour both `Array.prototype.sort` with a
    consistent comparator and an `ORDER BY` whose keys leave no ties have. */
module Sorting {

  /** `le` relates every two values and is transitive. */
  ghost predicate TotalPreorder<T(!new)>(le: (T, T) -> bool) {
    && (forall x, y :: le(x, y) || le(y, x))
    && (forall x, y, z :: le(x, y) && le(y, z) ==> le(x, z))
  }

  /** Every element is `le` every later element. */
  predicate SortedBy<T>(s: seq<T>, le: (T, T) -> bool) {
    forall i, j :: 0 <= i < j < |s| ==> le(s[i], s[j])
  }

  /** Inserts `x` before the first element it is `le`, so that it lands after every element
      it is equivalent to only when those come earlier in the input. */
  function Insert<T>(x: T, s: seq<T>, le: (T, T) -> bool): (r: seq<T>)
    ensures multiset(r) == multiset(s) + multiset{x}
    ensures |r| == |s| + 1
  {
    if s == [] then [x]
    else if le(x, s[0]) then [x] + s
    else
      assert s == [s[0]] + s[1..];
      [s[0]] + Insert(x, s[1..], le)
  }

  /** Insertion sort. */
  function Sort<T>(s: seq<T>, le: (T, T) -> bool): (r: seq<T>)
    ensures multiset(r) == multiset(s)
    ensures |r| == |s|
  {
    if s == [] then []
    else
      assert s == [s[0]] + s[1..];
      Insert(s[0], Sort(s[1..], le), le)
  }

  /** A lower bound of `x` and of every element of `s` bounds every element of the insertion. */
  lemma {:induction false} InsertBound<T>(a: T, x: T, s: seq<T>, le: (T, T) -> bool)
    requires le(a, x) && forall k :: 0 <= k < |s| ==> le(a, s[k])
    ensures forall k :: 0 <= k < |Insert(x, s, le)| ==> le(a, Insert(x, s, le)[k])
  {
    if s != [] && !le(x, s[0]) {
      InsertBound(a, x, s[1..], le);
      assert Insert(x, s, le) == [s[0]] + Insert(x, s[1..], le);
    }
  }

  /** Inserting into a sorted sequence keeps it sorted. */
  lemma {:induction false} InsertSorted<T(!new)>(x: T, s: seq<T>, le: (T, T) -> bool)
    requires TotalPreorder(le) && SortedBy(s, le)
    ensures SortedBy(Insert(x, s, le), le)
  {
    if s != [] && !le(x, s[0]) {
      InsertSorted(x, s[1..], le);
      var r := Insert(x, s, le);
      var t := Insert(x, s[1..], le);
      assert r == [s[0]] + t;
      InsertBound(s[0], x, s[1..], le);
      forall i, j | 0 <= i < j < |r| ensures le(r[i], r[j]) {
        assert r[j] == t[j - 1];
        if i > 0 {
          assert r[i] == t[i - 1];
        }
      }
    }
  }

  /** The sort's output is sorted. */
  lemma {:induction false} SortSorted<T(!new)>(s: seq<T>, le: (T, T) -> bool)
    requires TotalPreorder(le)
    ensures SortedBy(Sort(s, le), le)
  {
    if s != [] {
      SortSorted(s[1..], le);
      InsertSorted(s[0], Sort(s[1..], le), le);
    }
  }

  /** `x` and `y` are equally ranked under `le`. */
  predicate Equivalent<T>(x: T, y: T, le: (T, T) -> bool) {
    le(x, y) && le(y, x)
  }

  /** The elements of `s` ranked equally with `x`, in their order in `s`. */
  function EquivalentTo<T>(s: seq<T>, x: T, le: (T, T) -> bool): seq<T> {
    if s == [] then []
    else (if Equivalent(s[0], x, le) then [s[0]] else []) + EquivalentTo(s[1..], x, le)
  }

  /** Ranking equally with `x` is decided element by element, so it distributes over `+`. */
  lemma EquivalentToCons<T>(y: T, t: seq<T>, x: T, le: (T, T) -> bool)
    ensures EquivalentTo([y] + t, x, le) == (if Equivalent(y, x, le) then [y] else []) + EquivalentTo(t, x, le)
  {
    assert ([y] + t)[1..] == t;
  }

  /** An element ranked strictly above `a` is not ranked equally with anything `a` ranks with. */
  lemma NotEquivalentAbove<T(!new)>(a: T, y: T, x: T, le: (T, T) -> bool)
    requires TotalPreorder(le) && !le(a, y) && Equivalent(a, x, le)
    ensures !Equivalent(y, x, le)
  {
  }

  /** An inserted element comes before every element ranked equally with it. */
  lemma {:induction false} InsertEquivalent<T(!new)>(a: T, s: seq<T>, x: T, le: (T, T) -> bool)
    requires TotalPreorder(le)
    ensures EquivalentTo(Insert(a, s, le), x, le) ==
      (if Equivalent(a, x, le) then [a] else []) + EquivalentTo(s, x, le)
  {
    if s == [] {
      EquivalentToCons(a, [], x, le);
      assert [a] + [] == [a];
    } else if le(a, s[0]) {
      EquivalentToCons(a, s, x, le);
    } else {
      InsertEquivalent(a, s[1..], x, le);
      if Equivalent(a, x, le) {
        NotEquivalentAbove(a, s[0], x, le);
      }
      InsertPastHead(a, s, Insert(a, s[1..], le), x, le);
      assert Insert(a, s, le) == [s[0]] + Insert(a, s[1..], le);
    }
  }

  /** The step of `InsertEquivalent` where `a` moves past the head of `s`: `t` is the
      insertion into the tail. */
  lemma InsertPastHead<T>(a: T, s: seq<T>, t: seq<T>, x: T, le: (T, T) -> bool)
    requires s != []
    requires Equivalent(a, x, le) ==> !Equivalent(s[0], x, le)
    requires EquivalentTo(t, x, le) == (if Equivalent(a, x, le) then [a] else []) + EquivalentTo(s[1..], x, le)
    ensures EquivalentTo([s[0]] + t, x, le) == (if Equivalent(a, x, le) then [a] else []) + EquivalentTo(s, x, le)
  {
    EquivalentToCons(s[0], t, x, le);
    assert s == [s[0]] + s[1..];
    EquivalentToCons(s[0], s[1..], x, le);
    var rest := EquivalentTo(s[1..], x, le);
    if Equivalent(a, x, le) {
      assert EquivalentTo(s, x, le) == [] + rest == rest;
    } else {
      assert EquivalentTo(t, x, le) == [] + rest == rest;
    }
  }

  /** Stability: elements ranked equally keep the order they had in the input. */
  lemma {:induction false} SortStable<T(!new)>(s: seq<T>, x: T, le: (T, T) -> bool)
    requires TotalPreorder(le)
    ensures EquivalentTo(Sort(s, le), x, le) == EquivalentTo(s, x, le)
  {
    if s != [] {
      SortStable(s[1..], x, le);
      InsertEquivalent(s[0], Sort(s[1..], le), x, le);
    }
  }
}
