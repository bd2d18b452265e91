// SuperVector: std::vector with a few extra sequence operations.
// The vector is a class whose `items` field the mutating operations reassign.

module SuperVectors {

  /** `s` with every occurrence of `x` removed, the rest in their original order. */
  function Without<T(==)>(s: seq<T>, x: T): seq<T>
  {
    if s == [] then []
    else if s[|s| - 1] == x then Without(s[..|s| - 1], x)
    else Without(s[..|s| - 1], x) + [s[|s| - 1]]
  }

  /** Left fold of `+` over `s`, starting from 0. */
  function SeqSum(s: seq<int>): int
  {
    if s == [] then 0 else SeqSum(s[..|s| - 1]) + s[|s| - 1]
  }

  predicate Sorted(s: seq<int>)
  {
    forall i, j :: 0 <= i < j < |s| ==> s[i] <= s[j]
  }

  /** What `del` keeps: exactly the elements different from `x`, with their multiplicities. */
  lemma {:induction false} WithoutMultiset<T>(s: seq<T>, x: T)
    ensures multiset(Without(s, x)) == multiset(s)[x := 0]
  {
    if s != [] {
      var init := s[..|s| - 1];
      assert s == init + [s[|s| - 1]];
      WithoutMultiset(init, x);
    }
  }

  /** `del` removes every occurrence of `x` and keeps every other element. */
  lemma WithoutMembership<T>(s: seq<T>, x: T, y: T)
    ensures y in Without(s, x) <==> y in s && y != x
  {
    WithoutMultiset(s, x);
    assert y in Without(s, x) <==> multiset(Without(s, x))[y] > 0;
    assert y in s <==> multiset(s)[y] > 0;
  }

  /** `del` keeps the relative order of the survivors: it distributes over concatenation. */
  lemma {:induction false} WithoutDistributes<T>(a: seq<T>, b: seq<T>, x: T)
    ensures Without(a + b, x) == Without(a, x) + Without(b, x)
  {
    if b == [] {
      assert a + b == a;
    } else {
      var bi := b[..|b| - 1];
      assert (a + b)[..|a + b| - 1] == a + bi;
      WithoutDistributes(a, bi, x);
    }
  }

  lemma {:induction false} SeqSumAppend(a: seq<int>, b: seq<int>)
    ensures SeqSum(a + b) == SeqSum(a) + SeqSum(b)
  {
    if b != [] {
      var bi := b[..|b| - 1];
      assert (a + b)[..|a + b| - 1] == a + bi;
      SeqSumAppend(a, bi);
    } else {
      assert a + b == a;
    }
  }

  /** Inserts `x` in front of the first element of `s` that is not smaller. */
  function InsertSorted(s: seq<int>, x: int): seq<int>
  {
    if s == [] || x <= s[0] then [x] + s else [s[0]] + InsertSorted(s[1..], x)
  }

  /** Inserting adds exactly one `x` and keeps every other element. */
  lemma {:induction false} InsertSortedMultiset(s: seq<int>, x: int)
    ensures multiset(InsertSorted(s, x)) == multiset(s) + multiset{x}
  {
    if s != [] && x > s[0] {
      InsertSortedMultiset(s[1..], x);
      assert s == [s[0]] + s[1..];
    }
  }

  /** Inserting into a sorted sequence keeps it sorted. */
  lemma {:induction false} InsertSortedSorted(s: seq<int>, x: int)
    requires Sorted(s)
    ensures Sorted(InsertSorted(s, x))
  {
    if s == [] || x <= s[0] {
      forall k | 0 <= k < |s| ensures x <= s[k] {
        SortedHead(s, k);
      }
      SortedCons(x, s);
    } else {
      var rest := s[1..];
      SortedTail(s);
      InsertSortedSorted(rest, x);
      InsertSortedMultiset(rest, x);
      var t := InsertSorted(rest, x);
      forall k | 0 <= k < |t| ensures s[0] <= t[k] {
        assert t[k] in multiset(rest) + multiset{x};
        if t[k] != x {
          var j :| 0 <= j < |rest| && rest[j] == t[k];
          SortedHead(s, j + 1);
        }
      }
      SortedCons(s[0], t);
    }
  }

  lemma SortedHead(s: seq<int>, k: int)
    requires Sorted(s) && 0 <= k < |s|
    ensures s[0] <= s[k]
  {
  }

  lemma SortedTail(s: seq<int>)
    requires Sorted(s) && s != []
    ensures Sorted(s[1..])
  {
    var rest := s[1..];
    forall a, b | 0 <= a < b < |rest| ensures rest[a] <= rest[b] {
      assert rest[a] == s[a + 1] && rest[b] == s[b + 1];
    }
  }

  /** A sorted sequence stays sorted behind an element no larger than any of its own. */
  lemma SortedCons(a: int, t: seq<int>)
    requires Sorted(t) && forall k :: 0 <= k < |t| ==> a <= t[k]
    ensures Sorted([a] + t)
  {
    var u := [a] + t;
    forall i, j | 0 <= i < j < |u| ensures u[i] <= u[j] {
      if i == 0 {
        assert u[j] == t[j - 1];
      } else {
        assert u[i] == t[i - 1] && u[j] == t[j - 1];
      }
    }
  }

  class SuperVector<T(==)> {
    var items: seq<T>

    constructor (init: seq<T>)
      ensures items == init
    {
      items := init;
    }

    /** `del`: deletes every element equal to `obj`. */
    method Del(obj: T)
      modifies this
      ensures items == Without(old(items), obj)
    {
      var kept: seq<T> := [];
      var i := 0;
      while i < |items|
        invariant 0 <= i <= |items|
        invariant kept == Without(items[..i], obj)
      {
        assert items[..i + 1][..i] == items[..i];
        if items[i] != obj {
          kept := kept + [items[i]];
        }
        i := i + 1;
      }
      assert items[..i] == items;
      items := kept;
    }

    /** `operator<<`: appends one element at the back. */
    method Push(obj: T)
      modifies this
      ensures items == old(items) + [obj]
    {
      items := items + [obj];
    }

    /** `append`: concatenates `other` onto this vector. */
    method Append(other: SuperVector<T>)
      requires other != this
      modifies this
      ensures items == old(items) + other.items
    {
      items := items + other.items;
    }

    /** `operator+`: a fresh vector holding this one followed by `other`; both operands are unchanged. */
    method Plus(other: SuperVector<T>) returns (r: SuperVector<T>)
      ensures fresh(r) && r.items == items + other.items
    {
      r := new SuperVector(items);
      r.Append(other);
    }

    /** `push_front`: inserts one element at index 0. */
    method PushFront(obj: T)
      modifies this
      ensures items == [obj] + old(items)
    {
      items := [obj] + items;
    }

    /** `pop_front`: removes and returns the first element (the vector must not be empty). */
    method PopFront() returns (x: T)
      requires items != []
      modifies this
      ensures x == old(items)[0] && items == old(items)[1..]
    {
      x := items[0];
      items := items[1..];
    }

    /** `pop`: removes and returns the last element (the vector must not be empty). */
    method Pop() returns (x: T)
      requires items != []
      modifies this
      ensures x == old(items)[|old(items)| - 1] && items == old(items)[..|old(items)| - 1]
    {
      x := items[|items| - 1];
      items := items[..|items| - 1];
    }

    /** `contains`: a linear search, as std::find does. */
    method Contains(x: T) returns (found: bool)
      ensures found <==> x in items
    {
      var i := 0;
      while i < |items|
        invariant 0 <= i <= |items|
        invariant x !in items[..i]
      {
        if items[i] == x {
          return true;
        }
        assert items[..i + 1] == items[..i] + [items[i]];
        i := i + 1;
      }
      assert items[..i] == items;
      return false;
    }
  }

  /** `sum`: the accumulator loop of the source, for a vector of integers. */
  method Sum(v: SuperVector<int>) returns (res: int)
    ensures res == SeqSum(v.items)
  {
    res := 0;
    var i := 0;
    while i < |v.items|
      invariant 0 <= i <= |v.items|
      invariant res == SeqSum(v.items[..i])
    {
      assert v.items[..i + 1][..i] == v.items[..i];
      res := res + v.items[i];
      i := i + 1;
    }
    assert v.items[..i] == v.items;
  }

  /** `max`: `std::max_element` on a non-empty vector; `k` is the position of the element whose
      reference is returned, the first one that no other element exceeds. */
  method Max(v: SuperVector<int>) returns (k: nat, m: int)
    requires v.items != []
    ensures k < |v.items| && m == v.items[k]
    ensures m in v.items
    ensures forall y :: y in v.items ==> y <= m
    ensures forall j :: 0 <= j < k ==> v.items[j] < m
  {
    k, m := 0, v.items[0];
    var i := 1;
    while i < |v.items|
      invariant 1 <= i <= |v.items|
      invariant k < i && m == v.items[k]
      invariant forall j :: 0 <= j < i ==> v.items[j] <= m
      invariant forall j :: 0 <= j < k ==> v.items[j] < m
    {
      if v.items[i] > m {
        k, m := i, v.items[i];
      }
      i := i + 1;
    }
  }

  /** `sort`: rearranges the vector into ascending order. */
  method Sort(v: SuperVector<int>)
    modifies v
    ensures Sorted(v.items)
    ensures multiset(v.items) == multiset(old(v.items))
  {
    var sorted: seq<int> := [];
    var i := 0;
    while i < |v.items|
      invariant 0 <= i <= |v.items|
      invariant Sorted(sorted)
      invariant multiset(sorted) == multiset(v.items[..i])
      invariant v.items == old(v.items)
    {
      assert v.items[..i + 1] == v.items[..i] + [v.items[i]];
      InsertSortedSorted(sorted, v.items[i]);
      InsertSortedMultiset(sorted, v.items[i]);
      sorted := InsertSorted(sorted, v.items[i]);
      i := i + 1;
    }
    assert v.items[..i] == v.items;
    v.items := sorted;
  }
}
