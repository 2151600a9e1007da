/**
 * Python's `list.sort` / `sorted` with a key: a STABLE sort. It is modelled
 * by a stable insertion sort over a relation `before(a, b)`, "a may come
 * before b", which for a key sort is `key(a) <= key(b)` (or `>=` with
 * `reverse=True`, which Python also keeps stable).
 */
module Sorting {

  /** `before` orders every pair and is transitive. */
  ghost predicate TotalPreorder<T(!new)>(before: (T, T) -> bool) {
    (forall a, b :: before(a, b) || before(b, a)) &&
    (forall a, b, c :: before(a, b) && before(b, c) ==> before(a, c))
  }

  ghost predicate SortedBy<T>(s: seq<T>, before: (T, T) -> bool) {
    forall i, j :: 0 <= i < j < |s| ==> before(s[i], s[j])
  }

  /** `a` and `b` have equal keys. */
  predicate Tied<T>(a: T, b: T, before: (T, T) -> bool) {
    before(a, b) && before(b, a)
  }

  /** The elements of `s` tied with `x`, in their order in `s`. */
  function TieClass<T>(s: seq<T>, x: T, before: (T, T) -> bool): seq<T> {
    if s == [] then []
    else (if Tied(x, s[0], before) then [s[0]] else []) + TieClass(s[1..], x, before)
  }

  /** `x` placed after every element of the sorted `s` that may precede it. */
  function Insert<T>(x: T, s: seq<T>, before: (T, T) -> bool): (r: seq<T>)
    ensures multiset(r) == multiset(s) + multiset{x}
  {
    if s == [] then [x]
    else if before(s[0], x) then
      assert s == [s[0]] + s[1..];
      [s[0]] + Insert(x, s[1..], before)
    else [x] + s
  }

  /** The stable sort of `s`: a permutation of `s`. */
  function SortBy<T>(s: seq<T>, before: (T, T) -> bool): (r: seq<T>)
    ensures multiset(r) == multiset(s)
    decreases |s|
  {
    if s == [] then []
    else
      assert s == s[..|s| - 1] + [s[|s| - 1]];
      Insert(s[|s| - 1], SortBy(s[..|s| - 1], before), before)
  }

  /** Sorting `s` with `x` appended inserts `x` into the sorted `s`. */
  lemma {:induction false} SortSnoc<T>(s: seq<T>, x: T, before: (T, T) -> bool)
    ensures SortBy(s + [x], before) == Insert(x, SortBy(s, before), before)
  {
    assert (s + [x])[..|s|] == s;
  }

  /** Sorting `[a, b, c]` where `b` goes before `a` and `c` falls between them. */
  lemma {:induction false} SortThree<T>(a: T, b: T, c: T, before: (T, T) -> bool)
    requires !before(a, b) && before(b, c) && !before(a, c)
    ensures SortBy([a, b, c], before) == [b, c, a]
  {
    SortTwo(a, b, before);
    SortSnoc([a, b], c, before);
    assert [a, b] + [c] == [a, b, c];
    InsertPastHead(c, b, [a], before);
    assert [b] + [a] == [b, a] && [b, c] + [a] == [b, c, a];
  }

  /** Sorting `[a, b]` where `b` goes before `a`. */
  lemma {:induction false} SortTwo<T>(a: T, b: T, before: (T, T) -> bool)
    requires !before(a, b)
    ensures SortBy([a, b], before) == [b, a]
  {
    SortSnoc([], a, before);
    assert [] + [a] == [a];
    SortSnoc([a], b, before);
    assert [a] + [b] == [a, b];
    assert Insert(b, [a], before) == [b, a];
  }

  lemma {:induction false} InsertPastHead<T>(x: T, h: T, t: seq<T>, before: (T, T) -> bool)
    requires before(h, x) && t != [] && !before(t[0], x)
    ensures Insert(x, [h] + t, before) == [h, x] + t
  {
    assert ([h] + t)[1..] == t;
  }

  lemma {:induction false} InsertSorted<T(!new)>(x: T, s: seq<T>, before: (T, T) -> bool)
    requires TotalPreorder(before)
    requires SortedBy(s, before)
    ensures SortedBy(Insert(x, s, before), before)
  {
    if s != [] {
      if before(s[0], x) {
        InsertSorted(x, s[1..], before);
        var rest := Insert(x, s[1..], before);
        forall j | 0 <= j < |rest|
          ensures before(s[0], rest[j])
        {
          assert rest[j] in multiset(rest);
          assert rest[j] == x || rest[j] in s[1..];
        }
      }
    }
  }

  /** The sort's output is ordered by `before`. */
  lemma {:induction false} SortBySorted<T(!new)>(s: seq<T>, before: (T, T) -> bool)
    requires TotalPreorder(before)
    ensures SortedBy(SortBy(s, before), before)
    decreases |s|
  {
    if s != [] {
      SortBySorted(s[..|s| - 1], before);
      InsertSorted(s[|s| - 1], SortBy(s[..|s| - 1], before), before);
    }
  }

  lemma {:induction false} InsertAfterAll<T>(x: T, s: seq<T>, before: (T, T) -> bool)
    requires forall i :: 0 <= i < |s| ==> before(s[i], x)
    ensures Insert(x, s, before) == s + [x]
  {
    if s != [] {
      InsertAfterAll(x, s[1..], before);
    }
  }

  /** Sorting a sequence that is already in order leaves it as it is. */
  lemma {:induction false} SortByOfSorted<T>(s: seq<T>, before: (T, T) -> bool)
    requires SortedBy(s, before)
    ensures SortBy(s, before) == s
    decreases |s|
  {
    if s != [] {
      var init := s[..|s| - 1];
      SortByOfSorted(init, before);
      InsertAfterAll(s[|s| - 1], init, before);
    }
  }

  lemma {:induction false} TieClassAppend<T>(a: seq<T>, b: seq<T>, x: T, before: (T, T) -> bool)
    ensures TieClass(a + b, x, before) == TieClass(a, x, before) + TieClass(b, x, before)
  {
    if a == [] {
      assert a + b == b;
    } else {
      var h, t := a[0], a[1..];
      assert a == [h] + t;
      assert a + b == [h] + (t + b);
      TieClassCons(h, t + b, x, before);
      TieClassCons(h, t, x, before);
      TieClassAppend(t, b, x, before);
    }
  }

  lemma {:induction false} NoneTied<T(!new)>(s: seq<T>, x: T, y: T, before: (T, T) -> bool)
    requires TotalPreorder(before)
    requires Tied(x, y, before)
    requires forall i :: 0 <= i < |s| ==> !before(s[i], y)
    ensures TieClass(s, x, before) == []
  {
    if s != [] {
      NoneTied(s[1..], x, y, before);
    }
  }

  /** Nothing in a sorted sequence whose head may not precede `y` may precede `y`. */
  lemma {:induction false} NoneBefore<T(!new)>(s: seq<T>, y: T, before: (T, T) -> bool)
    requires TotalPreorder(before)
    requires SortedBy(s, before)
    requires s != [] && !before(s[0], y)
    ensures forall i :: 0 <= i < |s| ==> !before(s[i], y)
  {
    forall i | 0 < i < |s|
      ensures !before(s[i], y)
    {
      assert before(s[0], s[i]);
    }
  }

  lemma {:induction false} InsertTieClass<T(!new)>(y: T, s: seq<T>, x: T, before: (T, T) -> bool)
    requires TotalPreorder(before)
    requires SortedBy(s, before)
    ensures TieClass(Insert(y, s, before), x, before)
            == TieClass(s, x, before) + (if Tied(x, y, before) then [y] else [])
  {
    if s == [] {
    } else if before(s[0], y) {
      SortedTail(s, before);
      InsertTieClass(y, s[1..], x, before);
      InsertPastHeadTieClass(y, s, x, before);
    } else {
      if Tied(x, y, before) {
        NoneBefore(s, y, before);
        NoneTied(s, x, y, before);
      }
      InsertFirstTieClass(y, s, x, before);
    }
  }

  lemma {:induction false} SortedTail<T>(s: seq<T>, before: (T, T) -> bool)
    requires s != [] && SortedBy(s, before)
    ensures SortedBy(s[1..], before)
  {
    forall i, j | 0 <= i < j < |s| - 1
      ensures before(s[1..][i], s[1..][j])
    {
      assert s[1..][i] == s[i + 1] && s[1..][j] == s[j + 1];
    }
  }

  lemma {:induction false} TieClassCons<T>(h: T, rest: seq<T>, x: T, before: (T, T) -> bool)
    ensures TieClass([h] + rest, x, before) == (if Tied(x, h, before) then [h] else []) + TieClass(rest, x, before)
  {
    assert ([h] + rest)[0] == h && ([h] + rest)[1..] == rest;
  }

  /** Putting the same head in front of two sequences keeps an equation between their tie classes. */
  lemma {:induction false} SameHeadTieClass<T>(h: T, s: seq<T>, r: seq<T>, extra: seq<T>, x: T, before: (T, T) -> bool)
    requires TieClass(r, x, before) == TieClass(s, x, before) + extra
    ensures TieClass([h] + r, x, before) == TieClass([h] + s, x, before) + extra
  {
    TieClassCons(h, r, x, before);
    TieClassCons(h, s, x, before);
    var tr, ts := TieClass(r, x, before), TieClass(s, x, before);
    if Tied(x, h, before) {
      assert [h] + tr == ([h] + ts) + extra;
    } else {
      assert [] + tr == tr && [] + ts == ts;
    }
  }

  /** `y` inserted past the head of `s`. */
  lemma {:induction false} InsertPastHeadTieClass<T>(y: T, s: seq<T>, x: T, before: (T, T) -> bool)
    requires s != [] && before(s[0], y)
    requires TieClass(Insert(y, s[1..], before), x, before)
             == TieClass(s[1..], x, before) + (if Tied(x, y, before) then [y] else [])
    ensures TieClass(Insert(y, s, before), x, before)
            == TieClass(s, x, before) + (if Tied(x, y, before) then [y] else [])
  {
    assert Insert(y, s, before) == [s[0]] + Insert(y, s[1..], before);
    assert s == [s[0]] + s[1..];
    SameHeadTieClass(s[0], s[1..], Insert(y, s[1..], before), if Tied(x, y, before) then [y] else [], x, before);
  }

  /** `y` inserted in front of `s`, none of whose elements is tied with it. */
  lemma {:induction false} InsertFirstTieClass<T>(y: T, s: seq<T>, x: T, before: (T, T) -> bool)
    requires s != [] && !before(s[0], y)
    requires Tied(x, y, before) ==> TieClass(s, x, before) == []
    ensures TieClass(Insert(y, s, before), x, before)
            == TieClass(s, x, before) + (if Tied(x, y, before) then [y] else [])
  {
    assert Insert(y, s, before) == [y] + s;
    assert ([y] + s)[1..] == s;
  }

  /** Stability: the elements with any one key appear in the output in their input order. */
  lemma {:induction false} SortByStable<T(!new)>(s: seq<T>, x: T, before: (T, T) -> bool)
    requires TotalPreorder(before)
    ensures TieClass(SortBy(s, before), x, before) == TieClass(s, x, before)
    decreases |s|
  {
    if s != [] {
      var init, last := s[..|s| - 1], s[|s| - 1];
      SortByStable(init, x, before);
      SortBySorted(init, before);
      InsertTieClass(last, SortBy(init, before), x, before);
      TieClassSnoc(s, x, before);
    }
  }

  lemma {:induction false} TieClassSnoc<T>(s: seq<T>, x: T, before: (T, T) -> bool)
    requires s != []
    ensures TieClass(s, x, before)
            == TieClass(s[..|s| - 1], x, before) + (if Tied(x, s[|s| - 1], before) then [s[|s| - 1]] else [])
  {
    var init, last := s[..|s| - 1], s[|s| - 1];
    assert s == init + [last];
    TieClassAppend(init, [last], x, before);
    assert [last][1..] == [];
  }
}
