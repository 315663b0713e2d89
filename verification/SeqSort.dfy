/** Stable sorting by a key, as Rust's `sort_by_key` promises it, with filters and maps. */
module SeqSort {

  function Last<T>(s: seq<T>): T
    requires s != []
  {
    s[|s| - 1]
  }

  function Init<T>(s: seq<T>): seq<T>
    requires s != []
  {
    s[..|s| - 1]
  }

  /** Puts `x` behind every element whose key is not larger. */
  function Insert<T>(key: T -> int, s: seq<T>, x: T): seq<T> {
    if s == [] || key(Last(s)) <= key(x) then s + [x] else Insert(key, Init(s), x) + [Last(s)]
  }

  function Sort<T>(key: T -> int, s: seq<T>): seq<T> {
    if s == [] then [] else Insert(key, Sort(key, Init(s)), Last(s))
  }

  ghost predicate Sorted<T>(key: T -> int, s: seq<T>) {
    forall i, j :: 0 <= i < j < |s| ==> key(s[i]) <= key(s[j])
  }

  function Filter<T>(p: T -> bool, s: seq<T>): (r: seq<T>)
    ensures forall x :: x in r ==> x in s && p(x)
    ensures forall x :: x in s && p(x) ==> x in r
  {
    if s == [] then []
    else
      assert s == Init(s) + [Last(s)];
      if p(Last(s)) then Filter(p, Init(s)) + [Last(s)] else Filter(p, Init(s))
  }

  function Map<S, T>(f: S -> T, s: seq<S>): (r: seq<T>)
    ensures |r| == |s| && forall i :: 0 <= i < |s| ==> r[i] == f(s[i])
  {
    seq(|s|, i requires 0 <= i < |s| => f(s[i]))
  }

  function Flatten<T>(ss: seq<seq<T>>): seq<T> {
    if ss == [] then [] else Flatten(Init(ss)) + Last(ss)
  }

  ghost function Count<T>(s: seq<T>, x: T): nat {
    multiset(s)[x]
  }

  lemma {:induction false} InsertAdds<T>(key: T -> int, s: seq<T>, x: T)
    ensures multiset(Insert(key, s, x)) == multiset(s) + multiset{x}
  {
    if s != [] && key(Last(s)) > key(x) {
      InsertAdds(key, Init(s), x);
      assert s == Init(s) + [Last(s)];
      assert multiset(s) == multiset(Init(s)) + multiset{Last(s)};
    }
  }

  lemma SortedSnoc<T(!new)>(key: T -> int, s: seq<T>, x: T)
    requires Sorted(key, s) && forall i :: 0 <= i < |s| ==> key(s[i]) <= key(x)
    ensures Sorted(key, s + [x])
  {
  }

  lemma {:induction false} InsertSorts<T(!new)>(key: T -> int, s: seq<T>, x: T)
    requires Sorted(key, s)
    ensures Sorted(key, Insert(key, s, x))
  {
    if s == [] || key(Last(s)) <= key(x) {
      SortedSnoc(key, s, x);
    } else {
      InsertSorts(key, Init(s), x);
      InsertAdds(key, Init(s), x);
      var r := Insert(key, Init(s), x);
      forall i | 0 <= i < |r|
        ensures key(r[i]) <= key(Last(s))
      {
        assert r[i] in multiset(r);
        assert r[i] == x || r[i] in Init(s);
      }
      SortedSnoc(key, r, Last(s));
    }
  }

  /** The result is sorted and holds the same elements as often. */
  lemma {:induction false} SortSorts<T(!new)>(key: T -> int, s: seq<T>)
    ensures multiset(Sort(key, s)) == multiset(s)
    ensures Sorted(key, Sort(key, s))
  {
    if s != [] {
      SortSorts(key, Init(s));
      InsertAdds(key, Sort(key, Init(s)), Last(s));
      InsertSorts(key, Sort(key, Init(s)), Last(s));
      assert s == Init(s) + [Last(s)];
    }
  }

  lemma {:induction false} SortMembers<T(!new)>(key: T -> int, s: seq<T>)
    ensures |Sort(key, s)| == |s|
    ensures forall x :: x in Sort(key, s) <==> x in s
  {
    SortSorts(key, s);
    assert |multiset(Sort(key, s))| == |Sort(key, s)|;
    assert forall x :: x in Sort(key, s) <==> x in multiset(Sort(key, s));
    assert forall x :: x in s <==> x in multiset(s);
  }

  lemma {:induction false} SortOfSorted<T(!new)>(key: T -> int, s: seq<T>)
    requires Sorted(key, s)
    ensures Sort(key, s) == s
  {
    if s != [] {
      SortOfSorted(key, Init(s));
      assert s == Init(s) + [Last(s)];
      if |s| > 1 {
        assert Last(Init(s)) == s[|s| - 2];
      }
    }
  }

  lemma {:induction false} FilterInsert<T(!new)>(p: T -> bool, key: T -> int, s: seq<T>, x: T)
    requires Sorted(key, s)
    ensures Filter(p, Insert(key, s, x)) ==
            if p(x) then Insert(key, Filter(p, s), x) else Filter(p, s)
  {
    if s == [] || key(Last(s)) <= key(x) {
      assert Init(s + [x]) == s;
      var kept := Filter(p, s);
      if kept != [] {
        assert Last(kept) in s;
        assert key(Last(kept)) <= key(Last(s));
      }
    } else {
      FilterInsert(p, key, Init(s), x);
      assert Init(Insert(key, s, x)) == Insert(key, Init(s), x);
      if p(Last(s)) {
        assert Init(Filter(p, s)) == Filter(p, Init(s));
      }
    }
  }

  /** Stability: sorting commutes with picking out a part. */
  lemma {:induction false} FilterSort<T(!new)>(p: T -> bool, key: T -> int, s: seq<T>)
    ensures Filter(p, Sort(key, s)) == Sort(key, Filter(p, s))
  {
    if s != [] {
      FilterSort(p, key, Init(s));
      SortSorts(key, Init(s));
      FilterInsert(p, key, Sort(key, Init(s)), Last(s));
      if p(Last(s)) {
        assert Init(Filter(p, s)) == Filter(p, Init(s));
      }
    }
  }

  lemma {:induction false} MapInsert<S(!new), T(!new)>(f: S -> T, key: T -> int, keyS: S -> int, s: seq<S>, x: S)
    requires keyS(x) == key(f(x)) && forall y :: y in s ==> keyS(y) == key(f(y))
    ensures Map(f, Insert(keyS, s, x)) == Insert(key, Map(f, s), f(x))
  {
    if s != [] {
      assert Last(s) in s && Last(Map(f, s)) == f(Last(s));
      if keyS(Last(s)) > keyS(x) {
        MapInsert(f, key, keyS, Init(s), x);
        assert Init(Map(f, s)) == Map(f, Init(s));
      }
    }
  }

  /** Sorting commutes with a map that carries the key over. */
  lemma {:induction false} MapSort<S(!new), T(!new)>(f: S -> T, key: T -> int, keyS: S -> int, s: seq<S>)
    requires forall y :: y in s ==> keyS(y) == key(f(y))
    ensures Map(f, Sort(keyS, s)) == Sort(key, Map(f, s))
  {
    if s != [] {
      assert s == Init(s) + [Last(s)];
      MapSort(f, key, keyS, Init(s));
      SortMembers(keyS, Init(s));
      MapInsert(f, key, keyS, Sort(keyS, Init(s)), Last(s));
      assert Init(Map(f, s)) == Map(f, Init(s));
    }
  }

  lemma {:induction false} SortAppend<T(!new)>(key: T -> int, a: seq<T>, b: seq<T>)
    requires forall x, y :: x in a && y in b ==> key(x) <= key(y)
    ensures Sort(key, a + b) == Sort(key, a) + Sort(key, b)
  {
    if b == [] {
      assert a + b == a;
    } else {
      assert Init(a + b) == a + Init(b) && Last(a + b) == Last(b);
      SortAppend(key, a, Init(b));
      SortMembers(key, a);
      assert Last(b) in b;
      forall y | y in Sort(key, a)
        ensures key(y) <= key(Last(b))
      {
        assert y in a;
      }
      InsertAppend(key, Sort(key, a), Sort(key, Init(b)), Last(b));
    }
  }

  lemma {:induction false} InsertAppend<T(!new)>(key: T -> int, a: seq<T>, s: seq<T>, x: T)
    requires forall y :: y in a ==> key(y) <= key(x)
    ensures Insert(key, a + s, x) == a + Insert(key, s, x)
  {
    if s == [] {
      assert a + s == a;
      if a != [] {
        assert Last(a) in a;
      }
    } else if key(Last(s)) > key(x) {
      assert Init(a + s) == a + Init(s) && Last(a + s) == Last(s);
      InsertAppend(key, a, Init(s), x);
    } else {
      assert Last(a + s) == Last(s);
    }
  }

  /** Equal keys mean equal elements. */
  ghost predicate KeyIdentifies<T>(key: T -> int, s: seq<T>) {
    forall x, y :: x in s && y in s && key(x) == key(y) ==> x == y
  }

  lemma LastIsLargest<T(!new)>(key: T -> int, s: seq<T>, x: T)
    requires Sorted(key, s) && x in s
    ensures key(x) <= key(Last(s))
  {
  }

  lemma InitMultiset<T(!new)>(s: seq<T>)
    requires s != []
    ensures multiset(Init(s)) == multiset(s) - multiset{Last(s)}
  {
    assert s == Init(s) + [Last(s)];
  }

  lemma SameMembers<T(!new)>(a: seq<T>, b: seq<T>, x: T)
    requires multiset(a) == multiset(b)
    ensures |a| == |b| && (x in a <==> x in b)
  {
    assert |multiset(a)| == |a| && |multiset(b)| == |b|;
    assert x in a <==> x in multiset(a);
    assert x in b <==> x in multiset(b);
  }

  lemma LastsAgree<T(!new)>(key: T -> int, a: seq<T>, b: seq<T>)
    requires a != [] && b != []
    requires Sorted(key, a) && Sorted(key, b) && multiset(a) == multiset(b) && KeyIdentifies(key, a)
    ensures Last(a) == Last(b)
    ensures multiset(Init(a)) == multiset(Init(b))
  {
    SameMembers(a, b, Last(a));
    SameMembers(a, b, Last(b));
    LastIsLargest(key, a, Last(b));
    LastIsLargest(key, b, Last(a));
    InitMultiset(a);
    InitMultiset(b);
  }

  lemma InitSorted<T(!new)>(key: T -> int, s: seq<T>)
    requires s != [] && Sorted(key, s)
    ensures Sorted(key, Init(s)) && Init(s) + [Last(s)] == s
    ensures KeyIdentifies(key, s) ==> KeyIdentifies(key, Init(s))
  {
    assert forall x :: x in Init(s) ==> x in s;
  }

  /** Two sorted arrangements of the same elements agree when keys identify elements. */
  lemma SortedUnique<T(!new)>(key: T -> int, a: seq<T>, b: seq<T>)
    requires Sorted(key, a) && Sorted(key, b) && multiset(a) == multiset(b)
    requires KeyIdentifies(key, a)
    ensures a == b
  {
    assert |multiset(a)| == |a| && |multiset(b)| == |b|;
    if a != [] {
      LastsAgree(key, a, b);
      InitSorted(key, a);
      InitSorted(key, b);
      SortedUnique(key, Init(a), Init(b));
    }
  }

  lemma {:induction false} SortUnique<T(!new)>(key: T -> int, a: seq<T>, b: seq<T>)
    requires multiset(a) == multiset(b) && KeyIdentifies(key, a)
    ensures Sort(key, a) == Sort(key, b)
  {
    SortSorts(key, a);
    SortSorts(key, b);
    SortMembers(key, a);
    assert KeyIdentifies(key, Sort(key, a));
    SortedUnique(key, Sort(key, a), Sort(key, b));
  }

  lemma {:induction false} FilterMultiset<T(!new)>(p: T -> bool, s: seq<T>, x: T)
    ensures Count(Filter(p, s), x) == if p(x) then Count(s, x) else 0
  {
    if s != [] {
      FilterMultiset(p, Init(s), x);
      assert s == Init(s) + [Last(s)];
    }
  }

  lemma {:induction false} FilterConcat<T(!new)>(p: T -> bool, a: seq<T>, b: seq<T>)
    ensures Filter(p, a + b) == Filter(p, a) + Filter(p, b)
  {
    if b == [] {
      assert a + b == a;
    } else {
      assert Init(a + b) == a + Init(b) && Last(a + b) == Last(b);
      FilterConcat(p, a, Init(b));
    }
  }

  lemma {:induction false} FilterAll<T(!new)>(p: T -> bool, s: seq<T>)
    requires forall x :: x in s ==> p(x)
    ensures Filter(p, s) == s
  {
    if s != [] {
      assert s == Init(s) + [Last(s)];
      FilterAll(p, Init(s));
    }
  }

  lemma {:induction false} FilterNone<T(!new)>(p: T -> bool, s: seq<T>)
    requires forall x :: x in s ==> !p(x)
    ensures Filter(p, s) == []
  {
    if s != [] {
      assert s == Init(s) + [Last(s)];
      FilterNone(p, Init(s));
    }
  }

  lemma {:induction false} FlattenMembers<T(!new)>(ss: seq<seq<T>>, x: T)
    ensures x in Flatten(ss) <==> exists i :: 0 <= i < |ss| && x in ss[i]
  {
    if ss != [] {
      FlattenMembers(Init(ss), x);
      assert forall i :: 0 <= i < |ss| - 1 ==> Init(ss)[i] == ss[i];
    }
  }

  lemma {:induction false} FilterAgrees<T(!new)>(p: T -> bool, q: T -> bool, s: seq<T>)
    requires forall x :: x in s ==> p(x) == q(x)
    ensures Filter(p, s) == Filter(q, s)
  {
    if s != [] {
      assert s == Init(s) + [Last(s)];
      FilterAgrees(p, q, Init(s));
    }
  }

  lemma {:induction false} SortAgrees<T(!new)>(k: T -> int, l: T -> int, s: seq<T>)
    requires forall x :: x in s ==> k(x) == l(x)
    ensures Sort(k, s) == Sort(l, s)
  {
    var id := (x: T) => x;
    MapSort(id, l, k, s);
    assert Map(id, s) == s && Map(id, Sort(k, s)) == Sort(k, s);
  }

  ghost predicate Strict<T>(key: T -> int, s: seq<T>) {
    forall i, j :: 0 <= i < j < |s| ==> key(s[i]) < key(s[j])
  }

  lemma StrictEnd<T(!new)>(key: T -> int, s: seq<T>, x: T)
    requires s != [] && Strict(key, s)
    ensures Strict(key, Init(s)) && s == Init(s) + [Last(s)]
    ensures x in s ==> x == Last(s) || key(x) < key(Last(s))
    ensures x in Init(s) <==> x in s && x != Last(s)
  {
    assert s == Init(s) + [Last(s)];
  }

  /** Strictly increasing keys leave one arrangement of a set of elements. */
  lemma StrictUnique<T(!new)>(key: T -> int, a: seq<T>, b: seq<T>)
    requires Strict(key, a) && Strict(key, b)
    requires forall x :: x in a <==> x in b
    ensures a == b
  {
    if a == [] {
      assert forall i :: 0 <= i < |b| ==> b[i] in a;
    } else {
      assert Last(a) in b;
      assert Last(b) in a;
      StrictEnd(key, a, Last(b));
      StrictEnd(key, b, Last(a));
      forall x
        ensures x in Init(a) <==> x in Init(b)
      {
        StrictEnd(key, a, x);
        StrictEnd(key, b, x);
      }
      StrictUnique(key, Init(a), Init(b));
    }
  }

  lemma CountTwo<T(!new)>(s: seq<T>, x: T)
    ensures Count(s, x) >= 2 <==> exists i, j :: 0 <= i < j < |s| && s[i] == x && s[j] == x
  {
    if s != [] {
      CountTwo(Init(s), x);
      assert s == Init(s) + [Last(s)];
      assert forall i :: 0 <= i < |s| - 1 ==> Init(s)[i] == s[i];
      if Last(s) == x {
        assert Count(s, x) == Count(Init(s), x) + 1;
        if Count(Init(s), x) >= 1 {
          assert x in Init(s);
          var i :| 0 <= i < |s| - 1 && Init(s)[i] == x;
          assert s[i] == x && s[|s| - 1] == x;
        }
        if i, j :| 0 <= i < j < |s| && s[i] == x && s[j] == x {
          assert Init(s)[i] == x;
          assert x in multiset(Init(s));
        }
      }
    }
  }

  // ----- Stability -----

  ghost predicate Increasing(s: seq<nat>) {
    forall i, j :: 0 <= i < j < |s| ==> s[i] < s[j]
  }

  /** By key, then by value. */
  ghost predicate ByKeyThenValue(key: nat -> int, s: seq<nat>) {
    forall i, j :: 0 <= i < j < |s| ==> key(s[i]) < key(s[j]) || (key(s[i]) == key(s[j]) && s[i] < s[j])
  }

  lemma {:induction false} InsertIsStable(key: nat -> int, s: seq<nat>, x: nat)
    requires ByKeyThenValue(key, s) && forall y :: y in s ==> y < x
    ensures ByKeyThenValue(key, Insert(key, s, x))
  {
    if s == [] || key(Last(s)) <= key(x) {
      forall i | 0 <= i < |s|
        ensures key(s[i]) <= key(x) && s[i] < x
      {
        assert s[i] in s && key(s[i]) <= key(Last(s));
      }
    } else {
      assert forall y :: y in Init(s) ==> y in s;
      InsertIsStable(key, Init(s), x);
      InsertedBefore(key, s, x, Insert(key, Init(s), x));
    }
  }

  lemma {:induction false} InsertedBefore(key: nat -> int, s: seq<nat>, x: nat, r: seq<nat>)
    requires s != [] && ByKeyThenValue(key, s) && key(x) < key(Last(s)) && r == Insert(key, Init(s), x)
    ensures forall i :: 0 <= i < |r| ==>
              key(r[i]) < key(Last(s)) || (key(r[i]) == key(Last(s)) && r[i] < Last(s))
  {
    InsertAdds(key, Init(s), x);
    forall i | 0 <= i < |r|
      ensures key(r[i]) < key(Last(s)) || (key(r[i]) == key(Last(s)) && r[i] < Last(s))
    {
      assert r[i] in multiset(r);
      assert r[i] == x || r[i] in Init(s);
    }
  }

  /** Sorting by key keeps elements of equal key in their order. */
  lemma {:induction false} SortIsStable(key: nat -> int, s: seq<nat>)
    requires Increasing(s)
    ensures ByKeyThenValue(key, Sort(key, s))
  {
    if s != [] {
      SortIsStable(key, Init(s));
      SortMembers(key, Init(s));
      InsertIsStable(key, Sort(key, Init(s)), Last(s));
    }
  }

  // ----- Additive measures -----

  ghost predicate Additive<T(!new)>(m: seq<T> -> nat) {
    forall a, b :: m(a + b) == m(a) + m(b)
  }

  lemma {:induction false} InsertKeepsMeasure<T(!new)>(key: T -> int, m: seq<T> -> nat, s: seq<T>, x: T)
    requires Additive(m)
    ensures m(Insert(key, s, x)) == m(s) + m([x])
  {
    if s != [] && key(Last(s)) > key(x) {
      InsertKeepsMeasure(key, m, Init(s), x);
      assert s == Init(s) + [Last(s)];
    }
  }

  /** What adds up over parts is the same before and after sorting. */
  lemma {:induction false} SortKeepsMeasure<T(!new)>(key: T -> int, m: seq<T> -> nat, s: seq<T>)
    requires Additive(m)
    ensures m(Sort(key, s)) == m(s)
  {
    if s != [] {
      SortKeepsMeasure(key, m, Init(s));
      InsertKeepsMeasure(key, m, Sort(key, Init(s)), Last(s));
      assert s == Init(s) + [Last(s)];
    }
  }

  lemma MapMembers<S(!new), T(!new)>(f: S -> T, s: seq<S>, y: T)
    ensures y in Map(f, s) <==> exists x :: x in s && f(x) == y
  {
    if y in Map(f, s) {
      var i :| 0 <= i < |s| && Map(f, s)[i] == y;
      assert s[i] in s && f(s[i]) == y;
    }
    if x :| x in s && f(x) == y {
      var i :| 0 <= i < |s| && s[i] == x;
      assert Map(f, s)[i] == y;
    }
  }
}
