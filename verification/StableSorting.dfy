/**
  Stable sorting by insertion after the equals: what std::multimap::insert does
  one element at a time and what Python's sorted promises for a whole list.
 */
module StableSorting {
  import opened Sequences

  ghost predicate TotalPreorder<T(!new)>(leq: (T, T) -> bool) {
    && (forall a, b :: leq(a, b) || leq(b, a))
    && (forall a, b, c :: leq(a, b) && leq(b, c) ==> leq(a, c))
  }

  ghost predicate Ordered<T>(leq: (T, T) -> bool, s: seq<T>) {
    forall i, j :: 0 <= i < j < |s| ==> leq(s[i], s[j])
  }

  predicate Equal<T>(leq: (T, T) -> bool, a: T, b: T) {
    leq(a, b) && leq(b, a)
  }

  // Just after the last element not above x.
  function Insert<T>(leq: (T, T) -> bool, x: T, s: seq<T>): (r: seq<T>)
    ensures |r| == |s| + 1
  {
    if s != [] && leq(s[0], x) then [s[0]] + Insert(leq, x, s[1..]) else [x] + s
  }

  function Sort<T>(leq: (T, T) -> bool, s: seq<T>): (r: seq<T>)
    ensures |r| == |s|
  {
    if s == [] then [] else Insert(leq, s[|s| - 1], Sort(leq, s[..|s| - 1]))
  }

  // The elements equal to x, in order.
  function Class<T>(leq: (T, T) -> bool, x: T, s: seq<T>): seq<T> {
    if s == [] then []
    else (if Equal(leq, x, s[0]) then [s[0]] else []) + Class(leq, x, s[1..])
  }

  lemma {:induction false} ClassAppend<T>(leq: (T, T) -> bool, x: T, a: seq<T>, b: seq<T>)
    ensures Class(leq, x, a + b) == Class(leq, x, a) + Class(leq, x, b)
  {
    if a == [] {
      Units(b);
      Units(Class(leq, x, b));
    } else {
      TailOfAppend(a, b);
      ClassAppend(leq, x, a[1..], b);
      Associative(if Equal(leq, x, a[0]) then [a[0]] else [], Class(leq, x, a[1..]), Class(leq, x, b));
    }
  }

  lemma ClassOne<T>(leq: (T, T) -> bool, x: T, y: T)
    ensures Class(leq, x, [y]) == if Equal(leq, x, y) then [y] else []
  {
    assert [y][1..] == [] && Class(leq, x, [y][1..]) == [];
  }

  lemma {:induction false} InsertMembers<T>(leq: (T, T) -> bool, x: T, s: seq<T>)
    ensures multiset(Insert(leq, x, s)) == multiset(s) + multiset{x}
  {
    if s != [] && leq(s[0], x) {
      InsertMembers(leq, x, s[1..]);
      assert s == [s[0]] + s[1..];
    }
  }

  lemma {:induction false} InsertOrdered<T(!new)>(leq: (T, T) -> bool, x: T, s: seq<T>)
    requires TotalPreorder(leq) && Ordered(leq, s)
    ensures Ordered(leq, Insert(leq, x, s))
  {
    if s != [] && leq(s[0], x) {
      InsertOrdered(leq, x, s[1..]);
      var t := Insert(leq, x, s[1..]);
      InsertMembers(leq, x, s[1..]);
      forall j | 0 <= j < |t| ensures leq(s[0], t[j]) {
        assert t[j] in multiset(s[1..]) + multiset{x};
        assert t[j] in s[1..] || t[j] == x;
      }
    }
  }

  // The new element goes behind its equals.
  lemma {:induction false} InsertClass<T(!new)>(leq: (T, T) -> bool, x: T, s: seq<T>, y: T)
    requires TotalPreorder(leq) && Ordered(leq, s)
    ensures Class(leq, y, Insert(leq, x, s)) == Class(leq, y, s) + if Equal(leq, y, x) then [x] else []
  {
    if s != [] && leq(s[0], x) {
      InsertClass(leq, x, s[1..], y);
      assert Insert(leq, x, s)[1..] == Insert(leq, x, s[1..]);
    } else {
      assert ([x] + s)[1..] == s;
      if Equal(leq, y, x) {
        NoneEqual(leq, y, s);
      }
    }
  }

  lemma {:induction false} NoneEqual<T(!new)>(leq: (T, T) -> bool, y: T, s: seq<T>)
    requires TotalPreorder(leq) && Ordered(leq, s) && (s != [] ==> !leq(s[0], y))
    ensures Class(leq, y, s) == []
  {
    if s != [] {
      assert |s| > 1 ==> leq(s[0], s[1]);
      NoneEqual(leq, y, s[1..]);
    }
  }

  lemma {:induction false} SortOrdered<T(!new)>(leq: (T, T) -> bool, s: seq<T>)
    requires TotalPreorder(leq)
    ensures Ordered(leq, Sort(leq, s))
  {
    if s != [] {
      SortOrdered(leq, s[..|s| - 1]);
      InsertOrdered(leq, s[|s| - 1], Sort(leq, s[..|s| - 1]));
    }
  }

  lemma {:induction false} SortMembers<T>(leq: (T, T) -> bool, s: seq<T>)
    ensures multiset(Sort(leq, s)) == multiset(s)
  {
    if s != [] {
      SortMembers(leq, s[..|s| - 1]);
      InsertMembers(leq, s[|s| - 1], Sort(leq, s[..|s| - 1]));
      PrefixStep(s, |s| - 1);
      Units(s);
    }
  }

  lemma {:induction false} SortClass<T(!new)>(leq: (T, T) -> bool, s: seq<T>, y: T)
    requires TotalPreorder(leq)
    ensures Class(leq, y, Sort(leq, s)) == Class(leq, y, s)
  {
    if s != [] {
      var x, rest := s[|s| - 1], s[..|s| - 1];
      SortClass(leq, rest, y);
      SortOrdered(leq, rest);
      InsertClass(leq, x, Sort(leq, rest), y);
      PrefixStep(s, |s| - 1);
      Units(s);
      ClassAppend(leq, y, rest, [x]);
      ClassOne(leq, y, x);
    }
  }

  // The result is ordered, a permutation, and keeps equals in their first order.
  lemma SortStable<T(!new)>(leq: (T, T) -> bool, s: seq<T>)
    requires TotalPreorder(leq)
    ensures Ordered(leq, Sort(leq, s))
    ensures multiset(Sort(leq, s)) == multiset(s)
    ensures forall y :: Class(leq, y, Sort(leq, s)) == Class(leq, y, s)
  {
    SortOrdered(leq, s);
    SortMembers(leq, s);
    forall y ensures Class(leq, y, Sort(leq, s)) == Class(leq, y, s) {
      SortClass(leq, s, y);
    }
  }

  lemma ClassNonempty<T(!new)>(leq: (T, T) -> bool, x: T, s: seq<T>)
    requires TotalPreorder(leq) && s != [] && s[0] == x
    ensures Class(leq, x, s) != []
  {
    assert leq(x, x);
  }

  lemma EmptyTogether<T(!new)>(leq: (T, T) -> bool, a: seq<T>, b: seq<T>)
    requires TotalPreorder(leq) && forall y :: Class(leq, y, a) == Class(leq, y, b)
    ensures a == [] ==> b == []
  {
    if b != [] {
      ClassNonempty(leq, b[0], b);
    }
  }

  lemma ClassTail<T>(leq: (T, T) -> bool, y: T, s: seq<T>)
    requires s != []
    ensures Class(leq, y, s[1..]) == if Equal(leq, y, s[0]) then Class(leq, y, s)[1..] else Class(leq, y, s)
  {
  }

  // Order and per-class order leave only one result.
  lemma {:induction false} StableUnique<T(!new)>(leq: (T, T) -> bool, a: seq<T>, b: seq<T>)
    requires TotalPreorder(leq) && Ordered(leq, a) && Ordered(leq, b)
    requires forall y :: Class(leq, y, a) == Class(leq, y, b)
    ensures a == b
  {
    EmptyTogether(leq, a, b);
    EmptyTogether(leq, b, a);
    if a != [] {
      SameHead(leq, a, b);
      forall y ensures Class(leq, y, a[1..]) == Class(leq, y, b[1..]) {
        assert Class(leq, y, a) == Class(leq, y, b);
        ClassTail(leq, y, a);
        ClassTail(leq, y, b);
      }
      StableUnique(leq, a[1..], b[1..]);
    }
  }

  lemma SameHead<T(!new)>(leq: (T, T) -> bool, a: seq<T>, b: seq<T>)
    requires TotalPreorder(leq) && Ordered(leq, a) && Ordered(leq, b) && a != [] && b != []
    requires forall y :: Class(leq, y, a) == Class(leq, y, b)
    ensures a[0] == b[0]
  {
    assert leq(a[0], a[0]) && leq(b[0], b[0]);
    if !leq(a[0], b[0]) {
      NoneEqual(leq, b[0], a);
    } else if !leq(b[0], a[0]) {
      NoneEqual(leq, a[0], b);
    } else {
      assert Class(leq, a[0], a)[0] == a[0] && Class(leq, a[0], b)[0] == b[0];
    }
  }

  // r holds the elements of s in order, equals as they were.
  ghost predicate StablyOrdered<T(!new)>(leq: (T, T) -> bool, s: seq<T>, r: seq<T>) {
    Ordered(leq, r) && forall y :: Class(leq, y, r) == Class(leq, y, s)
  }

  // Sorting, said without the algorithm.
  lemma SortCharacterised<T(!new)>(leq: (T, T) -> bool, s: seq<T>, r: seq<T>)
    requires TotalPreorder(leq)
    ensures r == Sort(leq, s) <==> StablyOrdered(leq, s, r)
  {
    SortStable(leq, s);
    assert StablyOrdered(leq, s, Sort(leq, s));
    if StablyOrdered(leq, s, r) {
      StableUnique(leq, r, Sort(leq, s));
    }
  }

  // ---- what stability says about two elements ----

  // x stands before y in s.
  ghost predicate Before<T>(s: seq<T>, x: T, y: T) {
    exists i, j :: 0 <= i < j < |s| && s[i] == x && s[j] == y
  }

  ghost predicate NoRepeats<T>(s: seq<T>) {
    forall i, j :: 0 <= i < j < |s| ==> s[i] != s[j]
  }

  lemma BeforeOnce<T>(s: seq<T>, x: T, y: T)
    requires NoRepeats(s) && Before(s, x, y)
    ensures !Before(s, y, x)
  {
  }

  lemma {:induction false} SingleCopies<T>(s: seq<T>, x: T)
    requires NoRepeats(s)
    ensures multiset(s)[x] <= 1
  {
    if s != [] {
      SingleCopies(s[1..], x);
      HeadTail(s);
      assert s[0] !in s[1..];
    }
  }

  lemma NoRepeatsPermuted<T>(s: seq<T>, r: seq<T>)
    requires NoRepeats(s) && multiset(r) == multiset(s)
    ensures NoRepeats(r)
  {
    forall i, j | 0 <= i < j < |r| ensures r[i] != r[j] {
      SingleCopies(s, r[i]);
      assert r == r[..j] + r[j..];
      assert r[..j][i] == r[i] && r[j..][0] == r[j];
      assert r[i] in multiset(r[..j]) && r[j] in multiset(r[j..]);
    }
  }

  lemma {:induction false} ClassHas<T>(leq: (T, T) -> bool, x: T, s: seq<T>, y: T)
    ensures y in Class(leq, x, s) <==> y in s && Equal(leq, x, y)
  {
    if s != [] {
      ClassHas(leq, x, s[1..], y);
      HeadTail(s);
    }
  }

  lemma {:induction false} ClassNoRepeats<T>(leq: (T, T) -> bool, x: T, s: seq<T>)
    requires NoRepeats(s)
    ensures NoRepeats(Class(leq, x, s))
  {
    if s != [] {
      ClassNoRepeats(leq, x, s[1..]);
      ClassHas(leq, x, s[1..], s[0]);
    }
  }

  // Equal elements stand in their class as they stand in the list.
  lemma {:induction false} ClassKeepsOrder<T>(leq: (T, T) -> bool, x: T, s: seq<T>, i: nat, j: nat)
    requires i < j < |s| && Equal(leq, x, s[i]) && Equal(leq, x, s[j])
    ensures Before(Class(leq, x, s), s[i], s[j])
  {
    var equals, rest := Class(leq, x, s), Class(leq, x, s[1..]);
    var d := |equals| - |rest|;
    if i == 0 {
      ClassHas(leq, x, s[1..], s[j]);
      assert s[1..][j - 1] == s[j];
      var k :| 0 <= k < |rest| && rest[k] == s[j];
      assert equals[0] == s[0] && equals[k + d] == s[j];
    } else {
      ClassKeepsOrder(leq, x, s[1..], i - 1, j - 1);
      var k, l :| 0 <= k < l < |rest| && rest[k] == s[i] && rest[l] == s[j];
      assert equals[k + d] == s[i] && equals[l + d] == s[j];
    }
  }

  // Equals that stood in one order in s do not stand in the other in r.
  lemma EqualsKeepOrder<T(!new)>(leq: (T, T) -> bool, s: seq<T>, r: seq<T>, i: nat, j: nat, k: nat, l: nat)
    requires TotalPreorder(leq) && NoRepeats(s) && StablyOrdered(leq, s, r)
    requires i < j < |s| && Equal(leq, s[i], s[j]) && k < |r| && l < |r| && r[k] == s[i] && r[l] == s[j]
    ensures k < l
  {
    var x := s[i];
    assert Equal(leq, x, x) && Class(leq, x, r) == Class(leq, x, s);
    ClassKeepsOrder(leq, x, s, i, j);
    ClassNoRepeats(leq, x, s);
    BeforeOnce(Class(leq, x, s), s[i], s[j]);
    if l < k { ClassKeepsOrder(leq, x, r, l, k); }
  }

  lemma PlaceIn<T>(s: seq<T>, r: seq<T>, i: nat) returns (k: nat)
    requires multiset(r) == multiset(s) && i < |s|
    ensures k < |r| && r[k] == s[i]
  {
    assert s[i] in multiset(r);
    k :| 0 <= k < |r| && r[k] == s[i];
  }

  lemma BeforePlaces<T>(r: seq<T>, k: nat, l: nat)
    requires NoRepeats(r) && k < |r| && l < |r|
    ensures Before(r, r[k], r[l]) <==> k < l
  {
    if Before(r, r[k], r[l]) {
      var i, j :| 0 <= i < j < |r| && r[i] == r[k] && r[j] == r[l];
      assert i == k && j == l;
    }
  }

  lemma OrderedPlaces<T>(leq: (T, T) -> bool, r: seq<T>, k: nat, l: nat)
    requires Ordered(leq, r) && k < l < |r|
    ensures leq(r[k], r[l])
  {
  }

  lemma PlacesDecided<T(!new)>(leq: (T, T) -> bool, s: seq<T>, r: seq<T>, i: nat, j: nat, k: nat, l: nat)
    requires TotalPreorder(leq) && NoRepeats(s) && StablyOrdered(leq, s, r)
    requires i < |s| && j < |s| && k < |r| && l < |r| && r[k] == s[i] && r[l] == s[j]
    ensures k < l ==> leq(s[i], s[j]) && (leq(s[j], s[i]) ==> i <= j)
    ensures l < k ==> leq(s[j], s[i]) && (leq(s[i], s[j]) ==> j <= i)
  {
    if k < l {
      OrderedPlaces(leq, r, k, l);
      if leq(s[j], s[i]) && j < i { EqualsKeepOrder(leq, s, r, j, i, l, k); }
    } else if l < k {
      OrderedPlaces(leq, r, l, k);
      if leq(s[i], s[j]) && i < j { EqualsKeepOrder(leq, s, r, i, j, k, l); }
    }
  }

  lemma StableBefore<T(!new)>(leq: (T, T) -> bool, s: seq<T>, r: seq<T>, i: nat, j: nat)
    requires TotalPreorder(leq) && NoRepeats(s) && NoRepeats(r) && i < |s| && j < |s|
    requires StablyOrdered(leq, s, r) && multiset(r) == multiset(s)
    ensures Before(r, s[i], s[j]) <==> leq(s[i], s[j]) && (leq(s[j], s[i]) ==> i < j)
  {
    var k := PlaceIn(s, r, i);
    var l := PlaceIn(s, r, j);
    BeforePlaces(r, k, l);
    PlacesDecided(leq, s, r, i, j, k, l);
  }

  lemma SortStably<T(!new)>(leq: (T, T) -> bool, s: seq<T>)
    requires TotalPreorder(leq)
    ensures StablyOrdered(leq, s, Sort(leq, s)) && multiset(Sort(leq, s)) == multiset(s)
  {
    SortStable(leq, s);
  }

  // Sorted, one element stands before another exactly when it is strictly below it,
  // or its equal and before it already.
  lemma SortedBefore<T(!new)>(leq: (T, T) -> bool, s: seq<T>, i: nat, j: nat)
    requires TotalPreorder(leq) && NoRepeats(s) && i < |s| && j < |s|
    ensures NoRepeats(Sort(leq, s))
    ensures Before(Sort(leq, s), s[i], s[j]) <==> leq(s[i], s[j]) && (leq(s[j], s[i]) ==> i < j)
  {
    SortStably(leq, s);
    NoRepeatsPermuted(s, Sort(leq, s));
    StableBefore(leq, s, Sort(leq, s), i, j);
  }
}
