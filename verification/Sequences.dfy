/** Equalities of sequences that the proofs use as rewrite steps. */
module Sequences {

  lemma Associative<T>(a: seq<T>, b: seq<T>, c: seq<T>)
    ensures a + b + c == a + (b + c)
  {
  }

  lemma TailOfAppend<T>(a: seq<T>, b: seq<T>)
    requires a != []
    ensures a + b != [] && (a + b)[0] == a[0] && (a + b)[1..] == a[1..] + b
  {
  }

  lemma FrontOfAppend<T>(a: seq<T>, b: seq<T>)
    requires b != []
    ensures a + b != [] && (a + b)[|a + b| - 1] == b[|b| - 1]
    ensures (a + b)[..|a + b| - 1] == a + b[..|b| - 1]
  {
  }

  lemma Snoc<T>(a: seq<T>, x: T)
    ensures a + [x] != [] && (a + [x])[|a + [x]| - 1] == x && (a + [x])[..|a + [x]| - 1] == a
  {
  }

  lemma PrefixStep<T>(s: seq<T>, i: nat)
    requires i < |s|
    ensures s[..i + 1] == s[..i] + [s[i]]
    ensures s[..i + 1] != [] && s[..i + 1][|s[..i + 1]| - 1] == s[i] && s[..i + 1][..|s[..i + 1]| - 1] == s[..i]
  {
  }

  lemma Units<T>(s: seq<T>)
    ensures [] + s == s && s + [] == s && s[..|s|] == s && s[0..] == s
  {
  }

  lemma HeadTail<T>(s: seq<T>)
    requires s != []
    ensures s == [s[0]] + s[1..]
  {
  }

  lemma ConsTail<T>(x: T, s: seq<T>)
    ensures ([x] + s)[0] == x && ([x] + s)[1..] == s
  {
  }

  // The first n parts, one after the other.
  function Joined<T>(parts: seq<seq<T>>, n: nat): seq<T>
    requires n <= |parts|
  {
    if n == 0 then [] else Joined(parts, n - 1) + parts[n - 1]
  }

  // logs(i + 1) is logs(i) with part i behind it.
  ghost predicate Grows<T>(logs: nat -> seq<T>, parts: seq<seq<T>>, i: nat)
    requires i < |parts|
  {
    logs(i + 1) == logs(i) + parts[i]
  }

  lemma {:induction false} JoinedLog<T>(logs: nat -> seq<T>, parts: seq<seq<T>>, n: nat)
    requires n <= |parts| && forall i: nat :: i < |parts| ==> Grows(logs, parts, i)
    ensures logs(n) == logs(0) + Joined(parts, n)
  {
    if n == 0 {
      Units(logs(0));
    } else {
      JoinedLog(logs, parts, n - 1);
      assert Grows(logs, parts, n - 1);
      Associative(logs(0), Joined(parts, n - 1), parts[n - 1]);
    }
  }

  ghost predicate AllEmpty<T>(parts: seq<seq<T>>, m: nat, n: nat)
    requires m <= n <= |parts|
  {
    forall i :: m <= i < n ==> parts[i] == []
  }

  lemma {:induction false} JoinedGrows<T>(parts: seq<seq<T>>, m: nat, n: nat)
    requires m <= n <= |parts|
    ensures |Joined(parts, m)| <= |Joined(parts, n)|
    ensures |Joined(parts, m)| == |Joined(parts, n)| <==> AllEmpty(parts, m, n)
  {
    if m < n { JoinedGrows(parts, m, n - 1); }
  }

  // After equal beginnings part i is the same.
  ghost predicate SamePart<T>(a: seq<seq<T>>, b: seq<seq<T>>, i: nat)
    requires i < |a| && i < |b|
  {
    Joined(a, i) == Joined(b, i) ==> a[i] == b[i]
  }

  lemma {:induction false} SameJoined<T>(a: seq<seq<T>>, b: seq<seq<T>>, n: nat)
    requires n <= |a| && n <= |b| && forall i: nat :: i < n ==> SamePart(a, b, i)
    ensures Joined(a, n) == Joined(b, n)
  {
    if n > 0 {
      SameJoined(a, b, n - 1);
      assert SamePart(a, b, n - 1);
    }
  }

  // A queue that at each step loses `left` and then gains `came`.
  ghost predicate QueueLaw<T>(came: seq<seq<T>>, left: seq<seq<T>>, queue: seq<seq<T>>) {
    && |came| == |left| == |queue| - 1
    && forall i :: 0 <= i < |came| ==> left[i] + queue[i + 1] == queue[i] + came[i]
  }

  // Such a queue holds what came and has not left, in order.
  lemma {:induction false} QueueConserved<T>(came: seq<seq<T>>, left: seq<seq<T>>, queue: seq<seq<T>>, n: nat)
    requires QueueLaw(came, left, queue) && n <= |came| && queue[0] == []
    ensures Joined(came, n) == Joined(left, n) + queue[n]
  {
    if n == 0 {
      Units<T>([]);
    } else {
      var i := n - 1;
      QueueConserved(came, left, queue, i);
      Associative(Joined(left, i), queue[i], came[i]);
      assert left[i] + queue[i + 1] == queue[i] + came[i];
      Associative(Joined(left, i), left[i], queue[i + 1]);
    }
  }

  // From an empty queue, while nothing leaves, the queue is empty until something comes.
  lemma {:induction false} EmptyUntilCame<T>(came: seq<seq<T>>, left: seq<seq<T>>, queue: seq<seq<T>>, m: nat, k: nat)
    requires QueueLaw(came, left, queue) && m <= k <= |came| && queue[m] == [] && AllEmpty(left, m, k)
    ensures queue[k] == [] <==> AllEmpty(came, m, k)
  {
    if m < k {
      EmptyUntilCame(came, left, queue, m, k - 1);
      assert left[k - 1] + queue[k] == queue[k - 1] + came[k - 1];
    }
  }

  // What came first, at step l, is then at the head.
  lemma {:induction false} HeadCameFirst<T>(came: seq<seq<T>>, left: seq<seq<T>>, queue: seq<seq<T>>, m: nat, l: nat, k: nat)
    requires QueueLaw(came, left, queue) && m <= l < k <= |came| && queue[m] == [] && AllEmpty(left, m, k)
    requires AllEmpty(came, m, l) && came[l] != []
    ensures queue[k] != [] && queue[k][0] == came[l][0]
  {
    assert left[k - 1] + queue[k] == queue[k - 1] + came[k - 1];
    Units(queue[k]);
    assert queue[k] == queue[k - 1] + came[k - 1];
    if k == l + 1 {
      Units(came[l]);
      EmptyUntilCame(came, left, queue, m, l);
    } else {
      HeadCameFirst(came, left, queue, m, l, k - 1);
    }
  }

  // f(0), f(1), ..., f(n - 1)
  function Listing<T>(f: nat -> T, n: nat): (r: seq<T>)
    ensures |r| == n
  {
    if n == 0 then [] else Listing(f, n - 1) + [f(n - 1)]
  }

  lemma {:induction false} ListingAt<T>(f: nat -> T, n: nat)
    ensures forall i :: 0 <= i < n ==> Listing(f, n)[i] == f(i)
  {
    if n > 0 { ListingAt(f, n - 1); }
  }
}
