/**
  Atomic reference counting (CefRefCount over AtomicRefCount, with
  IMPLEMENT_REFCOUNTING's delete): a 32-bit wrapping counter, decrement and delete
  as separate steps, threads that act only while they hold a reference.
 */
module RefCounting {

  // ---- the counter: std::atomic_int, whose arithmetic wraps ----

  const TWO_TO_32: int := 0x1_0000_0000

  function ToInt32(n: int): int {
    (n + 0x8000_0000) % TWO_TO_32 - 0x8000_0000
  }

  // The one 32-bit value that differs from n by a multiple of 2^32.
  lemma ToInt32Exactly(n: int, r: int)
    ensures r == ToInt32(n) <==> -0x8000_0000 <= r < 0x8000_0000 && (r - n) % TWO_TO_32 == 0
  {
  }

  lemma WrapsOnce(n: int)
    ensures ToInt32(ToInt32(n) + 1) == ToInt32(n + 1)
    ensures ToInt32(ToInt32(n) - 1) == ToInt32(n - 1)
  {
  }

  // ---- threads sharing one object ----

  type Thread = nat

  // refs: who holds references, with multiplicity; deleting: threads whose
  // Release saw zero and whose delete has not run yet.
  datatype State = State(born: bool, count: int, refs: multiset<Thread>, deleting: multiset<Thread>, deletes: nat)

  const INIT := State(false, 0, multiset{}, multiset{}, 0)

  datatype Step =
    | Adopt(t: Thread)              // the creator takes the first reference
    | AddRef(t: Thread)
    | HandOff(t: Thread, u: Thread) // a reference changes hands
    | Release(t: Thread)
    | Delete(t: Thread)

  // Threads touch the object only through a reference they hold.
  ghost predicate Enabled(s: State, step: Step) {
    match step
    case Adopt(t) => !s.born
    case AddRef(t) => t in s.refs
    case HandOff(t, u) => t in s.refs
    case Release(t) => t in s.refs
    case Delete(t) => t in s.deleting
  }

  ghost function Next(s: State, step: Step): State {
    match step
    case Adopt(t) => s.(born := true, count := ToInt32(s.count + 1), refs := s.refs + multiset{t})
    case AddRef(t) => s.(count := ToInt32(s.count + 1), refs := s.refs + multiset{t})
    case HandOff(t, u) => s.(refs := s.refs - multiset{t} + multiset{u})
    case Release(t) =>
      s.(count := ToInt32(s.count - 1),
         refs := s.refs - multiset{t},
         deleting := if s.count == 1 then s.deleting + multiset{t} else s.deleting)
    case Delete(t) => s.(deleting := s.deleting - multiset{t}, deletes := s.deletes + 1)
  }

  // An interleaving: the state before each step and after the last.
  datatype Run = Run(steps: seq<Step>, states: seq<State>)

  ghost predicate Possible(run: Run) {
    && |run.states| == |run.steps| + 1
    && run.states[0] == INIT
    && forall i :: 0 <= i < |run.steps| ==> Linked(run, i)
  }

  // Step i was allowed when it happened, and did what it does.
  ghost predicate Linked(run: Run, i: nat)
    requires i < |run.steps| && |run.states| == |run.steps| + 1
  {
    Enabled(run.states[i], run.steps[i]) && run.states[i + 1] == Next(run.states[i], run.steps[i])
  }

  // At most 2^32 references at once.
  ghost predicate Bounded(run: Run) {
    forall i :: 0 <= i < |run.states| ==> |run.states[i].refs| <= TWO_TO_32
  }

  // A release with references left over, whose counter has wrapped round to one.
  ghost predicate FalseOne(s: State, step: Step) {
    step.Release? && |s.refs| > 1 && |s.refs| % TWO_TO_32 == 1
  }

  ghost predicate NoFalseOne(run: Run)
    requires Possible(run)
  {
    forall i :: 0 <= i < |run.steps| ==> !FalseOne(run.states[i], run.steps[i])
  }

  lemma BoundedIsEnough(run: Run)
    requires Possible(run) && Bounded(run)
    ensures NoFalseOne(run)
  {
  }

  // ---- what every interleaving keeps ----

  // How a step changes the number of references.
  function Change(step: Step): int {
    if step.Adopt? || step.AddRef? then 1 else if step.Release? then -1 else 0
  }

  lemma ReferencesStep(s: State, step: Step)
    requires Enabled(s, step)
    ensures |Next(s, step).refs| == |s.refs| + Change(step)
    ensures step.AddRef? || step.HandOff? || step.Release? ==> |s.refs| > 0
  {
    if step.HandOff? || step.Release? {
      assert |s.refs - multiset{step.t}| == |s.refs| - 1;
    }
  }

  // The counter is the number of references, as far as 32 bits tell.
  ghost predicate Counted(s: State) {
    s.count == ToInt32(|s.refs|) && (|s.refs| > 0 ==> s.born)
  }

  // Deleted or about to be exactly when born and without references.
  ghost predicate Safe(s: State) {
    if s.born && |s.refs| == 0 then |s.deleting| + s.deletes == 1
    else |s.deleting| == 0 && s.deletes == 0
  }

  lemma CountStep(s: State, step: Step)
    requires Enabled(s, step) && Counted(s)
    ensures Counted(Next(s, step))
  {
    ReferencesStep(s, step);
    WrapsOnce(|s.refs|);
  }

  lemma WrapsToOne(n: nat)
    ensures ToInt32(n) == 1 <==> n % TWO_TO_32 == 1
  {
  }

  lemma OneLess(n: nat)
    requires n > 0
    ensures n % TWO_TO_32 == 1 <==> (n - 1) % TWO_TO_32 == 0
  {
  }

  lemma WrapsToZero(n: nat)
    ensures ToInt32(n) == 0 <==> n % TWO_TO_32 == 0
  {
  }

  lemma SafeStep(s: State, step: Step)
    requires Enabled(s, step) && Counted(s) && Safe(s) && !FalseOne(s, step)
    ensures Safe(Next(s, step))
  {
    ReferencesStep(s, step);
    if step.Release? {
      WrapsToOne(|s.refs|);
    } else if step.Delete? {
      assert |s.deleting - multiset{step.t}| == |s.deleting| - 1;
    }
  }

  lemma {:induction false} CountIsReferences(run: Run, n: nat)
    requires Possible(run) && n <= |run.steps|
    ensures Counted(run.states[n])
  {
    if n > 0 {
      CountIsReferences(run, n - 1);
      assert Linked(run, n - 1);
      CountStep(run.states[n - 1], run.steps[n - 1]);
    }
  }

  lemma {:induction false} AlwaysSafe(run: Run, n: nat)
    requires Possible(run) && NoFalseOne(run) && n <= |run.steps|
    ensures Safe(run.states[n])
  {
    if n > 0 {
      AlwaysSafe(run, n - 1);
      CountIsReferences(run, n - 1);
      assert Linked(run, n - 1);
      SafeStep(run.states[n - 1], run.steps[n - 1]);
    }
  }

  // ---- who holds what ----

  // Whether thread t gets a reference in a step, and whether it gives one up.
  function Takes(step: Step, t: Thread): nat {
    match step
    case Adopt(u) => if u == t then 1 else 0
    case AddRef(u) => if u == t then 1 else 0
    case HandOff(_, u) => if u == t then 1 else 0
    case Release(_) => 0
    case Delete(_) => 0
  }

  function GivesUp(step: Step, t: Thread): nat {
    match step
    case Adopt(_) => 0
    case AddRef(_) => 0
    case HandOff(u, _) => if u == t then 1 else 0
    case Release(u) => if u == t then 1 else 0
    case Delete(_) => 0
  }

  lemma HeldStep(s: State, step: Step, t: Thread)
    requires Enabled(s, step)
    ensures Next(s, step).refs[t] + GivesUp(step, t) == s.refs[t] + Takes(step, t)
  {
  }

  // How often it did so in the first n steps.
  ghost function Taken(steps: seq<Step>, t: Thread, n: nat): nat
    requires n <= |steps|
  {
    if n == 0 then 0 else Taken(steps, t, n - 1) + Takes(steps[n - 1], t)
  }

  ghost function GivenUp(steps: seq<Step>, t: Thread, n: nat): nat
    requires n <= |steps|
  {
    if n == 0 then 0 else GivenUp(steps, t, n - 1) + GivesUp(steps[n - 1], t)
  }

  // A thread holds what it took and has not given up.
  lemma {:induction false} HeldExactly(run: Run, n: nat, t: Thread)
    requires Possible(run) && n <= |run.steps|
    ensures run.states[n].refs[t] + GivenUp(run.steps, t, n) == Taken(run.steps, t, n)
  {
    if n > 0 {
      HeldExactly(run, n - 1, t);
      assert Linked(run, n - 1);
      HeldStep(run.states[n - 1], run.steps[n - 1], t);
    }
  }

  // A release starts a delete with references left exactly when the counter has
  // wrapped round to one.
  lemma PrematureDeleteExactly(run: Run, n: nat)
    requires Possible(run) && n < |run.steps| && run.steps[n].Release?
    ensures var s, r := run.states[n], run.states[n + 1];
            (|r.deleting| > |s.deleting| && |r.refs| > 0) <==> FalseOne(s, run.steps[n])
  {
    CountIsReferences(run, n);
    assert Linked(run, n);
    ReferencesStep(run.states[n], run.steps[n]);
    WrapsToOne(|run.states[n].refs|);
  }

  // An interleaving deletes the object only after its last release, and exactly
  // once, if and only if no release saw a wrapped count of one.
  lemma SafeExactly(run: Run)
    requires Possible(run)
    ensures (forall n :: 0 <= n < |run.states| ==> Safe(run.states[n])) <==> NoFalseOne(run)
  {
    if NoFalseOne(run) {
      forall n | 0 <= n < |run.states| ensures Safe(run.states[n]) {
        AlwaysSafe(run, n);
      }
    } else {
      var i :| 0 <= i < |run.steps| && FalseOne(run.states[i], run.steps[i]);
      PrematureDeleteExactly(run, i);
      assert !Safe(run.states[i + 1]);
    }
  }

  // What that means for callers: the object is deleted at most once, and only
  // with no reference left; when all references are gone and no delete is under
  // way it has been deleted; and nobody can act on it any more once it is.
  lemma DeletedExactlyOnce(run: Run, n: nat)
    requires Possible(run) && NoFalseOne(run) && n <= |run.steps|
    ensures var s := run.states[n];
            && s.deletes <= 1
            && (s.deletes == 1 || |s.deleting| > 0 ==> |s.refs| == 0)
            && (s.born && |s.refs| == 0 && |s.deleting| == 0 ==> s.deletes == 1)
            && (s.deletes > 0 ==> forall step :: !Enabled(s, step))
  {
    AlwaysSafe(run, n);
    CountIsReferences(run, n);
  }

  // A count of one means one reference, as far as 32 bits tell; up to 2^32 of them,
  // that its holder's reference is the only one.
  lemma HasOneRefIsExclusive(run: Run, n: nat, t: Thread)
    requires Possible(run) && n <= |run.steps| && t in run.states[n].refs
    ensures run.states[n].count == 1 <==> |run.states[n].refs| % TWO_TO_32 == 1
    ensures |run.states[n].refs| <= TWO_TO_32 ==> (run.states[n].count == 1 <==> run.states[n].refs == multiset{t})
  {
    CountIsReferences(run, n);
    WrapsToOne(|run.states[n].refs|);
    OnlyMember(run.states[n].refs, t);
  }

  lemma OnlyMember(refs: multiset<Thread>, t: Thread)
    requires t in refs
    ensures |refs| == 1 <==> refs == multiset{t}
  {
    assert |refs - multiset{t}| == |refs| - 1;
    if |refs| == 1 {
      assert refs - multiset{t} == multiset{};
      assert refs == refs - multiset{t} + multiset{t};
    }
  }

  // ---- the code ----

  // The state now.
  ghost function Last(run: Run): State
    requires Possible(run)
  {
    run.states[|run.steps|]
  }

  ghost function Extend(run: Run, step: Step): Run
    requires Possible(run)
  {
    Run(run.steps + [step], run.states + [Next(Last(run), step)])
  }

  lemma ExtendIsPossible(run: Run, step: Step)
    requires Possible(run) && Enabled(Last(run), step)
    ensures Possible(Extend(run, step)) && Last(Extend(run, step)) == Next(Last(run), step)
  {
    var longer := Extend(run, step);
    forall i | 0 <= i < |longer.steps| ensures Linked(longer, i) {
      if i < |run.steps| { assert Linked(run, i); }
    }
  }

  class CefRefCount {
    var value: int
    // everything that has happened to the references of the object counted
    ghost var run: Run

    ghost predicate Valid()
      reads this
    {
      Possible(run) && value == Last(run).count
    }

    ghost function Refs(): multiset<Thread>
      requires Valid()
      reads this
    {
      Last(run).refs
    }

    constructor ()
      ensures Valid() && run == Run([], [INIT])
    {
      value, run := 0, Run([], [INIT]);
    }

    // Takes the creator's reference or one more.
    method AddRef(ghost t: Thread)
      requires Valid() && (Last(run).born ==> t in Refs())
      modifies this
      ensures Valid() && Refs() == old(Refs()) + multiset{t}
      ensures run == Extend(old(run), if old(Last(run).born) then Step.AddRef(t) else Adopt(t))
    {
      ghost var step := if Last(run).born then Step.AddRef(t) else Adopt(t);
      ExtendIsPossible(run, step);
      run := Extend(run, step);
      value := ToInt32(value + 1);
    }

    // True for the thread that now has to delete the object: no reference is left,
    // as far as 32 bits tell.
    method Release(ghost t: Thread) returns (last: bool)
      requires Valid() && t in Refs()
      modifies this
      ensures Valid() && run == Extend(old(run), Step.Release(t))
      ensures Last(run).deleting == old(Last(run).deleting) + if last then multiset{t} else multiset{}
      ensures last <==> |Refs()| % TWO_TO_32 == 0
    {
      CountIsReferences(run, |run.steps|);
      ReferencesStep(Last(run), Step.Release(t));
      WrapsToOne(|Refs()|);
      OneLess(|Refs()|);
      ExtendIsPossible(run, Step.Release(t));
      run := Extend(run, Step.Release(t));
      var before := value;
      value := ToInt32(value - 1);
      var nonZero := before != 1;
      last := !nonZero;
    }

    method HasOneRef() returns (one: bool)
      requires Valid()
      ensures one <==> |Refs()| % TWO_TO_32 == 1
      ensures |Refs()| <= TWO_TO_32 ==> forall t :: t in Refs() ==> (one <==> Refs() == multiset{t})
    {
      CountIsReferences(run, |run.steps|);
      WrapsToOne(|Refs()|);
      forall t | t in Refs() ensures |Refs()| == 1 <==> Refs() == multiset{t} {
        OnlyMember(Refs(), t);
      }
      one := value == 1;
    }

    method HasAtLeastOneRef() returns (some: bool)
      requires Valid()
      ensures some <==> |Refs()| % TWO_TO_32 != 0
      ensures |Refs()| < TWO_TO_32 ==> (some <==> Refs() != multiset{})
    {
      CountIsReferences(run, |run.steps|);
      WrapsToZero(|Refs()|);
      var zero := value == 0;
      some := !zero;
    }

    // A step that leaves the counter alone: a reference changes hands, or the object
    // is deleted.
    ghost method Note(step: Step)
      requires Valid() && Enabled(Last(run), step) && (step.HandOff? || step.Delete?)
      modifies this`run
      ensures Valid() && run == Extend(old(run), step)
    {
      ExtendIsPossible(run, step);
      run := Extend(run, step);
    }
  }

  // An object with IMPLEMENT_REFCOUNTING.
  class RefCounted {
    const refCount: CefRefCount
    var alive: bool

    ghost predicate Valid()
      reads this, refCount
    {
      refCount.Valid() && (alive <==> Last(refCount.run).deletes == 0)
    }

    constructor ()
      ensures Valid() && fresh(refCount) && alive && refCount.run == Run([], [INIT])
    {
      refCount := new CefRefCount();
      alive := true;
    }

    // Without wrapped ones, the object is deleted by the release that leaves no
    // reference, by no other, and was there until then.
    method Release(ghost t: Thread) returns (deleted: bool)
      requires Valid() && t in refCount.Refs()
      modifies this, refCount
      ensures Valid()
      ensures var released := Extend(old(refCount.run), Step.Release(t));
              Possible(released) && refCount.run == if deleted then Extend(released, Delete(t)) else released
      ensures alive <==> old(alive) && !deleted
      ensures NoFalseOne(refCount.run) ==> old(alive) && (deleted <==> refCount.Refs() == multiset{})
    {
      ghost var start := refCount.run;
      deleted := refCount.Release(t);
      if deleted {
        refCount.Note(Delete(t));
        alive := false;
      }
      if NoFalseOne(refCount.run) {
        LastReference(start, t, refCount.run, deleted);
      }
    }
  }

  lemma LastReference(start: Run, t: Thread, run: Run, deleted: bool)
    requires Possible(start) && t in Last(start).refs && Possible(run) && NoFalseOne(run)
    requires var released := Extend(start, Release(t));
             Possible(released) && run == if deleted then Extend(released, Delete(t)) else released
    requires deleted <==> |Last(Extend(start, Release(t))).refs| % TWO_TO_32 == 0
    ensures Last(start).deletes == 0
    ensures deleted <==> Last(run).refs == multiset{}
  {
    var n := |start.steps|;
    assert run.states[n] == Last(start) && run.steps[n] == Release(t);
    AlwaysSafe(run, n);
    CountIsReferences(run, n);
    ReferencesStep(Last(start), Release(t));
    OneLess(|Last(start).refs|);
    assert !FalseOne(run.states[n], run.steps[n]);
  }

  // ---- the bound is tight ----

  ghost function Holding(t: Thread, n: nat): multiset<Thread> {
    multiset{}[t := n]
  }

  lemma {:induction false} HoldingSize(t: Thread, n: nat)
    ensures |Holding(t, n)| == n
    ensures Holding(t, n) + multiset{t} == Holding(t, n + 1) && Holding(t, n + 1) - multiset{t} == Holding(t, n)
  {
    if n == 0 {
      assert Holding(t, 0) == multiset{};
    } else {
      HoldingSize(t, n - 1);
    }
  }

  ghost function ClimbState(t: Thread, k: nat): State {
    State(k > 0, ToInt32(k), Holding(t, k), multiset{}, 0)
  }

  // One thread takes n references and then releases one.
  ghost function Climb(t: Thread, n: nat): (r: Run)
    requires n > 0
    ensures |r.steps| == n + 1 && |r.states| == n + 2
    ensures forall k :: 0 <= k < n ==> r.steps[k] == if k == 0 then Adopt(t) else AddRef(t)
    ensures forall k :: 0 <= k <= n ==> r.states[k] == ClimbState(t, k)
    ensures r.steps[n] == Release(t) && r.states[n + 1] == Next(ClimbState(t, n), Release(t))
  {
    Run(seq(n, k => if k == 0 then Adopt(t) else AddRef(t)) + [Release(t)],
        seq(n + 1, k requires k >= 0 => ClimbState(t, k)) + [Next(ClimbState(t, n), Release(t))])
  }

  lemma ClimbIsPossible(t: Thread, n: nat)
    requires n > 0
    ensures Possible(Climb(t, n))
  {
    var run := Climb(t, n);
    assert Holding(t, 0) == multiset{};
    forall k | 0 <= k < |run.steps| ensures Linked(run, k) {
      if k < n {
        ClimbStep(t, k);
      } else {
        HoldingSize(t, n);
        assert t in Holding(t, n);
      }
    }
  }

  lemma ClimbStep(t: Thread, k: nat)
    ensures var step := if k == 0 then Adopt(t) else AddRef(t);
            Enabled(ClimbState(t, k), step) && Next(ClimbState(t, k), step) == ClimbState(t, k + 1)
  {
    HoldingSize(t, k);
    WrapsOnce(k);
  }

  // 2^32 + 1 references can be held, and releasing one of them starts a delete
  // while 2^32 remain.
  lemma TooManyReferences(t: Thread)
    ensures var run := Climb(t, TWO_TO_32 + 1);
            && Possible(run)
            && |run.states[TWO_TO_32 + 2].deleting| == 1 && |run.states[TWO_TO_32 + 2].refs| == TWO_TO_32
  {
    var n := TWO_TO_32 + 1;
    ClimbIsPossible(t, n);
    HoldingSize(t, n);
    HoldingSize(t, TWO_TO_32);
    WrapsToOne(n);
    assert (TWO_TO_32 + 1) % TWO_TO_32 == 1;
  }
}
