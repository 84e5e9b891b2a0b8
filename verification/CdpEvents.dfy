/** Conservation of events: nothing the reader queues is lost, invented or reordered. */
module CdpEvents {
  import opened OptionType
  import opened CdpTransport
  import opened CdpSafety
  import opened Sequences

  // Step i queues an event of this name: the reader hears it and it does not
  // answer a call still waiting for its first reply.
  ghost predicate Announces(trace: seq<Step>, i: nat, name: string)
    requires i < |trace|
  {
    && trace[i].Arrive? && trace[i].raw.Decoded? && trace[i].raw.msg.name == Some(name)
    && Alive(trace, i)
    && !exists j: nat :: Replies(trace, i, j) && Unanswered(trace, i, j)
  }

  ghost function AnnouncedBy(trace: seq<Step>, i: nat, name: string): seq<Message>
    requires i < |trace|
  {
    if Announces(trace, i, name) then [trace[i].raw.msg] else []
  }

  ghost function QueueAt(trace: seq<Step>, n: nat, name: string): seq<Message>
    requires n <= |trace|
  {
    After(INIT, trace, n).Queue(name)
  }

  // What step i takes out of the queue: all of it when draining, the head when
  // a wait completes.
  ghost function RemovedBy(trace: seq<Step>, i: nat, name: string): seq<Message>
    requires i < |trace|
  {
    var q := QueueAt(trace, i, name);
    if trace[i] == Drain(name) then q
    else if trace[i] == Take(name) && q != [] then q[..1]
    else []
  }

  // The whole trace, step by step: events queued, events removed, the queue before each step.
  ghost function Announcements(trace: seq<Step>, name: string): (r: seq<seq<Message>>)
    ensures |r| == |trace| && forall i :: 0 <= i < |trace| ==> r[i] == AnnouncedBy(trace, i, name)
  {
    seq(|trace|, i requires 0 <= i < |trace| => AnnouncedBy(trace, i, name))
  }

  ghost function Removals(trace: seq<Step>, name: string): (r: seq<seq<Message>>)
    ensures |r| == |trace| && forall i :: 0 <= i < |trace| ==> r[i] == RemovedBy(trace, i, name)
  {
    seq(|trace|, i requires 0 <= i < |trace| => RemovedBy(trace, i, name))
  }

  ghost function QueueStates(trace: seq<Step>, name: string): (r: seq<seq<Message>>)
    ensures |r| == |trace| + 1 && forall i :: 0 <= i <= |trace| ==> r[i] == QueueAt(trace, i, name)
  {
    seq(|trace| + 1, i requires 0 <= i <= |trace| => QueueAt(trace, i, name))
  }

  // Events queued, and events removed, in the first n steps.
  ghost function Announced(trace: seq<Step>, n: nat, name: string): seq<Message>
    requires n <= |trace|
  {
    Joined(Announcements(trace, name), n)
  }

  ghost function Removed(trace: seq<Step>, n: nat, name: string): seq<Message>
    requires n <= |trace|
  {
    Joined(Removals(trace, name), n)
  }

  // A frame the reader hears answers a call still waiting iff its id is registered.
  lemma AnswersIfRegistered(trace: seq<Step>, n: nat)
    requires n < |trace| && trace[n].Arrive? && trace[n].raw.Decoded? && After(INIT, trace, n).reading
    ensures var m, s := trace[n].raw.msg, After(INIT, trace, n);
            (exists j: nat :: Replies(trace, n, j) && Unanswered(trace, n, j)) <==> m.id.Some? && m.id.value in s.registered
  {
    AlwaysExplained(trace, n);
    var m, s := trace[n].raw.msg, After(INIT, trace, n);
    if m.id.Some? && m.id.value in s.registered {
      var j: nat := m.id.value - 1;
      assert Registered(s, j) && Replies(trace, n, j) && Unanswered(trace, n, j);
    } else {
      forall j: nat | Replies(trace, n, j) ensures !Unanswered(trace, n, j) {
        assert !Registered(s, j);
      }
    }
  }

  // What a frame adds to the queue of a name.
  function Added(s: State, step: Step, name: string): seq<Message> {
    if s.reading && step.Arrive? && step.raw.Decoded? && step.raw.msg.name == Some(name)
      && !(step.raw.msg.id.Some? && step.raw.msg.id.value in s.registered)
    then [step.raw.msg] else []
  }

  lemma AddedIsAnnounced(trace: seq<Step>, n: nat, name: string)
    requires n < |trace|
    ensures AnnouncedBy(trace, n, name) == Added(After(INIT, trace, n), trace[n], name)
  {
    AlwaysExplained(trace, n);
    if trace[n].Arrive? && trace[n].raw.Decoded? && After(INIT, trace, n).reading {
      AnswersIfRegistered(trace, n);
    }
  }

  lemma QueueChange(s: State, step: Step, name: string)
    requires s.WellFormed()
    ensures var q, r := s.Queue(name), Apply(s, step).Queue(name);
            (if step == Drain(name) then q else if step == Take(name) && q != [] then q[..1] else []) + r ==
            q + Added(s, step, name)
  {
  }

  lemma QueueStep(trace: seq<Step>, n: nat, name: string)
    requires n < |trace|
    ensures RemovedBy(trace, n, name) + QueueAt(trace, n + 1, name) ==
            QueueAt(trace, n, name) + AnnouncedBy(trace, n, name)
  {
    AddedIsAnnounced(trace, n, name);
    QueueChange(After(INIT, trace, n), trace[n], name);
  }

  lemma TraceQueueLaw(trace: seq<Step>, name: string)
    ensures QueueLaw(Announcements(trace, name), Removals(trace, name), QueueStates(trace, name))
    ensures QueueStates(trace, name)[0] == []
  {
    forall i | 0 <= i < |trace|
      ensures Removals(trace, name)[i] + QueueStates(trace, name)[i + 1] ==
              QueueStates(trace, name)[i] + Announcements(trace, name)[i]
    {
      QueueStep(trace, i, name);
    }
    assert QueueAt(trace, 0, name) == [];
  }

  // For each name: events queued so far == events removed, in order, then the queue.
  lemma EventsConserved(trace: seq<Step>, n: nat, name: string)
    requires n <= |trace|
    ensures Announced(trace, n, name) == Removed(trace, n, name) + QueueAt(trace, n, name)
  {
    TraceQueueLaw(trace, name);
    QueueConserved(Announcements(trace, name), Removals(trace, name), QueueStates(trace, name), n);
  }

  // ---- what a wait returns, read off the trace ----

  predicate Consumes(step: Step, name: string) {
    step == Drain(name) || step == Take(name)
  }

  // No event of this name is queued by the steps from m to n - 1.
  ghost predicate NoneAnnounced(trace: seq<Step>, m: nat, n: nat, name: string)
    requires m <= n <= |trace|
  {
    forall l :: m <= l < n ==> !Announces(trace, l, name)
  }

  // Between a drain at step i and step j, whenever another consumer drains or takes,
  // no event has come since step i.
  ghost predicate Undisturbed(trace: seq<Step>, i: nat, j: nat, name: string)
    requires i < j <= |trace|
  {
    forall k :: i + 1 <= k < j && Consumes(trace[k], name) ==> NoneAnnounced(trace, i + 1, k, name)
  }

  // Step l is the first after step i to queue an event of this name.
  ghost predicate FirstAfter(trace: seq<Step>, i: nat, l: nat, name: string)
    requires i < l < |trace|
  {
    Announces(trace, l, name) && NoneAnnounced(trace, i + 1, l, name)
  }

  // cdp_wait_event and cdp_navigate drain at step i and get their event at step j.
  // They return event number |Removed| of that name. It is number |Announced| at
  // the drain, that is the first one queued after it, exactly when the trace is
  // undisturbed in between; it is then the message of the first announcing step.
  lemma WaitReturnsFirstSinceDrain(trace: seq<Step>, i: nat, j: nat, name: string)
    requires i < j < |trace| && trace[i] == Drain(name) && trace[j] == Take(name)
    requires QueueAt(trace, j, name) != []
    ensures var got := |Removed(trace, j, name)|;
            var first := |Announced(trace, i + 1, name)|;
            && first <= got < |Announced(trace, j, name)|
            && RemovedBy(trace, j, name) == [Announced(trace, j, name)[got]]
            && (got == first <==> Undisturbed(trace, i, j, name))
    ensures Undisturbed(trace, i, j, name) ==>
              exists l :: i < l < j && FirstAfter(trace, i, l, name) && RemovedBy(trace, j, name) == [trace[l].raw.msg]
  {
    CountSinceDrain(trace, i, j, name);
    EventsConserved(trace, j, name);
    TakesHead(trace, j, name);
    UndisturbedExactly(trace, i, j, name);
    if Undisturbed(trace, i, j, name) {
      QueueSinceDrain(trace, i, j, name);
      var l := FirstAnnouncement(trace, i, j, name);
      HeadIsFirst(trace, i, l, j, name);
    }
  }

  // Right after a drain everything queued so far has been removed.
  lemma DrainCatchesUp(trace: seq<Step>, i: nat, name: string)
    requires i < |trace| && trace[i] == Drain(name)
    ensures Removed(trace, i + 1, name) == Announced(trace, i + 1, name)
  {
    EventsConserved(trace, i + 1, name);
    DrainEmpties(trace, i, name);
    Units(Removed(trace, i + 1, name));
  }

  // The steps from m to n - 1 take no event of this name.
  ghost predicate NoneRemoved(trace: seq<Step>, m: nat, n: nat, name: string)
    requires m <= n <= |trace|
  {
    AllEmpty(Removals(trace, name), m, n)
  }

  lemma CountSinceDrain(trace: seq<Step>, i: nat, j: nat, name: string)
    requires i < j <= |trace| && trace[i] == Drain(name)
    ensures |Announced(trace, i + 1, name)| <= |Removed(trace, j, name)|
    ensures |Announced(trace, i + 1, name)| == |Removed(trace, j, name)| <==> NoneRemoved(trace, i + 1, j, name)
  {
    DrainCatchesUp(trace, i, name);
    JoinedGrows(Removals(trace, name), i + 1, j);
  }

  lemma DrainEmpties(trace: seq<Step>, i: nat, name: string)
    requires i < |trace| && trace[i] == Drain(name)
    ensures QueueAt(trace, i + 1, name) == []
  {
  }

  lemma TakesHead(trace: seq<Step>, j: nat, name: string)
    requires j < |trace| && trace[j] == Take(name) && QueueAt(trace, j, name) != []
    ensures RemovedBy(trace, j, name) == [QueueAt(trace, j, name)[0]]
  {
  }

  lemma RemovesExactly(trace: seq<Step>, k: nat, name: string)
    requires k < |trace|
    ensures RemovedBy(trace, k, name) == [] <==> !Consumes(trace[k], name) || QueueAt(trace, k, name) == []
  {
  }

  lemma NoneAnnouncedIsEmpty(trace: seq<Step>, m: nat, n: nat, name: string)
    requires m <= n <= |trace|
    ensures NoneAnnounced(trace, m, n, name) <==> AllEmpty(Announcements(trace, name), m, n)
  {
    forall l | m <= l < n ensures !Announces(trace, l, name) <==> Announcements(trace, name)[l] == [] {
    }
  }

  // While nobody removes, the queue is empty until an event comes.
  lemma QueueSinceDrain(trace: seq<Step>, i: nat, k: nat, name: string)
    requires i < k <= |trace| && trace[i] == Drain(name) && NoneRemoved(trace, i + 1, k, name)
    ensures QueueAt(trace, k, name) == [] <==> NoneAnnounced(trace, i + 1, k, name)
  {
    TraceQueueLaw(trace, name);
    DrainEmpties(trace, i, name);
    NoneAnnouncedIsEmpty(trace, i + 1, k, name);
    EmptyUntilCame(Announcements(trace, name), Removals(trace, name), QueueStates(trace, name), i + 1, k);
  }

  lemma {:induction false} UndisturbedExactly(trace: seq<Step>, i: nat, j: nat, name: string)
    requires i < j <= |trace| && trace[i] == Drain(name)
    ensures NoneRemoved(trace, i + 1, j, name) <==> Undisturbed(trace, i, j, name)
  {
    if j > i + 1 {
      UndisturbedExactly(trace, i, j - 1, name);
      RemovesExactly(trace, j - 1, name);
      if NoneRemoved(trace, i + 1, j - 1, name) {
        QueueSinceDrain(trace, i, j - 1, name);
      }
    }
  }

  // The first announcing step since step i, when there is one before step j.
  lemma {:induction false} FirstAnnouncement(trace: seq<Step>, i: nat, j: nat, name: string) returns (l: nat)
    requires i < j <= |trace| && !NoneAnnounced(trace, i + 1, j, name)
    ensures i < l < j && FirstAfter(trace, i, l, name)
  {
    if NoneAnnounced(trace, i + 1, j - 1, name) {
      l := j - 1;
    } else {
      l := FirstAnnouncement(trace, i, j - 1, name);
    }
  }

  // With nothing removed since the drain, the head of the queue is that first event.
  lemma HeadIsFirst(trace: seq<Step>, i: nat, l: nat, k: nat, name: string)
    requires i < l < k <= |trace| && trace[i] == Drain(name) && FirstAfter(trace, i, l, name)
    requires NoneRemoved(trace, i + 1, k, name)
    ensures QueueAt(trace, k, name) != [] && QueueAt(trace, k, name)[0] == trace[l].raw.msg
  {
    TraceQueueLaw(trace, name);
    DrainEmpties(trace, i, name);
    NoneAnnouncedIsEmpty(trace, i + 1, l, name);
    assert Announcements(trace, name)[l] == [trace[l].raw.msg];
    HeadCameFirst(Announcements(trace, name), Removals(trace, name), QueueStates(trace, name), i + 1, l, k);
  }

  // With one consumer per name, as in the script, a wait can complete exactly when
  // an event came after its drain, and it returns the first such event.
  lemma SoleWaiterGetsFirst(trace: seq<Step>, i: nat, j: nat, name: string)
    requires i < j < |trace| && trace[i] == Drain(name) && trace[j] == Take(name)
    requires forall k :: i + 1 <= k < j ==> !Consumes(trace[k], name)
    ensures QueueAt(trace, j, name) != [] <==> exists l :: i < l < j && Announces(trace, l, name)
    ensures QueueAt(trace, j, name) != [] ==>
              exists l :: i < l < j && FirstAfter(trace, i, l, name) && RemovedBy(trace, j, name) == [trace[l].raw.msg]
  {
    assert Undisturbed(trace, i, j, name);
    UndisturbedExactly(trace, i, j, name);
    QueueSinceDrain(trace, i, j, name);
    if QueueAt(trace, j, name) != [] {
      WaitReturnsFirstSinceDrain(trace, i, j, name);
    }
  }

  // Two waits on one name can overlap: the later drain throws away the event the
  // earlier wait was waiting for, and a take then gets the next one.
  lemma OverlappingWaitsSteal(name: string, a: Message, b: Message)
    requires a.id == None && b.id == None && a.name == b.name == Some(name)
    ensures var trace := [Drain(name), Arrive(Decoded(a)), Drain(name), Arrive(Decoded(b)), Take(name)];
            && RemovedBy(trace, 2, name) == [a] && RemovedBy(trace, 4, name) == [b]
  {
    var trace := [Drain(name), Arrive(Decoded(a)), Drain(name), Arrive(Decoded(b)), Take(name)];
    OverlapStates(trace, name, a, b);
  }

  lemma OverlapStates(trace: seq<Step>, name: string, a: Message, b: Message)
    requires a.id == None && b.id == None && a.name == b.name == Some(name)
    requires trace == [Drain(name), Arrive(Decoded(a)), Drain(name), Arrive(Decoded(b)), Take(name)]
    ensures QueueAt(trace, 0, name) == [] && QueueAt(trace, 1, name) == [] && QueueAt(trace, 2, name) == [a]
    ensures QueueAt(trace, 3, name) == [] && QueueAt(trace, 4, name) == [b]
  {
    assert After(INIT, trace, 0) == INIT;
    assert After(INIT, trace, 1) == INIT.(queues := map[name := []]);
    assert After(INIT, trace, 2) == INIT.(queues := map[name := [] + [a]]);
    assert After(INIT, trace, 3) == INIT.(queues := map[name := []]);
    assert After(INIT, trace, 4) == INIT.(queues := map[name := [] + [b]]);
  }
}
