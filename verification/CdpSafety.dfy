/**
  What every interleaving of the CDP transport guarantees. The reference
  definitions (SendCount, Replies, Expires, Fatal, Touches, Announces) read only
  the trace of steps; the theorems equate them with the state the code reaches.
 */
module CdpSafety {
  import opened OptionType
  import opened CdpTransport

  // ---- what a trace says, without running the transport ----

  function SendCount(trace: seq<Step>, n: nat): nat
    requires n <= |trace|
  {
    if n == 0 then 0 else SendCount(trace, n - 1) + if trace[n - 1].Send? then 1 else 0
  }

  // Step i is a frame carrying the id of call j, which has been sent by then.
  ghost predicate Replies(trace: seq<Step>, i: nat, j: nat)
    requires i < |trace|
  {
    && trace[i].Arrive? && trace[i].raw.Decoded?
    && trace[i].raw.msg.id == Some(j + 1)
    && j < SendCount(trace, i)
  }

  // Step i is the expiry of the timer of call j, which has been sent by then.
  ghost predicate Expires(trace: seq<Step>, i: nat, j: nat)
    requires i < |trace|
  {
    trace[i] == Timeout(j) && j < SendCount(trace, i)
  }

  // No reply to call j among the first n steps.
  ghost predicate Unanswered(trace: seq<Step>, n: nat, j: nat)
    requires n <= |trace|
  {
    forall i :: 0 <= i < n ==> !Replies(trace, i, j)
  }

  // Step i is a reply to a call that had already timed out unanswered.
  ghost predicate LateReply(trace: seq<Step>, i: nat, j: nat)
    requires i < |trace|
  {
    Replies(trace, i, j) && exists t :: 0 <= t < i && Expires(trace, t, j) && Unanswered(trace, t, j)
  }

  // The steps that end the reader.
  ghost predicate Fatal(trace: seq<Step>, i: nat)
    requires i < |trace|
  {
    || trace[i].Close?
    || trace[i] == Arrive(Undecodable)
    || exists j: nat :: LateReply(trace, i, j)
  }

  ghost predicate Alive(trace: seq<Step>, n: nat)
    requires n <= |trace|
  {
    forall i :: 0 <= i < n ==> !Fatal(trace, i)
  }

  // Step i concerns the future of call j: a reply the reader hears, or its timeout.
  ghost predicate Touches(trace: seq<Step>, i: nat, j: nat)
    requires i < |trace|
  {
    (Replies(trace, i, j) && Alive(trace, i)) || Expires(trace, i, j)
  }

  ghost predicate FirstTouch(trace: seq<Step>, i: nat, j: nat)
    requires i < |trace|
  {
    Touches(trace, i, j) && forall k :: 0 <= k < i ==> !Touches(trace, k, j)
  }

  // The future of call j after n steps, read off the trace: settled by the first
  // step that touches it, and by nothing else.
  ghost predicate FutureIs(trace: seq<Step>, n: nat, j: nat, f: Future)
    requires n <= |trace|
  {
    match f
    case Pending => forall i :: 0 <= i < n ==> !Touches(trace, i, j)
    case Resolved(m) =>
      exists i :: 0 <= i < n && FirstTouch(trace, i, j) && trace[i] == Arrive(Decoded(m))
    case Cancelled =>
      exists i :: 0 <= i < n && FirstTouch(trace, i, j) && trace[i] == Timeout(j)
  }

  // ---- the correspondence, kept by every step ----

  ghost predicate IdsMatch(s: State) {
    && s.msgId == |s.futures|
    && forall id :: id in s.registered ==> 1 <= id <= s.msgId && s.registered[id] == id - 1
  }

  ghost predicate Registered(s: State, j: nat) {
    j + 1 in s.registered
  }

  ghost predicate Explained(trace: seq<Step>, n: nat, s: State)
    requires n <= |trace|
  {
    && IdsMatch(s)
    && s.msgId == SendCount(trace, n)
    && (s.reading <==> Alive(trace, n))
    && (forall j :: 0 <= j < |s.futures| ==> FutureIs(trace, n, j, s.futures[j]))
    && (s.reading ==> forall j :: 0 <= j < |s.futures| ==> (Registered(s, j) <==> Unanswered(trace, n, j)))
  }

  // While the reader lives, a reply is late exactly when it finds a registered,
  // cancelled future.
  lemma LateMeansCancelled(trace: seq<Step>, n: nat, s: State, j: nat)
    requires n < |trace| && Explained(trace, n, s) && s.reading && j < |s.futures|
    requires Replies(trace, n, j)
    ensures LateReply(trace, n, j) <==> (Registered(s, j) && s.futures[j].Cancelled?)
  {
    if LateReply(trace, n, j) {
      var t :| 0 <= t < n && Expires(trace, t, j) && Unanswered(trace, t, j);
      forall i | 0 <= i < n ensures !Replies(trace, i, j) {
        if Replies(trace, i, j) {
          assert LateReply(trace, i, j);
          assert Fatal(trace, i);
        }
      }
      assert Touches(trace, t, j);
    }
  }

  // A pending future that is still registered is settled by the reader's next reply.
  lemma PendingIsRegistered(trace: seq<Step>, n: nat, s: State, j: nat)
    requires n <= |trace| && Explained(trace, n, s) && s.reading && j < |s.futures|
    ensures s.futures[j].Pending? ==> Registered(s, j)
    ensures s.futures[j].Resolved? ==> !Registered(s, j)
  {
    if s.futures[j].Pending? {
      forall i | 0 <= i < n ensures !Replies(trace, i, j) {
        assert !Touches(trace, i, j);
      }
    }
  }

  // One more step moves a future exactly when it is pending and touched.
  lemma FutureStep(trace: seq<Step>, n: nat, j: nat, f: Future)
    requires n < |trace| && FutureIs(trace, n, j, f)
    ensures f.Pending? && !Touches(trace, n, j) ==> FutureIs(trace, n + 1, j, Pending)
    ensures f.Pending? && Touches(trace, n, j) ==> FirstTouch(trace, n, j)
    ensures !f.Pending? ==> FutureIs(trace, n + 1, j, f)
  {
  }

  lemma ReplyStep(trace: seq<Step>, n: nat, s: State, m: Message)
    requires n < |trace| && Explained(trace, n, s) && s.reading
    requires trace[n] == Arrive(Decoded(m))
    ensures Explained(trace, n + 1, Dispatch(s, m))
  {
    var r := Dispatch(s, m);
    assert Alive(trace, n + 1) <==> Alive(trace, n) && !Fatal(trace, n);
    forall j | 0 <= j < |s.futures| ensures FutureIs(trace, n + 1, j, r.futures[j]) {
      FutureStep(trace, n, j, s.futures[j]);
      PendingIsRegistered(trace, n, s, j);
    }
    if m.id.Some? && 1 <= m.id.value <= s.msgId {
      var j: nat := m.id.value - 1;
      assert Replies(trace, n, j);
      LateMeansCancelled(trace, n, s, j);
      PendingIsRegistered(trace, n, s, j);
      assert forall k: nat :: LateReply(trace, n, k) ==> k == j;
    } else {
      assert forall k: nat :: !Replies(trace, n, k);
    }
    forall j | 0 <= j < |s.futures| && r.reading
      ensures Registered(r, j) <==> Unanswered(trace, n + 1, j)
    {
      assert Unanswered(trace, n + 1, j) <==> Unanswered(trace, n, j) && !Replies(trace, n, j);
    }
  }

  lemma QuietStep(trace: seq<Step>, n: nat, s: State)
    requires n < |trace| && s.WellFormed() && Explained(trace, n, s)
    requires !(s.reading && trace[n].Arrive? && trace[n].raw.Decoded?)
    ensures Explained(trace, n + 1, Apply(s, trace[n]))
  {
    var r := Apply(s, trace[n]);
    assert Alive(trace, n + 1) <==> Alive(trace, n) && !Fatal(trace, n);
    forall j | 0 <= j < |s.futures| ensures FutureIs(trace, n + 1, j, r.futures[j]) {
      FutureStep(trace, n, j, s.futures[j]);
    }
    SendCountGrows(trace, n);
    forall j | 0 <= j < |r.futures| && r.reading
      ensures Registered(r, j) <==> Unanswered(trace, n + 1, j)
    {
      assert Unanswered(trace, n + 1, j) <==> Unanswered(trace, n, j);
    }
  }

  // A call is touched only after it is sent.
  lemma {:induction false} SendCountGrows(trace: seq<Step>, n: nat)
    requires n <= |trace|
    ensures forall i :: 0 <= i < n ==> SendCount(trace, i) <= SendCount(trace, n)
    ensures forall i, j: nat :: 0 <= i < n && SendCount(trace, n) <= j ==> !Touches(trace, i, j) && !Replies(trace, i, j)
  {
    if n > 0 { SendCountGrows(trace, n - 1); }
  }

  lemma {:induction false} AlwaysExplained(trace: seq<Step>, n: nat)
    requires n <= |trace|
    ensures Explained(trace, n, After(INIT, trace, n))
  {
    if n > 0 {
      AlwaysExplained(trace, n - 1);
      var s := After(INIT, trace, n - 1);
      if s.reading && trace[n - 1].Arrive? && trace[n - 1].raw.Decoded? {
        ReplyStep(trace, n - 1, s, trace[n - 1].raw.msg);
      } else {
        QuietStep(trace, n - 1, s);
      }
    }
  }

  // ---- the theorems ----

  // The reader lives exactly while the stream is open, every frame decodes and
  // no reply has come for a call that timed out first.
  lemma ReaderAliveExactly(trace: seq<Step>, n: nat)
    requires n <= |trace|
    ensures After(INIT, trace, n).reading <==>
            forall i :: 0 <= i < n ==>
              && trace[i] != Close && trace[i] != Arrive(Undecodable)
              && forall j: nat :: !LateReply(trace, i, j)
  {
    AlwaysExplained(trace, n);
    forall i | 0 <= i < n
      ensures Fatal(trace, i) <==>
              trace[i] == Close || trace[i] == Arrive(Undecodable) || exists j: nat :: LateReply(trace, i, j)
    {
    }
  }

  // Each call's future is what the first step touching it made of it; a reply
  // resolves only the call whose id it carries.
  lemma FutureExactly(trace: seq<Step>, n: nat, j: nat, f: Future)
    requires n <= |trace|
    ensures |After(INIT, trace, n).futures| == SendCount(trace, n)
    ensures j < SendCount(trace, n) ==> (After(INIT, trace, n).futures[j] == f <==> FutureIs(trace, n, j, f))
    ensures j < SendCount(trace, n) && After(INIT, trace, n).futures[j] == f && f.Resolved? ==>
              f.reply.id == Some(j + 1)
  {
    AlwaysExplained(trace, n);
    if j < SendCount(trace, n) && FutureIs(trace, n, j, f) {
      FutureIsUnique(trace, n, j, f, After(INIT, trace, n).futures[j]);
    }
  }

  // The step that first concerns call j is a reply the reader hears.
  ghost predicate RepliedAt(trace: seq<Step>, i: nat, j: nat, m: Message)
    requires i < |trace|
  {
    FirstTouch(trace, i, j) && trace[i] == Arrive(Decoded(m))
  }

  // A future is resolved with m exactly when the step that first concerned its call
  // brought m.
  lemma ResolvedExactly(trace: seq<Step>, n: nat, j: nat, m: Message)
    requires n <= |trace| && j < SendCount(trace, n)
    ensures j < |After(INIT, trace, n).futures|
    ensures After(INIT, trace, n).futures[j] == Resolved(m) <==> exists i :: 0 <= i < n && RepliedAt(trace, i, j, m)
  {
    FutureExactly(trace, n, j, Resolved(m));
    if FutureIs(trace, n, j, Resolved(m)) {
      var i :| 0 <= i < n && FirstTouch(trace, i, j) && trace[i] == Arrive(Decoded(m));
      assert RepliedAt(trace, i, j, m);
    }
  }

  // The reply that came first gives this outcome.
  ghost predicate Brought(trace: seq<Step>, n: nat, j: nat, outcome: Outcome)
    requires n <= |trace|
  {
    exists i, m :: 0 <= i < n && RepliedAt(trace, i, j, m) &&
      match outcome
      case Failure(e) => m.error == Some(e)
      case Success(v) => m.error == None && v == (if m.result.Some? then m.result.value else "{}")
      case _ => false
  }

  lemma BroughtExactly(trace: seq<Step>, n: nat, j: nat, outcome: Outcome)
    requires n <= |trace| && j < SendCount(trace, n) && (outcome.Failure? || outcome.Success?)
    ensures j < |After(INIT, trace, n).futures|
    ensures CallOutcome(After(INIT, trace, n).futures[j]) == outcome <==> Brought(trace, n, j, outcome)
  {
    FutureExactly(trace, n, j, Pending);
    var f := After(INIT, trace, n).futures[j];
    if CallOutcome(f) == outcome {
      ResolvedExactly(trace, n, j, f.reply);
    }
    if Brought(trace, n, j, outcome) {
      var i, m :| 0 <= i < n && RepliedAt(trace, i, j, m) &&
        match outcome
        case Failure(e) => m.error == Some(e)
        case Success(v) => m.error == None && v == (if m.result.Some? then m.result.value else "{}")
        case _ => false;
      ResolvedExactly(trace, n, j, m);
    }
  }

  // What cdp_send gives its caller, read off the trace: a timeout when its timer came
  // first, the error of the reply that came first when that has one, and otherwise
  // its result, or an empty object when it has none.
  lemma OutcomeExactly(trace: seq<Step>, n: nat, j: nat, outcome: Outcome)
    requires n <= |trace| && j < SendCount(trace, n)
    ensures j < |After(INIT, trace, n).futures|
    ensures CallOutcome(After(INIT, trace, n).futures[j]) == outcome <==>
            match outcome
            case TimedOut => exists i :: 0 <= i < n && FirstTouch(trace, i, j) && trace[i] == Timeout(j)
            case Waiting => forall i :: 0 <= i < n ==> !Touches(trace, i, j)
            case Failure(_) => Brought(trace, n, j, outcome)
            case Success(_) => Brought(trace, n, j, outcome)
  {
    if outcome.Failure? || outcome.Success? {
      BroughtExactly(trace, n, j, outcome);
    } else {
      FutureExactly(trace, n, j, if outcome.TimedOut? then Cancelled else Pending);
    }
  }

  lemma FutureIsUnique(trace: seq<Step>, n: nat, j: nat, f: Future, g: Future)
    requires n <= |trace| && FutureIs(trace, n, j, f) && FutureIs(trace, n, j, g)
    ensures f == g
  {
  }

  // Settled futures never change again.
  lemma SettlesOnce(trace: seq<Step>, m: nat, n: nat, j: nat)
    requires m <= n <= |trace| && j < SendCount(trace, m)
    ensures j < |After(INIT, trace, m).futures| <= |After(INIT, trace, n).futures|
    ensures !After(INIT, trace, m).futures[j].Pending? ==>
              After(INIT, trace, n).futures[j] == After(INIT, trace, m).futures[j]
  {
    SendCountGrows(trace, n);
    AlwaysExplained(trace, m);
    AlwaysExplained(trace, n);
    var f := After(INIT, trace, m).futures[j];
    if !f.Pending? {
      assert FutureIs(trace, n, j, f);
      FutureIsUnique(trace, n, j, f, After(INIT, trace, n).futures[j]);
    }
  }

  // An id handed out by a send is larger than every id in use before it.
  lemma IdsNeverReused(trace: seq<Step>, m: nat, n: nat)
    requires m <= n < |trace| && trace[n].Send?
    ensures var newId := After(INIT, trace, n + 1).msgId;
            && After(INIT, trace, n + 1).registered[newId] == SendCount(trace, n)
            && forall id :: id in After(INIT, trace, m).registered ==> 1 <= id <= After(INIT, trace, m).msgId < newId
  {
    SendCountGrows(trace, n);
    AlwaysExplained(trace, m);
    AlwaysExplained(trace, n);
  }

  // Once the reader has stopped no call is ever answered.
  lemma NoAnswerAfterStop(trace: seq<Step>, m: nat, n: nat, j: nat)
    requires m <= n <= |trace| && !After(INIT, trace, m).reading
    requires j < |After(INIT, trace, n).futures| && After(INIT, trace, n).futures[j].Resolved?
    ensures j < |After(INIT, trace, m).futures|
    ensures After(INIT, trace, m).futures[j] == After(INIT, trace, n).futures[j]
  {
    AlwaysExplained(trace, m);
    AlwaysExplained(trace, n);
    var i :| 0 <= i < n && FirstTouch(trace, i, j) && trace[i].Arrive?;
    assert Alive(trace, i) && i < m;
    SendCountGrows(trace, m);
    FutureIsUnique(trace, m, j, After(INIT, trace, n).futures[j], After(INIT, trace, m).futures[j]);
  }

  // A timeout is not confined to its own call: the late reply to call 0 stops
  // the reader, so call 1 stays unanswered although its reply arrives.
  lemma LateReplyStarvesNextCall(late: Message, next: Message)
    requires late.id == Some(1) && next.id == Some(2)
    ensures var trace := [Send, Timeout(0), Arrive(Decoded(late)), Send, Arrive(Decoded(next))];
            After(INIT, trace, 5).futures == [Cancelled, Pending]
  {
    var trace := [Send, Timeout(0), Arrive(Decoded(late)), Send, Arrive(Decoded(next))];
    assert After(INIT, trace, 1).futures == [Pending];
    assert After(INIT, trace, 2).futures == [Cancelled];
    assert !After(INIT, trace, 3).reading;
    assert After(INIT, trace, 4).futures == [Cancelled, Pending];
  }
}
