/**
  Exactly when the dispatching and the sequential transport answer alike, for any
  interleaving of calls and frames in which no id is answered twice.
 */
module TransportAgreement {
  import opened OptionType
  import opened CdpTransport
  import opened CdpSafety
  import opened SequentialClient
  import opened CdpRefinement
  import opened Sequences

  // ---- what a trace says about both transports ----

  // No call times out, and the stream stays open.
  ghost predicate Unhurried(trace: seq<Step>) {
    forall i :: 0 <= i < |trace| ==> !trace[i].Timeout? && !trace[i].Close?
  }

  // Step i is a frame carrying the id of call g, sent or not.
  predicate Answering(trace: seq<Step>, i: nat, g: nat)
    requires i < |trace|
  {
    trace[i].Arrive? && Carries(trace[i].raw, g + 1)
  }

  // No call gets two replies.
  ghost predicate AnsweredOnce(trace: seq<Step>) {
    forall i, k, g: nat :: 0 <= i < k < |trace| && Answering(trace, i, g) ==> !Answering(trace, k, g)
  }

  predicate Broken(trace: seq<Step>, i: nat)
    requires i < |trace|
  {
    trace[i] == Arrive(Undecodable)
  }

  // The first undecodable frame from step i on, or the end.
  function NextBroken(trace: seq<Step>, i: nat): (r: nat)
    requires i <= |trace|
    ensures i <= r <= |trace| && (r < |trace| ==> Broken(trace, r))
    ensures forall k :: i <= k < r ==> !Broken(trace, k)
    decreases |trace| - i
  {
    if i == |trace| || Broken(trace, i) then i else NextBroken(trace, i + 1)
  }

  function Past(trace: seq<Step>, i: nat): (r: nat)
    requires i <= |trace|
    ensures i <= r <= |trace|
  {
    if i < |trace| then i + 1 else i
  }

  // The undecodable frame with j others before it, or the end.
  function BrokenAt(trace: seq<Step>, j: nat): (r: nat)
    ensures r <= |trace|
  {
    if j == 0 then NextBroken(trace, 0) else NextBroken(trace, Past(trace, BrokenAt(trace, j - 1)))
  }

  // Step i is the reply to call g, sent by then, and the reader is there to hear it.
  ghost predicate Heard(trace: seq<Step>, i: nat, g: nat) {
    i < |trace| && Replies(trace, i, g) && i < NextBroken(trace, 0)
  }

  ghost predicate IsHeard(trace: seq<Step>, g: nat) {
    exists i: nat :: Heard(trace, i, g)
  }

  // Step i lies behind every reply heard by the first m calls.
  ghost predicate Behind(trace: seq<Step>, m: nat, i: nat) {
    forall g: nat, k: nat :: g < m && Heard(trace, k, g) ==> k < i
  }

  // Where the sequential client listens for call g, when the first m calls have
  // heard their replies in order and no other has.
  ghost predicate ListensAt(trace: seq<Step>, m: nat, g: nat, i: nat)
    requires m <= g
  {
    if g == m then i < NextBroken(trace, 0) && Behind(trace, m, i)
    else BrokenAt(trace, g - m - 1) < i < BrokenAt(trace, g - m)
  }

  // The replies the reader hears are those to the first m calls, in the order of
  // the calls; and where the sequential client listens for any later call, there is
  // no reply to it.
  ghost predicate InStep(trace: seq<Step>, m: nat) {
    && m <= SendCount(trace, |trace|)
    && (forall g: nat :: IsHeard(trace, g) <==> g < m)
    && (forall g: nat, h: nat, i: nat, k: nat :: g < h && Heard(trace, i, g) && Heard(trace, k, h) ==> i < k)
    && (forall g: nat :: m <= g < SendCount(trace, |trace|) ==> NothingFor(trace, m, g))
  }

  ghost predicate NothingFor(trace: seq<Step>, m: nat, g: nat)
    requires m <= g
  {
    forall i: nat :: i < |trace| && ListensAt(trace, m, g, i) ==> !Answering(trace, i, g)
  }

  // ---- the dispatching transport ----

  lemma NeverLate(trace: seq<Step>, i: nat)
    requires Unhurried(trace) && i <= |trace|
    ensures Alive(trace, i) <==> i <= NextBroken(trace, 0)
  {
    forall k | 0 <= k < i ensures Fatal(trace, k) <==> Broken(trace, k) {
      assert forall t, g: nat :: 0 <= t < k ==> !Expires(trace, t, g);
    }
    if i > NextBroken(trace, 0) {
      assert Fatal(trace, NextBroken(trace, 0));
    }
  }

  // A future holds the reply its call has heard, and is pending when there is none.
  lemma FutureIsHeard(trace: seq<Step>, g: nat)
    requires Unhurried(trace) && AnsweredOnce(trace) && g < SendCount(trace, |trace|)
    ensures |After(INIT, trace, |trace|).futures| == SendCount(trace, |trace|)
    ensures var f := After(INIT, trace, |trace|).futures[g];
            if IsHeard(trace, g) then forall i: nat :: Heard(trace, i, g) ==> f == Resolved(trace[i].raw.msg)
            else f == Pending
  {
    FutureExactly(trace, |trace|, g, Pending);
    if IsHeard(trace, g) {
      forall i: nat | Heard(trace, i, g) ensures After(INIT, trace, |trace|).futures[g] == Resolved(trace[i].raw.msg) {
        NeverLate(trace, i);
        OneTouch(trace, g, i);
        FutureExactly(trace, |trace|, g, Resolved(trace[i].raw.msg));
      }
    } else {
      forall i | 0 <= i < |trace| ensures !Touches(trace, i, g) {
        NeverLate(trace, i);
        assert i == NextBroken(trace, 0) ==> Broken(trace, i);
        assert !Heard(trace, i, g);
      }
    }
  }

  lemma RepliesAnswer(trace: seq<Step>, i: nat, g: nat)
    requires i < |trace|
    ensures Replies(trace, i, g) ==> Answering(trace, i, g)
  {
  }

  lemma OneTouch(trace: seq<Step>, g: nat, i: nat)
    requires Unhurried(trace) && AnsweredOnce(trace) && Heard(trace, i, g) && Alive(trace, i)
    ensures FirstTouch(trace, i, g) && trace[i] == Arrive(Decoded(trace[i].raw.msg))
  {
    RepliesAnswer(trace, i, g);
    forall k | 0 <= k < i ensures !Touches(trace, k, g) {
      RepliesAnswer(trace, k, g);
    }
  }

  // ---- the sequential transport ----

  // The frames from step i on.
  function Inbound(trace: seq<Step>, i: nat): seq<Received>
    requires i <= |trace|
    decreases |trace| - i
  {
    if i == |trace| then []
    else (if trace[i].Arrive? then [Frame(trace[i].raw)] else []) + Inbound(trace, i + 1)
  }

  // Where a scan for call g from step i on stops.
  function Stop(trace: seq<Step>, i: nat, g: nat): (r: nat)
    requires i <= |trace|
    ensures i <= r <= |trace| && (r < |trace| ==> Broken(trace, r) || Answering(trace, r, g))
    ensures forall k :: i <= k < r ==> !Broken(trace, k) && !Answering(trace, k, g)
    decreases |trace| - i
  {
    if i == |trace| || Broken(trace, i) || Answering(trace, i, g) then i else Stop(trace, i + 1, g)
  }

  function AnswerAt(trace: seq<Step>, i: nat, g: nat): Answer
    requires i <= |trace|
  {
    if i < |trace| && Answering(trace, i, g) then Reply(trace[i].raw.msg) else Raised
  }

  lemma ListenOn(frame: Raw, rest: seq<Received>, id: int)
    ensures Listen([Frame(frame)] + rest, id) ==
            if frame.Undecodable? then (Raised, rest)
            else if Carries(frame, id) then (Reply(frame.msg), rest)
            else Listen(rest, id)
  {
    ConsTail(Frame(frame), rest);
  }

  lemma InboundStep(trace: seq<Step>, i: nat)
    requires i < |trace|
    ensures Inbound(trace, i) ==
            if trace[i].Arrive? then [Frame(trace[i].raw)] + Inbound(trace, i + 1) else Inbound(trace, i + 1)
  {
    Units(Inbound(trace, i + 1));
  }

  // What a scan gives and leaves, when it stops at step `stop`.
  ghost predicate ScanEnds(trace: seq<Step>, inbound: seq<Received>, stop: nat, g: nat) {
    stop <= |trace| && Listen(inbound, g + 1) == (AnswerAt(trace, stop, g), Inbound(trace, Past(trace, stop)))
  }

  lemma ScanEndsHere(trace: seq<Step>, i: nat, g: nat)
    requires i <= |trace| && (i < |trace| ==> Broken(trace, i) || Answering(trace, i, g))
    ensures ScanEnds(trace, Inbound(trace, i), i, g)
  {
    if i < |trace| {
      InboundStep(trace, i);
      ListenOn(trace[i].raw, Inbound(trace, i + 1), g + 1);
    }
  }

  lemma ScanGoesOn(trace: seq<Step>, i: nat, g: nat, stop: nat)
    requires i < |trace| && !Broken(trace, i) && !Answering(trace, i, g)
    requires ScanEnds(trace, Inbound(trace, i + 1), stop, g)
    ensures ScanEnds(trace, Inbound(trace, i), stop, g)
  {
    InboundStep(trace, i);
    if trace[i].Arrive? { ListenOn(trace[i].raw, Inbound(trace, i + 1), g + 1); }
  }

  lemma {:induction false} ScanStops(trace: seq<Step>, i: nat, g: nat)
    requires i <= |trace|
    ensures ScanEnds(trace, Inbound(trace, i), Stop(trace, i, g), g)
    decreases |trace| - i
  {
    if i == |trace| || Broken(trace, i) || Answering(trace, i, g) {
      ScanEndsHere(trace, i, g);
    } else {
      ScanStops(trace, i + 1, g);
      ScanGoesOn(trace, i, g, Stop(trace, i + 1, g));
    }
  }

  // Where the sequential client starts to listen for call g.
  function From(trace: seq<Step>, g: nat): (r: nat)
    ensures r <= |trace|
    decreases g, 0
  {
    if g == 0 then 0 else Past(trace, StopOf(trace, g - 1))
  }

  function StopOf(trace: seq<Step>, g: nat): (r: nat)
    ensures r <= |trace|
    decreases g, 1
  {
    Stop(trace, From(trace, g), g)
  }

  lemma {:induction false} AnswersAre(trace: seq<Step>, g: nat, calls: nat, h: nat)
    requires h < calls
    ensures Answers(Inbound(trace, From(trace, g)), g, calls)[h] == AnswerAt(trace, StopOf(trace, g + h), g + h)
    decreases h
  {
    ScanStops(trace, From(trace, g), g);
    if h > 0 {
      AnswersAre(trace, g + 1, calls - 1, h - 1);
    }
  }

  // ---- call by call ----

  // Both transports give call g the same.
  ghost predicate AgreeOn(trace: seq<Step>, g: nat)
    requires g < |After(INIT, trace, |trace|).futures|
  {
    SameAnswer(After(INIT, trace, |trace|).futures[g], AnswerAt(trace, StopOf(trace, g), g))
  }

  // The same, read off the trace.
  ghost predicate Level(trace: seq<Step>, g: nat) {
    if IsHeard(trace, g) then Heard(trace, StopOf(trace, g), g)
    else StopOf(trace, g) < |trace| ==> Broken(trace, StopOf(trace, g))
  }

  lemma AgreeExactly(trace: seq<Step>, g: nat)
    requires Unhurried(trace) && AnsweredOnce(trace) && g < SendCount(trace, |trace|)
    ensures |After(INIT, trace, |trace|).futures| == SendCount(trace, |trace|)
    ensures AgreeOn(trace, g) <==> Level(trace, g)
  {
    FutureIsHeard(trace, g);
    var stop := StopOf(trace, g);
    if IsHeard(trace, g) {
      var i: nat :| Heard(trace, i, g);
      assert Answering(trace, i, g);
      if stop < |trace| && Answering(trace, stop, g) {
        assert stop == i;
      }
    }
  }

  lemma HeardOnce(trace: seq<Step>, g: nat, i: nat, k: nat)
    requires AnsweredOnce(trace) && Heard(trace, i, g) && Heard(trace, k, g)
    ensures i == k
  {
    assert Answering(trace, i, g) && Answering(trace, k, g);
  }

  // A scan goes on to the next undecodable frame exactly when there is no reply before.
  lemma StopsAtBroken(trace: seq<Step>, i: nat, g: nat)
    requires i <= |trace|
    ensures Stop(trace, i, g) <= NextBroken(trace, i)
    ensures Stop(trace, i, g) == NextBroken(trace, i) <==>
            forall k: nat :: i <= k < NextBroken(trace, i) ==> !Answering(trace, k, g)
  {
    var stop, broken := Stop(trace, i, g), NextBroken(trace, i);
    if stop < broken {
      assert Answering(trace, stop, g);
    }
  }

  lemma NextBrokenFrom(trace: seq<Step>, i: nat)
    requires i <= NextBroken(trace, 0)
    ensures NextBroken(trace, i) == NextBroken(trace, 0)
  {
  }

  lemma {:induction false} BrokenAtGrows(trace: seq<Step>, j: nat)
    ensures NextBroken(trace, 0) <= BrokenAt(trace, j)
  {
    if j > 0 { BrokenAtGrows(trace, j - 1); }
  }

  // The scan for call g has ended at its own reply, for each of the first m calls.
  ghost predicate ServedUpTo(trace: seq<Step>, m: nat) {
    forall g: nat :: g < m ==> Heard(trace, StopOf(trace, g), g)
  }

  // Then their replies come in order, and the client listens behind all of them.
  lemma {:induction false} ServedInOrder(trace: seq<Step>, g: nat, m: nat)
    requires ServedUpTo(trace, m) && g < m
    ensures StopOf(trace, g) < From(trace, m) <= NextBroken(trace, 0)
  {
    assert Heard(trace, StopOf(trace, m - 1), m - 1);
    if g < m - 1 { ServedInOrder(trace, g, m - 1); }
  }

  lemma ListensFrom(trace: seq<Step>, m: nat, i: nat)
    requires AnsweredOnce(trace) && ServedUpTo(trace, m)
    ensures From(trace, m) <= NextBroken(trace, 0)
    ensures Behind(trace, m, i) <==> From(trace, m) <= i
  {
    if m > 0 {
      var last := StopOf(trace, m - 1);
      assert Heard(trace, last, m - 1);
      ServedInOrder(trace, m - 1, m);
      if From(trace, m) <= i {
        forall g: nat, k: nat | g < m && Heard(trace, k, g) ensures k < i {
          assert Heard(trace, StopOf(trace, g), g);
          HeardOnce(trace, g, k, StopOf(trace, g));
          ServedInOrder(trace, g, m);
        }
      }
    }
  }

  // Call g, the j-th after the first one without a reply: the client stands behind
  // the j-th undecodable frame.
  ghost predicate Adrift(trace: seq<Step>, m: nat, g: nat)
    requires m <= g
  {
    if g == m then ServedUpTo(trace, m) && !IsHeard(trace, m)
    else From(trace, g) == Past(trace, BrokenAt(trace, g - m - 1))
  }

  // From there the client hears nothing exactly when there is nothing for it.
  lemma AdriftStops(trace: seq<Step>, m: nat, g: nat)
    requires AnsweredOnce(trace) && m <= g && Adrift(trace, m, g)
    ensures StopOf(trace, g) == BrokenAt(trace, g - m) <==> NothingFor(trace, m, g)
    ensures StopOf(trace, g) == BrokenAt(trace, g - m) ==> Adrift(trace, m, g + 1)
    ensures StopOf(trace, g) != BrokenAt(trace, g - m) ==>
              StopOf(trace, g) < |trace| && Answering(trace, StopOf(trace, g), g)
  {
    StopsAtBroken(trace, From(trace, g), g);
    if g == m {
      ListensFrom(trace, m, 0);
      NextBrokenFrom(trace, From(trace, m));
    }
    forall i: nat | i < |trace|
      ensures ListensAt(trace, m, g, i) <==> From(trace, g) <= i < BrokenAt(trace, g - m)
    {
      if g == m { ListensFrom(trace, m, i); }
    }
  }

  // A call whose client stands behind an undecodable frame hears nothing on either
  // side, when it is level.
  lemma AdriftLevel(trace: seq<Step>, m: nat, g: nat)
    requires AnsweredOnce(trace) && m <= g && Adrift(trace, m, g)
    ensures Level(trace, g) <==> !IsHeard(trace, g) && NothingFor(trace, m, g)
  {
    AdriftStops(trace, m, g);
    if g > m { BrokenAtGrows(trace, g - m - 1); }
    var stop := StopOf(trace, g);
    if stop == BrokenAt(trace, g - m) {
      assert stop < |trace| ==> Broken(trace, stop);
    }
  }

  lemma AdriftStep(trace: seq<Step>, m: nat, g: nat)
    requires AnsweredOnce(trace) && m <= g && Adrift(trace, m, g) && NothingFor(trace, m, g)
    ensures Adrift(trace, m, g + 1)
  {
    AdriftStops(trace, m, g);
  }

  ghost predicate NothingLeft(trace: seq<Step>, m: nat, g: nat) {
    forall h: nat :: m <= h < g ==> NothingFor(trace, m, h)
  }

  lemma {:induction false} StaysAdrift(trace: seq<Step>, m: nat, h: nat, g: nat)
    requires AnsweredOnce(trace) && m <= h <= g && Adrift(trace, m, h) && NothingLeft(trace, m, g)
    ensures Adrift(trace, m, g)
    decreases g - h
  {
    if h < g {
      AdriftStep(trace, m, h);
      StaysAdrift(trace, m, h + 1, g);
    }
  }

  // ---- the theorem ----

  lemma HeardMeansSent(trace: seq<Step>, g: nat)
    requires IsHeard(trace, g)
    ensures g < SendCount(trace, |trace|)
  {
    SendCountGrows(trace, |trace|);
  }

  ghost predicate AllLevel(trace: seq<Step>) {
    forall g: nat :: g < SendCount(trace, |trace|) ==> Level(trace, g)
  }

  lemma {:induction false} LevelLeavesNothing(trace: seq<Step>, m: nat, g: nat)
    requires AnsweredOnce(trace) && AllLevel(trace) && Adrift(trace, m, m) && m <= g <= SendCount(trace, |trace|)
    ensures forall h: nat :: m <= h < g ==> !IsHeard(trace, h) && NothingFor(trace, m, h)
  {
    if m < g {
      LevelLeavesNothing(trace, m, g - 1);
      StaysAdrift(trace, m, m, g - 1);
      AdriftLevel(trace, m, g - 1);
    }
  }

  lemma LevelIsInStep(trace: seq<Step>) returns (m: nat)
    requires AnsweredOnce(trace) && AllLevel(trace)
    ensures InStep(trace, m)
  {
    var n := SendCount(trace, |trace|);
    m := 0;
    while m < n && IsHeard(trace, m)
      invariant m <= n && ServedUpTo(trace, m)
    {
      assert Level(trace, m);
      m := m + 1;
    }
    LevelLeavesNothing(trace, m, n) by { if IsHeard(trace, m) { HeardMeansSent(trace, m); } }
    forall g: nat ensures IsHeard(trace, g) <==> g < m {
      if IsHeard(trace, g) { HeardMeansSent(trace, g); }
      if g < m { assert Heard(trace, StopOf(trace, g), g); }
    }
    forall g: nat, h: nat, i: nat, k: nat | g < h && Heard(trace, i, g) && Heard(trace, k, h) ensures i < k {
      assert IsHeard(trace, h);
      ServedApart(trace, m, g, h, i, k);
    }
  }

  lemma ServedApart(trace: seq<Step>, m: nat, g: nat, h: nat, i: nat, k: nat)
    requires AnsweredOnce(trace) && ServedUpTo(trace, m) && g < h < m && Heard(trace, i, g) && Heard(trace, k, h)
    ensures i < k
  {
    assert Heard(trace, StopOf(trace, g), g) && Heard(trace, StopOf(trace, h), h);
    HeardOnce(trace, g, i, StopOf(trace, g));
    HeardOnce(trace, h, k, StopOf(trace, h));
    ServedInOrder(trace, g, h);
  }

  lemma {:induction false} InStepServes(trace: seq<Step>, m: nat, g: nat)
    requires AnsweredOnce(trace) && InStep(trace, m) && g <= m
    ensures ServedUpTo(trace, g)
  {
    if g > 0 {
      var h := g - 1;
      InStepServes(trace, m, h);
      assert IsHeard(trace, h);
      var i: nat :| Heard(trace, i, h);
      if h > 0 {
        assert Heard(trace, StopOf(trace, h - 1), h - 1);
      }
      ScanFindsHeard(trace, From(trace, h), h, i);
    }
  }

  lemma ScanFindsHeard(trace: seq<Step>, from: nat, g: nat, i: nat)
    requires AnsweredOnce(trace) && Heard(trace, i, g) && from <= i
    ensures Stop(trace, from, g) == i
  {
    RepliesAnswer(trace, i, g);
    var stop := Stop(trace, from, g);
    assert stop <= i;
    assert !Broken(trace, stop);
  }

  lemma InStepIsLevel(trace: seq<Step>, m: nat)
    requires AnsweredOnce(trace) && InStep(trace, m)
    ensures AllLevel(trace)
  {
    InStepServes(trace, m, m);
    forall g: nat | g < SendCount(trace, |trace|) ensures Level(trace, g) {
      if g < m {
        assert Heard(trace, StopOf(trace, g), g);
      } else {
        StaysAdrift(trace, m, m, g);
        AdriftLevel(trace, m, g);
      }
    }
  }

  // When no id is answered twice, both transports give every call the same if and
  // only if the trace is in step.
  lemma TransportsAgreeExactly(trace: seq<Step>)
    requires Unhurried(trace) && AnsweredOnce(trace)
    ensures var n := SendCount(trace, |trace|);
            var futures, answers := After(INIT, trace, |trace|).futures, Answers(Inbound(trace, 0), 0, n);
            && |futures| == n
            && ((forall g: nat :: g < n ==> SameAnswer(futures[g], answers[g])) <==> exists m: nat :: InStep(trace, m))
  {
    var n := SendCount(trace, |trace|);
    var futures, answers := After(INIT, trace, |trace|).futures, Answers(Inbound(trace, 0), 0, n);
    FutureExactly(trace, |trace|, 0, Pending);
    forall g: nat | g < n ensures SameAnswer(futures[g], answers[g]) <==> Level(trace, g) {
      AgreeExactly(trace, g);
      AnswersAre(trace, 0, n, g);
    }
    if AllLevel(trace) {
      var m := LevelIsInStep(trace);
    } else if m: nat :| InStep(trace, m) {
      InStepIsLevel(trace, m);
    }
  }

  // Two calls, and their replies in the other order.
  function Crossed(first: Message, second: Message): seq<Step> {
    [Send, Send, Arrive(Decoded(second)), Arrive(Decoded(first))]
  }

  lemma CrossedStates(first: Message, second: Message)
    requires first.id == Some(1) && second.id == Some(2)
    ensures var two := State(2, map[1 := 0, 2 := 1], [Pending, Pending], map[], true);
            var three := State(2, map[1 := 0], [Pending, Resolved(second)], map[], true);
            && two.WellFormed() && Apply(Apply(INIT, Send), Send) == two
            && three.WellFormed() && Apply(two, Arrive(Decoded(second))) == three
            && Apply(three, Arrive(Decoded(first))).futures == [Resolved(first), Resolved(second)]
  {
    assert Apply(INIT, Send) == State(1, map[1 := 0], [Pending], map[], true);
    assert map[1 := 0, 2 := 1] - {2} == map[1 := 0];
  }

  lemma CrossedHeard(first: Message, second: Message)
    requires first.id == Some(1) && second.id == Some(2)
    ensures After(INIT, Crossed(first, second), 4).futures == [Resolved(first), Resolved(second)]
  {
    var trace := Crossed(first, second);
    CrossedStates(first, second);
    assert After(INIT, trace, 1) == Apply(INIT, Send);
    assert After(INIT, trace, 2) == Apply(After(INIT, trace, 1), Send);
    assert After(INIT, trace, 3) == Apply(After(INIT, trace, 2), Arrive(Decoded(second)));
  }

  lemma CrossedInbound(first: Message, second: Message)
    ensures Inbound(Crossed(first, second), 0) == [Frame(Decoded(second)), Frame(Decoded(first))]
  {
    var trace := Crossed(first, second);
    assert Inbound(trace, 4) == [];
    InboundStep(trace, 3);
    InboundStep(trace, 2);
    InboundStep(trace, 1);
    InboundStep(trace, 0);
  }

  lemma CrossedAnswers(first: Message, second: Message)
    requires first.id == Some(1) && second.id == Some(2)
    ensures Answers([Frame(Decoded(second)), Frame(Decoded(first))], 0, 2) == [Reply(first), Raised]
  {
    var inbound := [Frame(Decoded(second)), Frame(Decoded(first))];
    ListenStops(inbound, 1, 1);
    assert inbound[2..] == [];
    OneAnswer([], 1);
  }

  // The reader hears both, the sequential client reads over the second call's reply
  // while it waits for the first one's.
  lemma CrossedRepliesSeparate(first: Message, second: Message)
    requires first.id == Some(1) && second.id == Some(2)
    ensures var trace := Crossed(first, second);
            && Unhurried(trace) && AnsweredOnce(trace)
            && After(INIT, trace, 4).futures == [Resolved(first), Resolved(second)]
            && Answers(Inbound(trace, 0), 0, 2) == [Reply(first), Raised]
  {
    CrossedHeard(first, second);
    CrossedInbound(first, second);
    CrossedAnswers(first, second);
  }
}
