/**
  The standalone benchmark's transport: one call at a time, reading frames until
  the id matches. It is the simple form the dispatching transport refines.
 */
module SequentialClient {
  import opened OptionType
  import opened CdpTransport

  // Raised: the frame does not decode, or the stream has ended. Expired: fifteen
  // seconds went by without a frame.
  datatype Answer = Reply(msg: Message) | Raised | Expired

  // What a receive meets next.
  datatype Received = Frame(raw: Raw) | Silence

  // The answer to `id` and what is left for later calls.
  function Listen(inbound: seq<Received>, id: int): (Answer, seq<Received>) {
    if inbound == [] then (Raised, [])
    else if inbound[0].Silence? then (Expired, inbound[1..])
    else if inbound[0].raw.Undecodable? then (Raised, inbound[1..])
    else if inbound[0].raw.msg.id == Some(id) then (Reply(inbound[0].raw.msg), inbound[1..])
    else Listen(inbound[1..], id)
  }

  // Consecutive calls over one stream.
  function Answers(inbound: seq<Received>, msgId: int, calls: nat): (r: seq<Answer>)
    ensures |r| == calls
    decreases calls
  {
    if calls == 0 then []
    else
      var (a, rest) := Listen(inbound, msgId + 1);
      [a] + Answers(rest, msgId + 1, calls - 1)
  }

  // send returns the result of the matching frame, or None when it reports an error.
  function Returned(m: Message): Option<Json> {
    if m.error.Some? then None
    else Some(if m.result.Some? then m.result.value else EMPTY_OBJECT)
  }

  class Client {
    var msgId: nat
    var inbound: seq<Received>

    constructor (inbound: seq<Received>)
      ensures msgId == 0 && this.inbound == inbound
    {
      msgId, this.inbound := 0, inbound;
    }

    method Send() returns (answer: Answer)
      modifies this
      ensures msgId == old(msgId) + 1
      ensures (answer, inbound) == Listen(old(inbound), msgId)
    {
      msgId := msgId + 1;
      while inbound != []
        invariant msgId == old(msgId) + 1
        invariant Listen(inbound, msgId) == Listen(old(inbound), msgId)
        decreases |inbound|
      {
        var next := inbound[0];
        inbound := inbound[1..];
        if next.Silence? {
          return Expired;
        }
        if next.raw.Undecodable? {
          return Raised;
        }
        if next.raw.msg.id == Some(msgId) {
          return Reply(next.raw.msg);
        }
      }
      return Raised;
    }
  }

  predicate Carries(frame: Raw, id: int) {
    frame.Decoded? && frame.msg.id == Some(id)
  }

  // What the loop reads over: a frame that decodes and carries another id.
  predicate Skipped(next: Received, id: int) {
    next.Frame? && next.raw.Decoded? && !Carries(next.raw, id)
  }

  // A call ends at the first thing it cannot skip, wherever that is: with the reply,
  // by raising, or by timing out. What follows is left for the next call.
  lemma {:induction false} ListenStops(inbound: seq<Received>, id: int, k: nat)
    requires k < |inbound| && !Skipped(inbound[k], id)
    requires forall i :: 0 <= i < k ==> Skipped(inbound[i], id)
    ensures Listen(inbound, id).1 == inbound[k + 1..]
    ensures Listen(inbound, id).0 ==
            if inbound[k].Silence? then Expired
            else if inbound[k].raw.Undecodable? then Raised
            else Reply(inbound[k].raw.msg)
  {
    if k > 0 {
      ListenStops(inbound[1..], id, k - 1);
    }
  }

  // With nothing but frames to skip, the call reads everything and raises.
  lemma {:induction false} ListenExhausts(inbound: seq<Received>, id: int)
    requires forall i :: 0 <= i < |inbound| ==> Skipped(inbound[i], id)
    ensures Listen(inbound, id) == (Raised, [])
  {
    if inbound != [] {
      ListenExhausts(inbound[1..], id);
    }
  }

  // A stream of frames without a silence.
  function Frames(raws: seq<Raw>): (r: seq<Received>)
    ensures |r| == |raws| && forall i :: 0 <= i < |raws| ==> r[i] == Frame(raws[i])
  {
    seq(|raws|, i requires 0 <= i < |raws| => Frame(raws[i]))
  }
}

/** The dispatching transport answers as the sequential one does. */
module CdpRefinement {
  import opened OptionType
  import opened CdpTransport
  import opened SequentialClient
  import opened Sequences

  // rounds[g] holds the frames that arrive after call g is sent and before the
  // next call is.
  type Rounds = seq<seq<Raw>>

  function Stream(rounds: Rounds): seq<Raw> {
    if rounds == [] then [] else rounds[0] + Stream(rounds[1..])
  }

  function Arrivals(frames: seq<Raw>): (r: seq<Step>)
    ensures |r| == |frames|
  {
    seq(|frames|, i requires 0 <= i < |frames| => Arrive(frames[i]))
  }

  // The same conversation as a trace of the dispatching transport.
  function Conversation(rounds: Rounds): seq<Step> {
    if rounds == [] then [] else [Send] + Arrivals(rounds[0]) + Conversation(rounds[1..])
  }

  ghost function RunAll(s: State, trace: seq<Step>): State
    requires s.WellFormed()
  {
    After(s, trace, |trace|)
  }

  lemma {:induction false} AfterConcat(s: State, a: seq<Step>, b: seq<Step>, n: nat)
    requires s.WellFormed() && n <= |b|
    ensures After(s, a + b, |a| + n) == After(RunAll(s, a), b, n)
  {
    if n == 0 {
      AfterPrefix(s, a, b, |a|);
    } else {
      AfterConcat(s, a, b, n - 1);
    }
  }

  lemma {:induction false} AfterPrefix(s: State, a: seq<Step>, b: seq<Step>, n: nat)
    requires s.WellFormed() && n <= |a|
    ensures After(s, a + b, n) == After(s, a, n)
  {
    if n > 0 { AfterPrefix(s, a, b, n - 1); }
  }

  ghost predicate AllDecoded(frames: seq<Raw>) {
    forall i :: 0 <= i < |frames| ==> frames[i].Decoded?
  }

  // No frame carries an id above the given one.
  ghost predicate NoneAbove(frames: seq<Raw>, id: int) {
    forall i, k :: 0 <= i < |frames| && id < k ==> !Carries(frames[i], k)
  }

  // The reply to `id` is there, and every frame before it decodes.
  ghost predicate Answered(frames: seq<Raw>, id: int) {
    exists k :: 0 <= k < |frames| && Carries(frames[k], id) && AllDecoded(frames[..k])
  }

  // Replies come only to ids already sent, and one call is outstanding at a time:
  // each call but the last gets its answer before the next one is sent. So the
  // reader must still be reading at each of those answers: an undecodable frame can
  // come only behind the last but one of them.
  ghost predicate Orderly(rounds: Rounds, msgId: int) {
    rounds != [] ==>
      && NoneAbove(rounds[0], msgId + 1)
      && (|rounds| > 1 ==> Answered(rounds[0], msgId + 1))
      && (|rounds| > 2 ==> AllDecoded(rounds[0]))
      && Orderly(rounds[1..], msgId + 1)
  }

  // Between calls: nothing outstanding, the reader running.
  ghost predicate Idle(s: State) {
    s.reading && s.registered == map[] && s.msgId == |s.futures|
  }

  ghost predicate SameAnswer(f: Future, a: Answer) {
    match f
    case Resolved(m) => a == Reply(m)
    case Pending => a == Raised
    case Cancelled => false
  }

  // One frame while call `s.msgId` is the only one that may be outstanding.
  lemma FrameStep(s: State, frame: Raw)
    requires s.WellFormed() && s.reading && frame.Decoded? && s.msgId == |s.futures| > 0
    requires s.registered == map[] || (s.registered == map[s.msgId := s.msgId - 1] && s.futures[s.msgId - 1].Pending?)
    ensures var r := Apply(s, Arrive(frame));
            && r.reading && r.msgId == s.msgId
            && if s.registered != map[] && Carries(frame, s.msgId) then
                 r.registered == map[] && r.futures == s.futures[s.msgId - 1 := Resolved(frame.msg)]
               else r.registered == s.registered && r.futures == s.futures
  {
    if s.registered != map[] && Carries(frame, s.msgId) {
      assert Apply(s, Arrive(frame)).registered == map[];
    }
  }

  // The one outstanding call is the last one sent.
  ghost predicate Outstanding(s: State) {
    && s.reading && s.msgId == |s.futures| > 0
    && s.registered == map[s.msgId := s.msgId - 1] && s.futures[s.msgId - 1].Pending?
  }

  // Where a round stops mattering: u is its first undecodable frame, or its end;
  // k the first frame before that with the call's id, or u.
  ghost predicate Cut(frames: seq<Raw>, id: int, k: nat, u: nat) {
    && k <= u <= |frames|
    && (forall i :: 0 <= i < u ==> frames[i].Decoded?)
    && (u < |frames| ==> frames[u].Undecodable?)
    && (forall i :: 0 <= i < k ==> !Carries(frames[i], id))
    && (k < u ==> Carries(frames[k], id))
  }

  lemma FindCut(frames: seq<Raw>, id: int) returns (k: nat, u: nat)
    ensures Cut(frames, id, k, u)
    ensures Answered(frames, id) ==> k < u
    ensures AllDecoded(frames) <==> u == |frames|
  {
    u := 0;
    while u < |frames| && frames[u].Decoded?
      invariant u <= |frames| && forall i :: 0 <= i < u ==> frames[i].Decoded?
    {
      u := u + 1;
    }
    k := 0;
    while k < u && !Carries(frames[k], id)
      invariant k <= u && forall i :: 0 <= i < k ==> !Carries(frames[i], id)
    {
      k := k + 1;
    }
    if Answered(frames, id) {
      var a :| 0 <= a < |frames| && Carries(frames[a], id) && AllDecoded(frames[..a]);
      assert forall i :: 0 <= i < a ==> frames[i] == frames[..a][i];
    }
  }

  // n frames into a round: the call's future has taken the first frame with its id,
  // frame k, if that has come, and no other frame has changed any future.
  ghost predicate Midway(s: State, frames: seq<Raw>, k: nat, n: nat, r: State)
    requires Outstanding(s) && k <= |frames| && n <= |frames|
  {
    && r.reading && r.msgId == s.msgId
    && if k < n then frames[k].Decoded? && r.registered == map[] && r.futures == s.futures[s.msgId - 1 := Resolved(frames[k].msg)]
       else r.registered == s.registered && r.futures == s.futures
  }

  lemma MidwayStep(s: State, frames: seq<Raw>, k: nat, u: nat, n: nat, r: State)
    requires r.WellFormed() && Outstanding(s) && Cut(frames, s.msgId, k, u) && n < u
    requires Midway(s, frames, k, n, r)
    ensures Midway(s, frames, k, n + 1, Apply(r, Arrive(frames[n])))
  {
    FrameStep(r, frames[n]);
  }

  lemma {:induction false} RoundFrames(s: State, frames: seq<Raw>, k: nat, u: nat, n: nat)
    requires s.WellFormed() && Outstanding(s) && Cut(frames, s.msgId, k, u) && n <= u
    ensures Midway(s, frames, k, n, After(s, Arrivals(frames), n))
  {
    if n > 0 {
      RoundFrames(s, frames, k, u, n - 1);
      MidwayStep(s, frames, k, u, n - 1, After(s, Arrivals(frames), n - 1));
    }
  }

  // The whole round: past an undecodable frame the reader is gone.
  lemma RoundEnds(s: State, frames: seq<Raw>, k: nat, u: nat)
    requires s.WellFormed() && Outstanding(s) && Cut(frames, s.msgId, k, u)
    ensures var r := RunAll(s, Arrivals(frames));
            && r.msgId == s.msgId
            && r.futures == (if k < u then s.futures[s.msgId - 1 := Resolved(frames[k].msg)] else s.futures)
            && (u == |frames| ==> r.reading && (k < u ==> r.registered == map[]))
            && (u < |frames| ==> !r.reading)
  {
    RoundFrames(s, frames, k, u, u);
    if u < |frames| {
      var trace := Arrivals(frames);
      assert After(s, trace, u + 1) == Apply(After(s, trace, u), Arrive(frames[u]));
      DeadReaderIgnoresFrames(s, trace, u + 1, |frames|);
    }
  }

  // A call sent after the reader is gone.
  lemma DeadRound(s: State, frames: seq<Raw>)
    requires s.WellFormed() && !s.reading
    ensures RunAll(Apply(s, Send), Arrivals(frames)).futures == s.futures + [Pending]
  {
    DeadReaderIgnoresFrames(Apply(s, Send), Arrivals(frames), 0, |frames|);
  }

  lemma SendOutstanding(s: State)
    requires Idle(s)
    ensures s.WellFormed() && Outstanding(Apply(s, Send)) && Apply(s, Send).msgId == s.msgId + 1
    ensures Apply(s, Send).futures == s.futures + [Pending]
  {
    assert Apply(s, Send).registered == map[s.msgId + 1 := s.msgId];
  }

  // What is still unread from earlier rounds is skipped.
  lemma SkipUnread(unread: seq<Raw>, msgId: int, rest: seq<Raw>)
    requires AllDecoded(unread) && NoneAbove(unread, msgId)
    ensures forall i :: 0 <= i < |unread| ==> Skipped(Frames(unread + rest)[i], msgId + 1)
  {
    forall i | 0 <= i < |unread| ensures Skipped(Frames(unread + rest)[i], msgId + 1) {
      assert (unread + rest)[i] == unread[i] && !Carries(unread[i], msgId + 1);
    }
  }

  // A round with its reply before any undecodable frame.
  lemma AnsweredScan(unread: seq<Raw>, frames: seq<Raw>, later: seq<Raw>, msgId: int, k: nat, u: nat)
    requires AllDecoded(unread) && NoneAbove(unread, msgId)
    requires Cut(frames, msgId + 1, k, u) && k < u
    ensures Listen(Frames(unread + (frames + later)), msgId + 1) == (Reply(frames[k].msg), Frames(frames[k + 1..] + later))
  {
    var raws := unread + (frames + later);
    SkipUnread(unread, msgId, frames + later);
    assert forall i :: 0 <= i < k ==> raws[|unread| + i] == frames[i];
    ListenStops(Frames(raws), msgId + 1, |unread| + k);
    assert Frames(raws)[|unread| + k + 1..] == Frames(frames[k + 1..] + later);
  }

  // The last round without a reply before its cut.
  lemma UnansweredScan(unread: seq<Raw>, frames: seq<Raw>, msgId: int, u: nat)
    requires AllDecoded(unread) && NoneAbove(unread, msgId) && Cut(frames, msgId + 1, u, u)
    ensures Listen(Frames(unread + frames), msgId + 1).0 == Raised
  {
    var raws := unread + frames;
    SkipUnread(unread, msgId, frames);
    assert forall i :: 0 <= i < |frames| ==> raws[|unread| + i] == frames[i];
    if u < |frames| {
      ListenStops(Frames(raws), msgId + 1, |unread| + u);
    } else {
      ListenExhausts(Frames(raws), msgId + 1);
    }
  }

  // An undecodable frame among what is unread makes the next call raise.
  lemma PoisonedScan(unread: seq<Raw>, later: seq<Raw>, msgId: int, u: nat)
    requires NoneAbove(unread, msgId) && u < |unread| && unread[u].Undecodable?
    requires forall i :: 0 <= i < u ==> unread[i].Decoded?
    ensures Listen(Frames(unread + later), msgId + 1).0 == Raised
  {
    forall i | 0 <= i < u ensures Skipped(Frames(unread + later)[i], msgId + 1) {
      assert (unread + later)[i] == unread[i] && !Carries(unread[i], msgId + 1);
    }
    ListenStops(Frames(unread + later), msgId + 1, u);
  }

  lemma RunConcat(s: State, a: seq<Step>, b: seq<Step>)
    requires s.WellFormed()
    ensures RunAll(s, a + b) == RunAll(RunAll(s, a), b)
  {
    AfterConcat(s, a, b, |b|);
  }

  lemma RunSend(s: State)
    requires s.WellFormed()
    ensures RunAll(s, [Send]) == Apply(s, Send)
  {
    assert After(s, [Send], 0) == s;
  }

  lemma ConversationStep(s: State, rounds: Rounds)
    requires s.WellFormed() && rounds != []
    ensures RunAll(s, Conversation(rounds)) ==
            RunAll(RunAll(Apply(s, Send), Arrivals(rounds[0])), Conversation(rounds[1..]))
  {
    var frames, tail := Arrivals(rounds[0]), Conversation(rounds[1..]);
    RunConcat(s, [Send] + frames, tail);
    RunConcat(s, [Send], frames);
    RunSend(s);
  }

  // The futures after `before` are those of consecutive calls with these answers.
  ghost predicate Extends(futures: seq<Future>, before: seq<Future>, answers: seq<Answer>) {
    && |futures| == |before| + |answers|
    && futures[..|before|] == before
    && forall g :: 0 <= g < |answers| ==> SameAnswer(futures[|before| + g], answers[g])
  }

  lemma ExtendsStep(futures: seq<Future>, before: seq<Future>, f: Future, a: Answer, answers: seq<Answer>)
    requires Extends(futures, before + [f], answers) && SameAnswer(f, a)
    ensures Extends(futures, before, [a] + answers)
  {
    var n := |before|;
    assert futures[..n + 1][..n] == futures[..n] && (before + [f])[..n] == before;
    assert futures[n] == futures[..n + 1][n] == f;
    forall g | 0 <= g < |answers| + 1 ensures SameAnswer(futures[n + g], ([a] + answers)[g]) {
      if g > 0 { assert SameAnswer(futures[|before + [f]| + (g - 1)], answers[g - 1]); }
    }
  }

  lemma ExtendsOne(before: seq<Future>, f: Future, a: Answer)
    requires SameAnswer(f, a)
    ensures Extends(before + [f], before, [a])
  {
  }

  // Agreement of both transports on every call of the rounds, from a state of each.
  ghost predicate Agree(s: State, unread: seq<Raw>, rounds: Rounds)
    requires s.WellFormed()
  {
    Extends(RunAll(s, Conversation(rounds)).futures, s.futures,
            Answers(Frames(unread + Stream(rounds)), s.msgId, |rounds|))
  }

  lemma OneAnswer(inbound: seq<Received>, msgId: int)
    ensures Answers(inbound, msgId, 1) == [Listen(inbound, msgId + 1).0]
  {
    var rest := Listen(inbound, msgId + 1).1;
    assert Answers(rest, msgId + 1, 0) == [];
  }

  // What the scan gives for a last round.
  lemma LastScan(unread: seq<Raw>, frames: seq<Raw>, msgId: int, k: nat, u: nat)
    requires AllDecoded(unread) && NoneAbove(unread, msgId) && Cut(frames, msgId + 1, k, u)
    ensures Answers(Frames(unread + frames), msgId, 1) == [if k < u then Reply(frames[k].msg) else Raised]
  {
    Units(frames);
    if k < u {
      AnsweredScan(unread, frames, [], msgId, k, u);
    } else {
      UnansweredScan(unread, frames, msgId, u);
    }
    OneAnswer(Frames(unread + frames), msgId);
  }

  lemma LastRound(s: State, unread: seq<Raw>, frames: seq<Raw>)
    requires Idle(s) && AllDecoded(unread) && NoneAbove(unread, s.msgId)
    ensures Agree(s, unread, [frames])
  {
    SendOutstanding(s);
    var k, u := FindCut(frames, s.msgId + 1);
    RoundEnds(Apply(s, Send), frames, k, u);
    OneConversation(s, frames);
    LastScan(unread, frames, s.msgId, k, u);
    var f, a := if k < u then Resolved(frames[k].msg) else Pending, if k < u then Reply(frames[k].msg) else Raised;
    assert RunAll(s, Conversation([frames])).futures == s.futures + [f];
    ExtendsOne(s.futures, f, a);
  }

  lemma OneConversation(s: State, frames: seq<Raw>)
    requires s.WellFormed()
    ensures RunAll(s, Conversation([frames])) == RunAll(Apply(s, Send), Arrivals(frames))
    ensures Stream([frames]) == frames
  {
    ConversationStep(s, [frames]);
    assert [frames][1..] == [];
    assert Conversation([]) == [] && Stream([]) == [];
    Units(frames);
  }

  lemma DeadLastRound(s: State, unread: seq<Raw>, frames: seq<Raw>, u: nat)
    requires s.WellFormed() && !s.reading && NoneAbove(unread, s.msgId)
    requires u < |unread| && unread[u].Undecodable? && forall i :: 0 <= i < u ==> unread[i].Decoded?
    ensures Agree(s, unread, [frames])
  {
    DeadRound(s, frames);
    OneConversation(s, frames);
    PoisonedScan(unread, frames, s.msgId, u);
    OneAnswer(Frames(unread + frames), s.msgId);
    ExtendsOne(s.futures, Pending, Raised);
  }

  lemma AnswersCons(inbound: seq<Received>, msgId: int, calls: nat, a: Answer, rest: seq<Received>)
    requires calls > 0 && Listen(inbound, msgId + 1) == (a, rest)
    ensures Answers(inbound, msgId, calls) == [a] + Answers(rest, msgId + 1, calls - 1)
  {
  }

  // Agreement on the later rounds extends to one before them, when its call gets f
  // from one transport and a from the other.
  lemma AgreeStep(s: State, unread: seq<Raw>, rounds: Rounds, t: State, rest: seq<Raw>, f: Future, a: Answer)
    requires s.WellFormed() && rounds != [] && SameAnswer(f, a)
    requires t.WellFormed() && t == RunAll(Apply(s, Send), Arrivals(rounds[0]))
    requires t.msgId == s.msgId + 1 && t.futures == s.futures + [f]
    requires Listen(Frames(unread + Stream(rounds)), s.msgId + 1) == (a, Frames(rest + Stream(rounds[1..])))
    requires Agree(t, rest, rounds[1..])
    ensures Agree(s, unread, rounds)
  {
    var tail := rounds[1..];
    var later := Frames(rest + Stream(tail));
    ConversationStep(s, rounds);
    AnswersCons(Frames(unread + Stream(rounds)), s.msgId, |rounds|, a, later);
    ExtendsStep(RunAll(t, Conversation(tail)).futures, s.futures, f, a, Answers(later, t.msgId, |tail|));
  }

  lemma {:induction false} RoundsAgree(s: State, unread: seq<Raw>, rounds: Rounds)
    requires Idle(s) && AllDecoded(unread) && NoneAbove(unread, s.msgId)
    requires rounds != [] && Orderly(rounds, s.msgId)
    ensures Agree(s, unread, rounds)
    decreases |rounds|
  {
    if |rounds| == 1 {
      LastRound(s, unread, rounds[0]);
      assert rounds == [rounds[0]];
    } else {
      var frames, tail := rounds[0], rounds[1..];
      SendOutstanding(s);
      var k, u := FindCut(frames, s.msgId + 1);
      RoundEnds(Apply(s, Send), frames, k, u);
      var t, rest := RunAll(Apply(s, Send), Arrivals(frames)), frames[k + 1..];
      AnsweredScan(unread, frames, Stream(tail), s.msgId, k, u);
      if u == |frames| {
        RoundsAgree(t, rest, tail);
      } else {
        assert tail == [tail[0]];
        DeadLastRound(t, rest, tail[0], u - (k + 1));
      }
      AgreeStep(s, unread, rounds, t, rest, Resolved(frames[k].msg), Reply(frames[k].msg));
    }
  }

  // For every orderly conversation each call gets the same reply, or the same
  // lack of one, from both transports; so it returns the same result, and fails
  // on the same error frames. Frames are JSON objects with hashable ids, or do not
  // decode: on these both clients raise together.
  lemma DispatchRefinesScan(rounds: Rounds, g: nat)
    requires Orderly(rounds, 0) && g < |rounds|
    ensures |RunAll(INIT, Conversation(rounds)).futures| == |rounds|
    ensures var f, a := RunAll(INIT, Conversation(rounds)).futures[g], Answers(Frames(Stream(rounds)), 0, |rounds|)[g];
            && SameAnswer(f, a)
            && (forall v :: CallOutcome(f) == Success(v) <==> a.Reply? && Returned(a.msg) == Some(v))
            && (CallOutcome(f).Failure? <==> a.Reply? && Returned(a.msg) == None)
  {
    RoundsAgree(INIT, [], rounds);
    Units(Stream(rounds));
    assert SameAnswer(RunAll(INIT, Conversation(rounds)).futures[0 + g], Answers(Frames(Stream(rounds)), 0, |rounds|)[g]);
  }

  // The hypothesis is needed: after an undecodable frame the sequential client
  // raises once and goes on, while the reader is gone for good. The calls part at
  // the first one sent after a call that got no answer.
  lemma UndecodableSeparates(second: Message)
    requires second.id == Some(2)
    ensures var rounds := [[Undecodable], [Decoded(second)]];
            && RunAll(INIT, Conversation(rounds)).futures == [Pending, Pending]
            && Answers(Frames(Stream(rounds)), 0, 2) == [Raised, Reply(second)]
  {
    var first, rounds := [Undecodable], [[Undecodable], [Decoded(second)]];
    SendOutstanding(INIT);
    assert Cut(first, 1, 0, 0);
    RoundEnds(Apply(INIT, Send), first, 0, 0);
    var t := RunAll(Apply(INIT, Send), Arrivals(first));
    ConversationStep(INIT, rounds);
    assert rounds[1..] == [[Decoded(second)]];
    DeadRound(t, [Decoded(second)]);
    OneConversation(t, [Decoded(second)]);
    assert Stream(rounds) == [Undecodable, Decoded(second)];
    var inbound := Frames(Stream(rounds));
    ListenStops(inbound, 1, 0);
    ListenStops(inbound[1..], 2, 0);
    assert Answers(inbound[1..], 1, 1) == [Reply(second)];
  }

  // Replies must not overtake their requests: a reply to call 1 read before it
  // is sent is buffered for the sequential client and dropped by the reader.
  lemma EarlyReplySeparates(first: Message, second: Message)
    requires first.id == Some(1) && second.id == Some(2)
    ensures var rounds := [[Decoded(first), Decoded(second)], []];
            && RunAll(INIT, Conversation(rounds)).futures == [Resolved(first), Pending]
            && Answers(Frames(Stream(rounds)), 0, 2) == [Reply(first), Reply(second)]
  {
    var rounds := [[Decoded(first), Decoded(second)], []];
    var trace := Conversation(rounds);
    assert Conversation(rounds[1..]) == [Send];
    assert trace == [Send, Arrive(Decoded(first)), Arrive(Decoded(second)), Send];
    assert After(INIT, trace, 1) == State(1, map[1 := 0], [Pending], map[], true);
    assert After(INIT, trace, 2) == State(1, map[], [Resolved(first)], map[], true);
    assert After(INIT, trace, 3).futures == [Resolved(first)];
  }
}
