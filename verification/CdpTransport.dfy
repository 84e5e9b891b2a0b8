/**
  The CDP transport of the CEF benchmark script: callers allocate ids and
  register futures, one background reader dispatches frames to futures or to
  per-event queues, calls may time out.

  `State` and `Apply` are the value-level step relation; class `Transport` is
  the code, updating its fields in place, each method proved to take exactly one
  such step (or, for the reader loop, exactly the steps of its frames).
 */
module CdpTransport {
  import opened OptionType

  // Payloads are carried, never inspected.
  type Json = string

  // A frame that decodes to a JSON object with hashable "id" and "method".
  datatype Message = Message(id: Option<int>, name: Option<string>, error: Option<Json>, result: Option<Json>)

  // Undecodable: a frame on which json.loads raises, or the lookups of every client do.
  datatype Raw = Undecodable | Decoded(msg: Message)

  datatype Future = Pending | Resolved(reply: Message) | Cancelled

  // One step between two awaits. Calls are named by the index of their future.
  datatype Step =
    | Send
    | Arrive(raw: Raw)
    | Close
    | Timeout(call: nat)
    | Drain(name: string)
    | Take(name: string)

  // futures lists every future object ever created, oldest first; registered
  // maps an id to its future object.
  datatype State = State(
    msgId: nat,
    registered: map<int, nat>,
    futures: seq<Future>,
    queues: map<string, seq<Message>>,
    reading: bool)
  {
    ghost predicate WellFormed() {
      forall id :: id in registered ==> registered[id] < |futures|
    }

    function Queue(name: string): seq<Message> {
      if name in queues then queues[name] else []
    }
  }

  const INIT: State := State(0, map[], [], map[], true)

  // Removing the entry comes first; set_result on a settled future raises,
  // which ends the reader.
  function Settle(s: State, id: int, m: Message): (r: State)
    requires s.WellFormed() && id in s.registered
    ensures r.WellFormed()
  {
    var f := s.registered[id];
    var popped := s.(registered := s.registered - {id});
    if s.futures[f].Pending? then popped.(futures := s.futures[f := Resolved(m)])
    else popped.(reading := false)
  }

  function Dispatch(s: State, m: Message): (r: State)
    requires s.WellFormed()
    ensures r.WellFormed()
  {
    if m.id.Some? && m.id.value in s.registered then Settle(s, m.id.value, m)
    else if m.name.Some? then s.(queues := s.queues[m.name.value := s.Queue(m.name.value) + [m]])
    else s
  }

  function Apply(s: State, step: Step): (r: State)
    requires s.WellFormed()
    ensures r.WellFormed()
  {
    match step
    case Send =>
      s.(msgId := s.msgId + 1,
         registered := s.registered[s.msgId + 1 := |s.futures|],
         futures := s.futures + [Pending])
    case Arrive(raw) =>
      if !s.reading then s
      else if raw.Undecodable? then s.(reading := false)
      else Dispatch(s, raw.msg)
    case Close => s.(reading := false)
    case Timeout(call) =>
      if call < |s.futures| && s.futures[call].Pending? then s.(futures := s.futures[call := Cancelled]) else s
    case Drain(name) => s.(queues := s.queues[name := []])
    case Take(name) =>
      if s.Queue(name) == [] then s else s.(queues := s.queues[name := s.Queue(name)[1..]])
  }

  // The state after the first n steps of a trace.
  function After(start: State, trace: seq<Step>, n: nat): (r: State)
    requires start.WellFormed() && n <= |trace|
    ensures r.WellFormed()
  {
    if n == 0 then start else Apply(After(start, trace, n - 1), trace[n - 1])
  }

  // What cdp_send hands its caller once its future is settled.
  datatype Outcome = Waiting | TimedOut | Failure(error: Json) | Success(result: Json)

  const EMPTY_OBJECT: Json := "{}"

  function CallOutcome(f: Future): Outcome {
    match f
    case Pending => Waiting
    case Cancelled => TimedOut
    case Resolved(m) =>
      if m.error.Some? then Failure(m.error.value)
      else Success(if m.result.Some? then m.result.value else EMPTY_OBJECT)
  }

  /** The steps the reader takes for a run of frames followed by the end of the stream. */
  function ReaderSteps(inbound: seq<Raw>): seq<Step> {
    seq(|inbound|, i requires 0 <= i < |inbound| => Arrive(inbound[i])) + [Close]
  }

  predicate ReaderStep(step: Step) {
    step.Arrive? || step.Close?
  }

  lemma DeadReaderStays(start: State, trace: seq<Step>, n: nat, dead: State)
    requires start.WellFormed() && n < |trace| && ReaderStep(trace[n])
    requires After(start, trace, n) == dead && !dead.reading
    ensures After(start, trace, n + 1) == dead
  {
  }

  lemma {:induction false} DeadReaderIgnoresFrames(start: State, trace: seq<Step>, i: nat, n: nat)
    requires start.WellFormed() && i <= n <= |trace|
    requires !After(start, trace, i).reading
    requires forall k :: i <= k < n ==> ReaderStep(trace[k])
    ensures After(start, trace, n) == After(start, trace, i)
  {
    if i < n {
      DeadReaderIgnoresFrames(start, trace, i, n - 1);
      DeadReaderStays(start, trace, n - 1, After(start, trace, i));
    }
  }

  class Transport {
    var msgId: nat
    var responseFutures: map<int, nat>
    var futures: seq<Future>
    var eventQueues: map<string, seq<Message>>
    var reading: bool

    ghost function Model(): State
      reads this
    {
      State(msgId, responseFutures, futures, eventQueues, reading)
    }

    ghost predicate Valid()
      reads this
    {
      Model().WellFormed()
    }

    constructor ()
      ensures Valid() && Model() == INIT
    {
      msgId, responseFutures, futures, eventQueues, reading := 0, map[], [], map[], true;
    }

    // The registering half of cdp_send: no await separates these assignments.
    method StartCall() returns (call: nat)
      requires Valid()
      modifies this
      ensures Valid() && Model() == Apply(old(Model()), Send)
      ensures call == old(|futures|)
    {
      msgId := msgId + 1;
      call := |futures|;
      futures := futures + [Pending];
      responseFutures := responseFutures[msgId := call];
    }

    // wait_for gives up on the call's future; the map entry stays.
    method ExpireCall(call: nat)
      requires Valid() && call < |futures|
      modifies this
      ensures Valid() && Model() == Apply(old(Model()), Timeout(call))
    {
      if futures[call].Pending? {
        futures := futures[call := Cancelled];
      }
    }

    method GetEventQueue(name: string) returns (q: seq<Message>)
      modifies `eventQueues
      ensures q == old(Model().Queue(name)) && name in eventQueues
      ensures eventQueues == old(eventQueues)[name := q]
    {
      if name !in eventQueues {
        eventQueues := eventQueues[name := []];
      }
      q := eventQueues[name];
      assert eventQueues == old(eventQueues)[name := q];
    }

    // One pass of the reader loop; `reading` falls where an exception would leave the loop.
    method HandleFrame(raw: Raw)
      requires Valid() && reading
      modifies this
      ensures Valid() && Model() == Apply(old(Model()), Arrive(raw))
    {
      match raw
      case Undecodable => reading := false;
      case Decoded(m) =>
        if m.id.Some? && m.id.value in responseFutures {
          var id := m.id.value;
          var f := responseFutures[id];
          assert f == Model().registered[id];
          responseFutures := responseFutures - {id};
          if futures[f].Pending? {
            futures := futures[f := Resolved(m)];
          } else {
            reading := false;
          }
        } else if m.name.Some? {
          var q := GetEventQueue(m.name.value);
          eventQueues := eventQueues[m.name.value := q + [m]];
        }
    }

    // The whole reader when nothing else is scheduled between frames.
    method Reader(inbound: seq<Raw>)
      requires Valid()
      modifies this
      ensures Valid() && !reading
      ensures Model() == After(old(Model()), ReaderSteps(inbound), |inbound| + 1)
    {
      ghost var start, steps := Model(), ReaderSteps(inbound);
      var i := 0;
      while i < |inbound| && reading
        invariant 0 <= i <= |inbound| && Valid()
        invariant Model() == After(start, steps, i)
      {
        HandleFrame(inbound[i]);
        i := i + 1;
      }
      if !reading { DeadReaderIgnoresFrames(start, steps, i, |inbound|); }
      reading := false;
    }

    // The loop that empties a queue before waiting on it.
    method DrainQueue(name: string)
      requires Valid()
      modifies this
      ensures Valid() && Model() == Apply(old(Model()), Drain(name))
    {
      var q := GetEventQueue(name);
      while q != []
        invariant eventQueues == old(eventQueues)[name := q]
        invariant Model() == old(Model()).(queues := eventQueues)
      {
        q := q[1..];
        eventQueues := eventQueues[name := q];
      }
    }

    // q.get() once the queue holds an event.
    method TakeEvent(name: string) returns (m: Message)
      requires Valid() && Model().Queue(name) != []
      modifies this
      ensures Valid() && Model() == Apply(old(Model()), Take(name))
      ensures m == old(Model().Queue(name))[0]
    {
      var q := eventQueues[name];
      m := q[0];
      eventQueues := eventQueues[name := q[1..]];
    }
  }
}
