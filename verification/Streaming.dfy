/** Response streaming in `hell-http-host`: sinks that send into a bounded
    channel, and the engine that polls it. Steps are atomic and interleave
    freely; a flush meets the engine in a rendezvous. */
module Streaming {
  import opened Utf8

  const CAPACITY: nat := 2

  type CallId = nat
  type SinkId = nat

  datatype Message = Data(bytes: seq<byte>) | Flush(call: CallId) | Failure
  datatype Entry = Entry(sink: SinkId, message: Message)
  datatype Frame = DataFrame(sink: SinkId, bytes: seq<byte>) | FailureFrame

  /** `Starting` calls have yet to look at the cancellation flag. `Waiting`
      calls have put a flush at position `at` of everything sent. */
  datatype Call =
    | Starting(sink: SinkId, bytes: seq<byte>)
    | Enqueuing(sink: SinkId, message: Message)
    | Waiting(sink: SinkId, at: nat)

  datatype Engine = Idle | Answering(call: CallId)

  /** `frames` is what the engine yielded; `sent` and `polled` record the
      messages that went into and came out of the channel. */
  datatype State = State(
    open: bool,
    cancelled: bool,
    completed: bool,
    sinks: set<SinkId>,
    calls: map<CallId, Call>,
    queue: seq<Entry>,
    engine: Engine,
    frames: seq<Frame>,
    sent: seq<Entry>,
    polled: seq<Entry>)

  datatype Step =
    | Clone(from: SinkId, sink: SinkId)
    | DropSink(sink: SinkId)
    | BeginSend(id: CallId, sink: SinkId, bytes: seq<byte>)
    | Check(id: CallId)
    | BeginFlush(id: CallId, sink: SinkId)
    | BeginFailure(id: CallId, sink: SinkId)
    | Enqueue(id: CallId)
    | FlushFails(id: CallId)
    | Poll
    | Answer
    | End
    | Close
    | Cancel

  function Start(): State {
    State(true, false, false, {0}, map[], [], Idle, [], [], [])
  }

  predicate Enabled(s: State, step: Step) {
    match step
    case Clone(from, sink) => from in s.sinks && sink !in s.sinks
    case DropSink(sink) => sink in s.sinks && forall id :: id in s.calls ==> s.calls[id].sink != sink
    case BeginSend(id, sink, _) => id !in s.calls && sink in s.sinks
    case Check(id) => id in s.calls && s.calls[id].Starting?
    case BeginFlush(id, sink) => id !in s.calls && sink in s.sinks
    case BeginFailure(id, sink) => id !in s.calls && sink in s.sinks
    case Enqueue(id) => id in s.calls && s.calls[id].Enqueuing? && (s.open ==> |s.queue| < CAPACITY)
    case FlushFails(id) => id in s.calls && s.calls[id].Waiting? && !s.open
    case Poll => s.open && s.engine.Idle? && s.queue != []
    case Answer => s.engine.Answering? && s.engine.call in s.calls && s.calls[s.engine.call].Waiting?
    case End => s.open && s.engine.Idle? && s.queue == [] && s.sinks == {}
    case Close => s.open && s.engine.Idle?
    case Cancel => true
  }

  function Yielded(entry: Entry): seq<Frame> {
    match entry.message
    case Data(bytes) => [DataFrame(entry.sink, bytes)]
    case Flush(_) => []
    case Failure => [FailureFrame]
  }

  function Apply(s: State, step: Step): State
    requires Enabled(s, step)
  {
    match step
    case Clone(_, sink) => s.(sinks := s.sinks + {sink})
    case DropSink(sink) => s.(sinks := s.sinks - {sink})
    case BeginSend(id, sink, bytes) => s.(calls := s.calls[id := Starting(sink, bytes)])
    case Check(id) =>
      if s.cancelled then s.(calls := s.calls - {id})
      else s.(calls := s.calls[id := Enqueuing(s.calls[id].sink, Data(s.calls[id].bytes))])
    case BeginFlush(id, sink) => s.(calls := s.calls[id := Enqueuing(sink, Flush(id))])
    case BeginFailure(id, sink) => s.(calls := s.calls[id := Enqueuing(sink, Failure)])
    case Enqueue(id) =>
      var entry := Entry(s.calls[id].sink, s.calls[id].message);
      if !s.open then s.(calls := s.calls - {id})
      else
        s.(queue := s.queue + [entry], sent := s.sent + [entry],
           calls := if entry.message.Flush? then s.calls[id := Waiting(entry.sink, |s.sent|)] else s.calls - {id})
    case FlushFails(id) => s.(calls := s.calls - {id})
    case Poll =>
      var entry := s.queue[0];
      s.(queue := s.queue[1..], polled := s.polled + [entry], frames := s.frames + Yielded(entry),
         engine := if entry.message.Flush? then Answering(entry.message.call) else Idle)
    case Answer => s.(engine := Idle, calls := s.calls - {s.engine.call})
    case End => s.(completed := true)
    case Close => s.(open := false, queue := [], cancelled := s.cancelled || !s.completed)
    case Cancel => s.(cancelled := true)
  }

  ghost predicate Run(states: seq<State>, steps: seq<Step>) {
    && |states| == |steps| + 1 && states[0] == Start()
    && forall i :: 0 <= i < |steps| ==> Enabled(states[i], steps[i]) && states[i + 1] == Apply(states[i], steps[i])
  }

  // -----------------------------------------------------------------------
  // What every step keeps

  function Frames(entries: seq<Entry>): seq<Frame> {
    if entries == [] then [] else Frames(entries[..|entries| - 1]) + Yielded(entries[|entries| - 1])
  }

  /** The channel is a bounded queue; what it has not lost comes out in order. */
  ghost predicate Fifo(s: State) {
    && |s.queue| <= CAPACITY
    && (if s.open then s.sent == s.polled + s.queue else s.queue == [] && s.polled <= s.sent)
    && s.frames == Frames(s.polled)
    && (s.completed ==> s.sinks == {} && s.polled == s.sent)
    && (!s.open && !s.completed ==> s.cancelled)
    && (forall id :: id in s.calls ==> s.calls[id].sink in s.sinks)
  }

  /** A call waits for its own flush, which is in the channel or being answered. */
  ghost predicate WaitsWell(s: State, id: CallId)
    requires id in s.calls && s.calls[id].Waiting?
  {
    var at := s.calls[id].at;
    && at < |s.sent| && s.sent[at] == Entry(s.calls[id].sink, Flush(id))
    && (s.open && at < |s.polled| ==> s.engine == Answering(id) && at == |s.polled| - 1)
  }

  ghost predicate Flushes(s: State) {
    && (forall id :: id in s.calls && s.calls[id].Waiting? ==> WaitsWell(s, id))
    && (forall id :: id in s.calls && s.calls[id].Enqueuing? && s.calls[id].message.Flush? ==>
          s.calls[id].message.call == id)
    && (s.open ==> forall j :: |s.polled| <= j < |s.sent| && s.sent[j].message.Flush? ==>
          s.sent[j].message.call in s.calls && s.calls[s.sent[j].message.call] == Waiting(s.sent[j].sink, j))
    && (s.engine.Answering? ==>
          s.open && s.engine.call in s.calls && s.calls[s.engine.call].Waiting?
          && s.calls[s.engine.call].at == |s.polled| - 1)
  }

  lemma FifoStep(s: State, step: Step)
    requires Fifo(s) && Enabled(s, step)
    ensures Fifo(Apply(s, step))
  {
    var t := Apply(s, step);
    match step
    case Poll =>
      assert t.polled[..|s.polled|] == s.polled;
      assert s.polled + s.queue == t.polled + t.queue;
    case _ =>
  }

  lemma FlushesStep(s: State, step: Step)
    requires Fifo(s) && Flushes(s) && Enabled(s, step)
    ensures Flushes(Apply(s, step))
  {
    var t := Apply(s, step);
    match step
    case Poll =>
      assert s.sent[|s.polled|] == s.queue[0];
    case _ =>
  }

  lemma StartKeeps()
    ensures Fifo(Start()) && Flushes(Start())
  {}

  lemma {:induction false} RunKeeps(states: seq<State>, steps: seq<Step>, i: nat)
    requires Run(states, steps) && i < |states|
    ensures Fifo(states[i]) && Flushes(states[i])
  {
    hide Fifo, Flushes, Enabled, Apply;
    if i == 0 {
      StartKeeps();
    } else {
      RunKeeps(states, steps, i - 1);
      assert Enabled(states[i - 1], steps[i - 1]);
      FifoStep(states[i - 1], steps[i - 1]);
      FlushesStep(states[i - 1], steps[i - 1]);
    }
  }

  // -----------------------------------------------------------------------
  // Main results, over every run

  /** The data one sink put into the channel, in order. */
  function SentBy(entries: seq<Entry>, sink: SinkId): seq<seq<byte>> {
    if entries == [] then []
    else
      var last := entries[|entries| - 1];
      SentBy(entries[..|entries| - 1], sink)
      + if last.sink == sink && last.message.Data? then [last.message.bytes] else []
  }

  /** The data one sink sees come out, in order. */
  function YieldedFor(frames: seq<Frame>, sink: SinkId): seq<seq<byte>> {
    if frames == [] then []
    else
      var last := frames[|frames| - 1];
      YieldedFor(frames[..|frames| - 1], sink) + if last.DataFrame? && last.sink == sink then [last.bytes] else []
  }

  lemma {:induction false} FramesKeepOrder(entries: seq<Entry>, sink: SinkId)
    ensures YieldedFor(Frames(entries), sink) == SentBy(entries, sink)
  {
    if entries != [] {
      var before, last := entries[..|entries| - 1], entries[|entries| - 1];
      FramesKeepOrder(before, sink);
      if last.message.Flush? {
        assert Frames(entries) == Frames(before);
      } else {
        assert Frames(entries)[..|Frames(entries)| - 1] == Frames(before);
      }
    }
  }

  lemma {:induction false} SentByPrefix(entries: seq<Entry>, n: nat, sink: SinkId)
    requires n <= |entries|
    ensures SentBy(entries[..n], sink) <= SentBy(entries, sink)
    decreases |entries|
  {
    if n < |entries| {
      SentByPrefix(entries[..|entries| - 1], n, sink);
      assert entries[..|entries| - 1][..n] == entries[..n];
    } else {
      assert entries[..n] == entries;
    }
  }

  /** Data comes out in the order each sink sent it, with nothing added and
      nothing left out before the end; a completed body has delivered it all. */
  lemma FramesComeInOrder(states: seq<State>, steps: seq<Step>, i: nat, sink: SinkId)
    requires Run(states, steps) && i < |states|
    ensures YieldedFor(states[i].frames, sink) <= SentBy(states[i].sent, sink)
    ensures states[i].completed ==> YieldedFor(states[i].frames, sink) == SentBy(states[i].sent, sink)
    ensures |states[i].queue| <= CAPACITY
  {
    RunKeeps(states, steps, i);
    var s := states[i];
    FramesKeepOrder(s.polled, sink);
    SentByPrefix(s.sent, |s.polled|, sink);
    assert s.sent[..|s.polled|] == s.polled;
  }

  /** A flush that returns successfully has seen everything in front of it polled:
      all that any sink, and so its own, had put into the channel before. */
  lemma FlushMeansPolled(states: seq<State>, steps: seq<Step>, i: nat)
    requires Run(states, steps) && i < |steps| && steps[i].Answer?
    ensures var s := states[i];
            s.engine.Answering? && s.engine.call in s.calls && s.calls[s.engine.call].Waiting?
    ensures var s := states[i];
            var at := s.calls[s.engine.call].at;
            && at < |s.polled| <= |s.sent| && s.polled[..at] == s.sent[..at]
            && s.sent[at] == Entry(s.calls[s.engine.call].sink, Flush(s.engine.call))
            && Frames(s.sent[..at]) == s.frames
  {
    RunKeeps(states, steps, i);
    assert Enabled(states[i], steps[i]);
    var s := states[i];
    var at := s.calls[s.engine.call].at;
    assert WaitsWell(s, s.engine.call);
    assert s.polled[..at] == s.sent[..at];
    assert s.polled[at] == s.sent[at];
  }

  /** No flush is lost: it is still in the channel, or the engine is answering
      it, or the body is gone and the flush can fail. */
  lemma FlushIsNotLost(states: seq<State>, steps: seq<Step>, i: nat, id: CallId)
    requires Run(states, steps) && i < |states|
    requires id in states[i].calls && states[i].calls[id].Waiting?
    ensures var s, at := states[i], states[i].calls[id].at;
            if !s.open then Enabled(s, FlushFails(id))
            else if at < |s.polled| then s.engine == Answering(id) && Enabled(s, Answer)
            else at - |s.polled| < |s.queue| && s.queue[at - |s.polled|] == Entry(s.calls[id].sink, Flush(id))
  {
    RunKeeps(states, steps, i);
    assert WaitsWell(states[i], id);
  }

  /** Once the body is gone before its end, no data send can enqueue. */
  lemma AbandonedBodyCancels(states: seq<State>, steps: seq<Step>, i: nat)
    requires Run(states, steps) && i < |steps| && !states[i].open
    ensures states[i + 1].sent == states[i].sent && states[i + 1].frames == states[i].frames
    ensures !states[i].completed ==> states[i].cancelled
    ensures states[i].completed ==> states[i].calls == map[]
  {
    RunKeeps(states, steps, i);
    assert Enabled(states[i], steps[i]);
  }
}
