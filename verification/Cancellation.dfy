/** The cancellation token of `hell-http-host`: a flag that is swapped, a list of
    callbacks behind a mutex, and any number of callers of `cancel` and
    `on_cancel` whose atomic steps interleave freely. */
module Cancellation {
  import opened Wrappers

  type CallId = nat
  type Callback = nat

  /** Where a call stands. The states from `Checking` to `Releasing` hold the
      mutex. */
  datatype Call =
    // cancel
    | Swapping
    | Taking
    | Running(todo: seq<Callback>)
    // on_cancel
    | Locking(own: Callback)
    | Checking(own: Callback)
    | Pushing(own: Callback)
    | Releasing(own: Callback)
    | RunningOwn(own: Callback)

  datatype Place = Waiting | Batch(call: CallId) | Own(call: CallId) | Done

  /** `ran` lists the callbacks in the order they ran; `taken` and `places` are
      for the statements only. `places` has an entry for every callback ever
      passed to `on_cancel`. */
  datatype State = State(
    cancelled: bool,
    lock: Option<CallId>,
    callbacks: seq<Callback>,
    calls: map<CallId, Call>,
    ran: seq<Callback>,
    taken: bool,
    places: map<Callback, Place>)

  datatype Step =
    | BeginCancel(id: CallId)
    | Swap(id: CallId)
    | Take(id: CallId)
    | RunNext(id: CallId)
    | EndCancel(id: CallId)
    | BeginOn(id: CallId, callback: Callback)
    | Acquire(id: CallId)
    | Check(id: CallId)
    | Push(id: CallId)
    | Release(id: CallId)
    | RunOwn(id: CallId)

  function Start(): State {
    State(false, None, [], map[], [], false, map[])
  }

  predicate Enabled(s: State, step: Step) {
    match step
    case BeginCancel(id) => id !in s.calls
    case BeginOn(id, callback) => id !in s.calls && callback !in s.places
    case Swap(id) => id in s.calls && s.calls[id].Swapping?
    case Take(id) => id in s.calls && s.calls[id].Taking? && s.lock == None
    case RunNext(id) => id in s.calls && s.calls[id].Running? && s.calls[id].todo != []
    case EndCancel(id) => id in s.calls && s.calls[id] == Running([])
    case Acquire(id) => id in s.calls && s.calls[id].Locking? && s.lock == None
    case Check(id) => id in s.calls && s.calls[id].Checking?
    case Push(id) => id in s.calls && s.calls[id].Pushing?
    case Release(id) => id in s.calls && s.calls[id].Releasing?
    case RunOwn(id) => id in s.calls && s.calls[id].RunningOwn?
  }

  function Apply(s: State, step: Step): State
    requires Enabled(s, step)
  {
    match step
    case BeginCancel(id) => s.(calls := s.calls[id := Swapping])
    case Swap(id) =>
      if s.cancelled then s.(calls := s.calls - {id})
      else s.(cancelled := true, calls := s.calls[id := Taking])
    case Take(id) =>
      s.(callbacks := [], taken := true, calls := s.calls[id := Running(s.callbacks)],
         places := map c | c in s.places :: if s.places[c] == Waiting then Batch(id) else s.places[c])
    case RunNext(id) =>
      var todo := s.calls[id].todo;
      s.(ran := s.ran + [todo[0]], calls := s.calls[id := Running(todo[1..])], places := s.places[todo[0] := Done])
    case EndCancel(id) => s.(calls := s.calls - {id})
    case BeginOn(id, callback) => s.(calls := s.calls[id := Locking(callback)], places := s.places[callback := Own(id)])
    case Acquire(id) => s.(lock := Some(id), calls := s.calls[id := Checking(s.calls[id].own)])
    case Check(id) =>
      s.(calls := s.calls[id := if s.cancelled then Releasing(s.calls[id].own) else Pushing(s.calls[id].own)])
    case Push(id) =>
      var own := s.calls[id].own;
      s.(callbacks := s.callbacks + [own], lock := None, calls := s.calls - {id}, places := s.places[own := Waiting])
    case Release(id) => s.(lock := None, calls := s.calls[id := RunningOwn(s.calls[id].own)])
    case RunOwn(id) =>
      var own := s.calls[id].own;
      s.(ran := s.ran + [own], calls := s.calls - {id}, places := s.places[own := Done])
  }

  ghost predicate Run(states: seq<State>, steps: seq<Step>) {
    && |states| == |steps| + 1 && states[0] == Start()
    && forall i :: 0 <= i < |steps| ==> Enabled(states[i], steps[i]) && states[i + 1] == Apply(states[i], steps[i])
  }

  // -----------------------------------------------------------------------
  // What every step keeps

  ghost predicate Distinct(list: seq<Callback>) {
    forall i, j :: 0 <= i < j < |list| ==> list[i] != list[j]
  }

  ghost predicate HasOwn(call: Call) {
    call.Locking? || call.Checking? || call.Pushing? || call.Releasing? || call.RunningOwn?
  }

  ghost predicate HoldsLock(call: Call) {
    call.Checking? || call.Pushing? || call.Releasing?
  }

  /** The list has exactly the callbacks whose place this is, once each. */
  ghost predicate Lists(list: seq<Callback>, places: map<Callback, Place>, place: Place) {
    Distinct(list) && forall c :: c in list <==> c in places && places[c] == place
  }

  /** What a call holds is placed with it. */
  ghost predicate CallPlaced(call: Call, id: CallId, places: map<Callback, Place>) {
    && (call.Running? ==> Lists(call.todo, places, Batch(id)))
    && (HasOwn(call) ==> call.own in places && places[call.own] == Own(id))
  }

  /** What is placed with a call, that call holds. */
  ghost predicate PlaceHeld(c: Callback, place: Place, calls: map<CallId, Call>) {
    && (place.Batch? ==> place.call in calls && calls[place.call].Running? && c in calls[place.call].todo)
    && (place.Own? ==> place.call in calls && HasOwn(calls[place.call]) && calls[place.call].own == c)
  }

  ghost predicate Placed(s: State) {
    && Lists(s.callbacks, s.places, Waiting)
    && Lists(s.ran, s.places, Done)
    && (forall id :: id in s.calls ==> CallPlaced(s.calls[id], id, s.places))
    && (forall c :: c in s.places ==> PlaceHeld(c, s.places[c], s.calls))
  }

  ghost predicate SomeoneTakes(s: State) {
    exists id :: id in s.calls && s.calls[id].Taking?
  }

  /** The mutex orders pushes before the one taking of the list. */
  ghost predicate Ordered(s: State) {
    && (forall id :: id in s.calls && HoldsLock(s.calls[id]) <==> s.lock == Some(id))
    && (s.taken ==> s.callbacks == [] && s.cancelled)
    && (forall id :: id in s.calls && s.calls[id].Pushing? ==> !s.taken)
    && (s.cancelled && !s.taken ==> SomeoneTakes(s))
    && (forall id :: id in s.calls && s.calls[id].Taking? ==> s.cancelled)
    && (forall id :: id in s.calls && s.calls[id].Running? ==> s.cancelled)
    && (forall id :: id in s.calls && (s.calls[id].Releasing? || s.calls[id].RunningOwn?) ==> s.cancelled)
    && (s.ran != [] ==> s.cancelled)
  }

  lemma OrderedStep(s: State, step: Step)
    requires Ordered(s) && Enabled(s, step)
    ensures Ordered(Apply(s, step))
  {
    var t := Apply(s, step);
    if SomeoneTakes(s) && !step.Take? {
      var id :| id in s.calls && s.calls[id].Taking?;
      assert id in t.calls && t.calls[id].Taking?;
    }
    if step.Swap? && !s.cancelled {
      assert step.id in t.calls && t.calls[step.id].Taking?;
    }
  }

  /** A list gains the callback that moves to its place. */
  lemma ListsGains(list: seq<Callback>, places: map<Callback, Place>, c: Callback, place: Place)
    requires Lists(list, places, place) && c !in list
    ensures Lists(list + [c], places[c := place], place)
  {}

  /** A list loses its first callback when that moves elsewhere. */
  lemma ListsLoses(list: seq<Callback>, places: map<Callback, Place>, place: Place, to: Place)
    requires list != [] && Lists(list, places, place) && to != place
    ensures Lists(list[1..], places[list[0] := to], place)
  {
    assert forall i :: 0 <= i < |list[1..]| ==> list[1..][i] == list[i + 1];
    forall c ensures c in list[1..] <==> c in list && c != list[0] {
      if c in list && c != list[0] {
        var i :| 0 <= i < |list| && list[i] == c;
        assert list[1..][i - 1] == c;
      }
    }
  }

  /** Moves between other places do not concern a list. */
  lemma ListsStays(list: seq<Callback>, places: map<Callback, Place>, c: Callback, place: Place, to: Place)
    requires Lists(list, places, place) && c !in list && to != place
    ensures Lists(list, places[c := to], place)
  {}

  lemma TakeKeepsPlaces(s: State, id: CallId)
    requires Placed(s) && Ordered(s) && Enabled(s, Take(id))
    ensures Placed(Apply(s, Take(id)))
  {
    var t := Apply(s, Take(id));
    forall other | other in t.calls ensures CallPlaced(t.calls[other], other, t.places) {
      assert other in s.calls && CallPlaced(s.calls[other], other, s.places);
    }
    forall c | c in t.places ensures PlaceHeld(c, t.places[c], t.calls) {
      assert PlaceHeld(c, s.places[c], s.calls);
    }
  }

  lemma RunNextKeepsPlaces(s: State, id: CallId)
    requires Placed(s) && Enabled(s, RunNext(id))
    ensures Placed(Apply(s, RunNext(id)))
  {
    hide Distinct;
    var t, todo := Apply(s, RunNext(id)), s.calls[id].todo;
    var c := todo[0];
    assert CallPlaced(s.calls[id], id, s.places);
    ListsGains(s.ran, s.places, c, Done);
    ListsStays(s.callbacks, s.places, c, Waiting, Done);
    ListsLoses(todo, s.places, Batch(id), Done);
    forall other | other in t.calls ensures CallPlaced(t.calls[other], other, t.places) {
      assert other in s.calls && CallPlaced(s.calls[other], other, s.places);
      if other != id && s.calls[other].Running? {
        ListsStays(s.calls[other].todo, s.places, c, Batch(other), Done);
      }
    }
    forall d | d in t.places ensures PlaceHeld(d, t.places[d], t.calls) {
      assert d in s.places && PlaceHeld(d, s.places[d], s.calls);
    }
  }

  /** One callback moves from its call to the end of a list, and the call ends. */
  lemma MoveKeepsPlaces(s: State, id: CallId, to: Place, t: State)
    requires Placed(s) && id in s.calls && HasOwn(s.calls[id]) && (to == Waiting || to == Done)
    requires t.places == s.places[s.calls[id].own := to] && t.calls == s.calls - {id}
    requires t.callbacks == if to == Waiting then s.callbacks + [s.calls[id].own] else s.callbacks
    requires t.ran == if to == Done then s.ran + [s.calls[id].own] else s.ran
    ensures Placed(t)
  {
    hide Distinct;
    var c := s.calls[id].own;
    assert CallPlaced(s.calls[id], id, s.places);
    if to == Waiting {
      ListsGains(s.callbacks, s.places, c, Waiting);
      ListsStays(s.ran, s.places, c, Done, Waiting);
    } else {
      ListsGains(s.ran, s.places, c, Done);
      ListsStays(s.callbacks, s.places, c, Waiting, Done);
    }
    forall other | other in t.calls ensures CallPlaced(t.calls[other], other, t.places) {
      assert other in s.calls && CallPlaced(s.calls[other], other, s.places);
      if s.calls[other].Running? {
        ListsStays(s.calls[other].todo, s.places, c, Batch(other), to);
      }
    }
    forall d | d in t.places ensures PlaceHeld(d, t.places[d], t.calls) {
      assert d in s.places && PlaceHeld(d, s.places[d], s.calls);
    }
  }

  lemma BeginOnKeepsPlaces(s: State, id: CallId, callback: Callback)
    requires Placed(s) && Enabled(s, BeginOn(id, callback))
    ensures Placed(Apply(s, BeginOn(id, callback)))
  {
    hide Distinct;
    var t := Apply(s, BeginOn(id, callback));
    ListsStays(s.callbacks, s.places, callback, Waiting, Own(id));
    ListsStays(s.ran, s.places, callback, Done, Own(id));
    forall other | other in t.calls ensures CallPlaced(t.calls[other], other, t.places) {
      if other != id {
        assert other in s.calls && CallPlaced(s.calls[other], other, s.places);
        if s.calls[other].Running? {
          ListsStays(s.calls[other].todo, s.places, callback, Batch(other), Own(id));
        }
      }
    }
    forall d | d in t.places ensures PlaceHeld(d, t.places[d], t.calls) {
      assert d in s.places ==> PlaceHeld(d, s.places[d], s.calls);
    }
  }

  /** A call goes on, or starts or ends, without moving a callback. */
  lemma CallStepKeepsPlaces(s: State, t: State, id: CallId)
    requires Placed(s) && t.places == s.places && t.callbacks == s.callbacks && t.ran == s.ran
    requires t.calls == s.calls - {id} || (id in t.calls && t.calls == s.calls[id := t.calls[id]])
    requires id in s.calls && HasOwn(s.calls[id]) ==>
               id in t.calls && HasOwn(t.calls[id]) && t.calls[id].own == s.calls[id].own
    requires id in s.calls && s.calls[id].Running? ==> s.calls[id].todo == []
    requires id in t.calls ==> !t.calls[id].Running? && (HasOwn(t.calls[id]) ==> id in s.calls && HasOwn(s.calls[id]))
    ensures Placed(t)
  {
    hide Distinct;
    forall other | other in t.calls ensures CallPlaced(t.calls[other], other, t.places) {
      assert other in s.calls ==> CallPlaced(s.calls[other], other, s.places);
    }
    forall d | d in t.places ensures PlaceHeld(d, t.places[d], t.calls) {
      assert PlaceHeld(d, s.places[d], s.calls);
    }
  }

  lemma PlacedStep(s: State, step: Step)
    requires Placed(s) && Ordered(s) && Enabled(s, step)
    ensures Placed(Apply(s, step))
  {
    hide Placed, Ordered;
    var t := Apply(s, step);
    match step
    case Take(id) => TakeKeepsPlaces(s, id);
    case RunNext(id) => RunNextKeepsPlaces(s, id);
    case BeginOn(id, callback) => BeginOnKeepsPlaces(s, id, callback);
    case Push(id) => MoveKeepsPlaces(s, id, Waiting, t);
    case RunOwn(id) => MoveKeepsPlaces(s, id, Done, t);
    case _ => CallStepKeepsPlaces(s, t, step.id);
  }

  lemma {:induction false} RunKeeps(states: seq<State>, steps: seq<Step>, i: nat)
    requires Run(states, steps) && i < |states|
    ensures Placed(states[i]) && Ordered(states[i])
  {
    hide Placed, Ordered, Enabled, Apply;
    if i == 0 {
      StartIsOrdered();
    } else {
      RunKeeps(states, steps, i - 1);
      assert Enabled(states[i - 1], steps[i - 1]);
      PlacedStep(states[i - 1], steps[i - 1]);
      OrderedStep(states[i - 1], steps[i - 1]);
    }
  }

  lemma StartIsOrdered()
    ensures Placed(Start()) && Ordered(Start())
  {}

  // -----------------------------------------------------------------------
  // Main results, over every run

  /** No callback runs before the flag is set, and none runs twice. */
  lemma CallbacksRunAtMostOnce(states: seq<State>, steps: seq<Step>, i: nat)
    requires Run(states, steps) && i < |states|
    ensures states[i].ran != [] ==> states[i].cancelled
    ensures Distinct(states[i].ran) && forall c :: c in states[i].ran ==> c in states[i].places
  {
    RunKeeps(states, steps, i);
  }

  /** Once all calls have returned after a cancel, every callback that was ever
      passed in has run exactly once. */
  lemma CallbacksRunExactlyOnce(states: seq<State>, steps: seq<Step>, i: nat)
    requires Run(states, steps) && i < |states|
    requires states[i].cancelled && states[i].calls == map[]
    ensures Distinct(states[i].ran) && forall c :: c in states[i].ran <==> c in states[i].places
  {
    RunKeeps(states, steps, i);
    var s := states[i];
    assert s.taken && s.callbacks == [];
    forall c | c in s.places ensures c in s.ran {
      assert PlaceHeld(c, s.places[c], s.calls);
      assert c !in s.callbacks;
    }
  }

  /** Without a cancel nothing runs, and what has been registered waits. */
  lemma CallbacksWaitForCancel(states: seq<State>, steps: seq<Step>, i: nat)
    requires Run(states, steps) && i < |states|
    requires !states[i].cancelled && states[i].calls == map[]
    ensures states[i].ran == [] && forall c :: c in states[i].callbacks <==> c in states[i].places
  {
    RunKeeps(states, steps, i);
    var s := states[i];
    forall c | c in s.places ensures c in s.callbacks {
      assert PlaceHeld(c, s.places[c], s.calls);
      assert c !in s.ran;
    }
  }
}
