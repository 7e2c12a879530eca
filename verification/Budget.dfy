/** The shared budgets of `budget.rs`: one atomic counter, any number of callers
    charging it through a compare-and-exchange loop, and permits that give their
    unit back when dropped. Steps are atomic and interleave freely. */
module Budget {
  import opened Wrappers

  datatype Limit = Unlimited | At(maximum: nat)

  predicate Within(limit: Limit, n: nat) {
    limit.At? ==> n <= limit.maximum
  }

  /** Whether `update` goes on to exchange: no overflow, no excess. */
  predicate Admits(limit: Limit, current: nat, amount: nat) {
    current + amount <= MAX_U64 && Within(limit, current + amount)
  }

  type CallId = nat
  type PermitId = nat

  /** Where a call of `update` stands. `since` is the position in the history
      of the value the counter had when the call began. */
  datatype Call =
    | Loading(amount: nat, since: nat)
    | Deciding(amount: nat, since: nat, current: nat)

  /** `live` counters hand out permits for one unit each; the others only grow.
      `owner` says whether the budget still exists; `held` permits are in use,
      `releasing` ones have upgraded their weak reference and are about to
      subtract. `history`, `charged`, `released` and `issued` are for
      the statements only. */
  datatype State = State(
    counter: nat,
    owner: bool,
    calls: map<CallId, Call>,
    held: set<PermitId>,
    releasing: set<PermitId>,
    issued: nat,
    charged: seq<nat>,
    released: nat,
    history: seq<nat>)

  datatype Step =
    | Begin(id: CallId, amount: nat)
    | Load(id: CallId)
    | Reject(id: CallId)
    | Exchange(id: CallId, spurious: bool)
    | Upgrade(permit: PermitId)
    | Release(permit: PermitId)
    | DropOwner

  function Start(): State {
    State(0, true, map[], {}, {}, 0, [], 0, [0])
  }

  /** The counter's memory lives while the budget or an upgraded permit does. */
  predicate Allocated(s: State) {
    s.owner || s.releasing != {}
  }

  /** A call borrows the budget, so the budget outlives it. */
  predicate Enabled(live: bool, limit: Limit, s: State, step: Step) {
    match step
    case Begin(id, amount) => s.owner && id !in s.calls && amount <= MAX_U64 && (live ==> amount == 1)
    case Load(id) => id in s.calls && s.calls[id].Loading?
    case Reject(id) =>
      id in s.calls && s.calls[id].Deciding? && !Admits(limit, s.calls[id].current, s.calls[id].amount)
    case Exchange(id, _) =>
      id in s.calls && s.calls[id].Deciding? && Admits(limit, s.calls[id].current, s.calls[id].amount)
    case Upgrade(permit) => permit in s.held
    case Release(permit) => permit in s.releasing
    case DropOwner => s.owner && s.calls == map[]
  }

  /** `fetch_sub(1)` on 64 bits. */
  function Decremented(n: nat): nat {
    (n + MAX_U64) % (MAX_U64 + 1)
  }

  function Apply(live: bool, limit: Limit, s: State, step: Step): State
    requires Enabled(live, limit, s, step)
  {
    match step
    case Begin(id, amount) => s.(calls := s.calls[id := Loading(amount, Last(s.history))])
    case Load(id) =>
      var call := s.calls[id];
      s.(calls := s.calls[id := Deciding(call.amount, call.since, s.counter)])
    case Reject(id) => s.(calls := s.calls - {id})
    case Exchange(id, spurious) =>
      var call := s.calls[id];
      if s.counter == call.current && !spurious then
        Succeed(live, s.(calls := s.calls - {id}), call.amount)
      else
        s.(calls := s.calls[id := call.(current := s.counter)])
    case Upgrade(permit) =>
      if Allocated(s) then s.(held := s.held - {permit}, releasing := s.releasing + {permit})
      else s.(held := s.held - {permit})
    case Release(permit) =>
      s.(counter := Decremented(s.counter), releasing := s.releasing - {permit}, released := s.released + 1,
         history := s.history + [Decremented(s.counter)])
    case DropOwner => s.(owner := false)
  }

  /** The position of the current value in the history. */
  function Last(history: seq<nat>): nat {
    if history == [] then 0 else |history| - 1
  }

  function Succeed(live: bool, s: State, amount: nat): State {
    var t := s.(counter := s.counter + amount, charged := s.charged + [amount],
                history := s.history + [s.counter + amount]);
    if live then t.(held := t.held + {t.issued}, issued := t.issued + 1) else t
  }

  function Sum(amounts: seq<nat>): nat {
    if amounts == [] then 0 else Sum(amounts[..|amounts| - 1]) + amounts[|amounts| - 1]
  }

  /** All runs. */
  ghost predicate Run(live: bool, limit: Limit, states: seq<State>, steps: seq<Step>) {
    && |states| == |steps| + 1 && states[0] == Start()
    && forall i :: 0 <= i < |steps| ==>
         Enabled(live, limit, states[i], steps[i]) && states[i + 1] == Apply(live, limit, states[i], steps[i])
  }

  // -----------------------------------------------------------------------
  // What every step keeps

  /** The value a call works with is one the counter had since the call began. */
  ghost predicate Witnessed(history: seq<nat>, call: Call) {
    && call.since < |history|
    && (call.Deciding? ==> exists k :: call.since <= k < |history| && history[k] == call.current)
  }

  ghost predicate Counts(live: bool, s: State) {
    if live then
      && s.held !! s.releasing
      && (forall p :: p in s.held || p in s.releasing ==> p < s.issued)
      && |s.held| + |s.releasing| <= s.counter
      && (Allocated(s) ==> s.counter == |s.held| + |s.releasing|)
    else s.held == {} && s.releasing == {} && s.released == 0
  }

  ghost predicate Invariant(live: bool, limit: Limit, s: State) {
    && s.counter <= MAX_U64 && Within(limit, s.counter)
    && Counts(live, s)
    && Sum(s.charged) == s.counter + s.released
    && s.history != [] && s.history[|s.history| - 1] == s.counter
    && (forall k :: 0 <= k < |s.history| ==> s.history[k] <= MAX_U64 && Within(limit, s.history[k]))
    && (forall id :: id in s.calls ==> Witnessed(s.history, s.calls[id]) && (live ==> s.calls[id].amount == 1))
    && (s.calls != map[] ==> s.owner)
  }

  lemma StartIsInvariant(live: bool, limit: Limit)
    ensures Invariant(live, limit, Start())
  {}

  lemma LongerHistory(history: seq<nat>, value: nat, call: Call)
    requires Witnessed(history, call)
    ensures Witnessed(history + [value], call)
  {
    if call.Deciding? {
      var k :| call.since <= k < |history| && history[k] == call.current;
      assert (history + [value])[k] == call.current;
    }
  }

  lemma SumSnoc(amounts: seq<nat>, amount: nat)
    ensures Sum(amounts + [amount]) == Sum(amounts) + amount
  {
    assert (amounts + [amount])[..|amounts|] == amounts;
  }

  /** A live permit that is about to subtract finds a unit to take. */
  lemma NoUnderflow(live: bool, limit: Limit, s: State, permit: PermitId)
    requires Invariant(live, limit, s) && permit in s.releasing
    ensures live && s.counter >= 1 && Decremented(s.counter) == s.counter - 1
  {
    assert |s.releasing| >= 1 by { assert s.releasing == (s.releasing - {permit}) + {permit}; }
  }

  lemma SucceedKeeps(live: bool, limit: Limit, s: State, amount: nat)
    requires Invariant(live, limit, s) && s.owner && Admits(limit, s.counter, amount) && (live ==> amount == 1)
    ensures Invariant(live, limit, Succeed(live, s, amount))
  {
    var t := Succeed(live, s, amount);
    SumSnoc(s.charged, amount);
    forall id | id in t.calls ensures Witnessed(t.history, t.calls[id]) {
      LongerHistory(s.history, s.counter + amount, s.calls[id]);
    }
  }

  lemma ReleaseKeeps(live: bool, limit: Limit, s: State, permit: PermitId)
    requires Invariant(live, limit, s) && permit in s.releasing
    ensures Invariant(live, limit, Apply(live, limit, s, Release(permit)))
  {
    NoUnderflow(live, limit, s, permit);
    var t := Apply(live, limit, s, Release(permit));
    assert |t.releasing| == |s.releasing| - 1;
    forall id | id in t.calls ensures Witnessed(t.history, t.calls[id]) {
      LongerHistory(s.history, t.counter, s.calls[id]);
    }
  }

  lemma UpgradeKeeps(live: bool, limit: Limit, s: State, permit: PermitId)
    requires Invariant(live, limit, s) && permit in s.held
    ensures Invariant(live, limit, Apply(live, limit, s, Upgrade(permit)))
  {
    hide Witnessed, Sum, Within;
    var t := Apply(live, limit, s, Upgrade(permit));
    assert |s.held - {permit}| == |s.held| - 1;
    if Allocated(s) {
      assert |t.releasing| == |s.releasing| + 1;
    }
  }

  lemma CallFacts(live: bool, limit: Limit, s: State, id: CallId)
    requires Invariant(live, limit, s) && id in s.calls
    ensures s.owner && Witnessed(s.history, s.calls[id]) && (live ==> s.calls[id].amount == 1)
    ensures s.history != [] && s.history[|s.history| - 1] == s.counter
  {}

  lemma SetCallKeeps(live: bool, limit: Limit, s: State, id: CallId, call: Call)
    requires Invariant(live, limit, s) && s.owner && Witnessed(s.history, call) && (live ==> call.amount == 1)
    ensures Invariant(live, limit, s.(calls := s.calls[id := call]))
  {
    hide Witnessed, Sum, Counts, Within;
    CountsFrame(live, s, s.(calls := s.calls[id := call]));
  }

  lemma EndCallKeeps(live: bool, limit: Limit, s: State, id: CallId)
    requires Invariant(live, limit, s)
    ensures Invariant(live, limit, s.(calls := s.calls - {id}))
  {
    hide Witnessed, Sum, Counts, Within;
    CountsFrame(live, s, s.(calls := s.calls - {id}));
  }

  lemma CountsFrame(live: bool, s: State, t: State)
    requires Counts(live, s) && t == s.(calls := t.calls)
    ensures Counts(live, t)
  {}

  lemma DropOwnerKeeps(live: bool, limit: Limit, s: State)
    requires Invariant(live, limit, s) && s.calls == map[]
    ensures Invariant(live, limit, s.(owner := false))
  {
    hide Sum, Within;
  }

  lemma BeginKeeps(live: bool, limit: Limit, s: State, id: CallId, amount: nat)
    requires Invariant(live, limit, s) && s.owner && (live ==> amount == 1)
    ensures Invariant(live, limit, s.(calls := s.calls[id := Loading(amount, Last(s.history))]))
  {
    SetCallKeeps(live, limit, s, id, Loading(amount, Last(s.history)));
  }

  /** Taking over the current value of the counter. */
  lemma ObserveKeeps(live: bool, limit: Limit, s: State, id: CallId)
    requires Invariant(live, limit, s) && id in s.calls
    ensures var call := s.calls[id];
            Invariant(live, limit, s.(calls := s.calls[id := Deciding(call.amount, call.since, s.counter)]))
  {
    CallFacts(live, limit, s, id);
    SetCallKeeps(live, limit, s, id, Deciding(s.calls[id].amount, s.calls[id].since, s.counter));
  }

  lemma StepKeeps(live: bool, limit: Limit, s: State, step: Step)
    requires Invariant(live, limit, s) && Enabled(live, limit, s, step)
    ensures Invariant(live, limit, Apply(live, limit, s, step))
  {
    hide Invariant;
    match step
    case Begin(id, amount) => BeginKeeps(live, limit, s, id, amount);
    case Load(id) => ObserveKeeps(live, limit, s, id);
    case Reject(id) => EndCallKeeps(live, limit, s, id);
    case Exchange(id, spurious) =>
      var call := s.calls[id];
      if s.counter == call.current && !spurious {
        CallFacts(live, limit, s, id);
        EndCallKeeps(live, limit, s, id);
        SucceedKeeps(live, limit, s.(calls := s.calls - {id}), call.amount);
      } else {
        ObserveKeeps(live, limit, s, id);
      }
    case Upgrade(permit) => UpgradeKeeps(live, limit, s, permit);
    case Release(permit) => ReleaseKeeps(live, limit, s, permit);
    case DropOwner => DropOwnerKeeps(live, limit, s);
  }

  lemma {:induction false} RunKeeps(live: bool, limit: Limit, states: seq<State>, steps: seq<Step>, i: nat)
    requires Run(live, limit, states, steps) && i < |states|
    ensures Invariant(live, limit, states[i])
  {
    hide Invariant, Enabled, Apply;
    if i == 0 {
      StartIsInvariant(live, limit);
    } else {
      RunKeeps(live, limit, states, steps, i - 1);
      assert Enabled(live, limit, states[i - 1], steps[i - 1]);
      StepKeeps(live, limit, states[i - 1], steps[i - 1]);
    }
  }

  // -----------------------------------------------------------------------
  // Main results, over every run

  /** A live counter is the number of outstanding permits and stays within the
      limit; a cumulative counter is the sum of the charges that succeeded. */
  lemma CountersAreExact(live: bool, limit: Limit, states: seq<State>, steps: seq<Step>, i: nat)
    requires Run(live, limit, states, steps) && i < |states|
    ensures var s := states[i];
            && Within(limit, s.counter) && s.counter <= MAX_U64
            && (live ==> Within(limit, |s.held| + |s.releasing|))
            && (live && Allocated(s) ==> s.counter == |s.held| + |s.releasing|)
            && (!live ==> s.counter == Sum(s.charged))
            && Sum(s.charged) == s.counter + s.released
  {
    RunKeeps(live, limit, states, steps, i);
  }

  /** No release wraps around. */
  lemma ReleasesSubtract(live: bool, limit: Limit, states: seq<State>, steps: seq<Step>, i: nat)
    requires Run(live, limit, states, steps) && i < |steps| && steps[i].Release?
    ensures states[i].counter >= 1 && states[i + 1].counter == states[i].counter - 1
  {
    RunKeeps(live, limit, states, steps, i);
    NoUnderflow(live, limit, states[i], steps[i].permit);
  }

  /** A rejection changes nothing but the call, and the call would not have been
      admitted at some value the counter had after the call began. */
  lemma RejectionsAreJustified(live: bool, limit: Limit, states: seq<State>, steps: seq<Step>, i: nat)
    returns (k: nat)
    requires Run(live, limit, states, steps) && i < |steps| && steps[i].Reject?
    ensures states[i + 1] == states[i].(calls := states[i].calls - {steps[i].id})
    ensures var s, id := states[i], steps[i].id;
            id in s.calls && s.calls[id].since <= k < |s.history| && !Admits(limit, s.history[k], s.calls[id].amount)
  {
    RunKeeps(live, limit, states, steps, i);
    var s := states[i];
    assert Enabled(live, limit, s, steps[i]);
    var call := s.calls[steps[i].id];
    assert Witnessed(s.history, call);
    k :| call.since <= k < |s.history| && s.history[k] == call.current;
  }

  /** A successful exchange adds exactly the amount of its call, issues at most
      one permit, and never one that was issued before. */
  lemma SuccessIsExact(live: bool, limit: Limit, states: seq<State>, steps: seq<Step>, i: nat)
    requires Run(live, limit, states, steps) && i < |steps| && steps[i].Exchange?
    requires steps[i].id !in states[i + 1].calls
    ensures var s, t, amount := states[i], states[i + 1], states[i].calls[steps[i].id].amount;
            && t.counter == s.counter + amount && t.charged == s.charged + [amount]
            && t.releasing == s.releasing
            && if live then |t.held| == |s.held| + 1 && s.held < t.held else t.held == s.held
  {
    RunKeeps(live, limit, states, steps, i);
    assert Enabled(live, limit, states[i], steps[i]);
  }

  // -----------------------------------------------------------------------
  // The loop itself, one caller against what the others do meanwhile

  /** Between two accesses the others write `writes`; the exchange that follows
      may fail for no reason. */
  datatype Round = Round(writes: seq<nat>, spurious: bool)

  datatype Outcome = Updated(next: nat) | Overflowed | Exceeded(observed: nat) | StillContending

  function Writes(rounds: seq<Round>): seq<nat> {
    if rounds == [] then [] else Writes(rounds[..|rounds| - 1]) + rounds[|rounds| - 1].writes
  }

  lemma WritesNone(rounds: seq<Round>)
    ensures Writes(rounds[..0]) == []
  {}

  lemma WritesMore(rounds: seq<Round>, i: nat)
    requires i < |rounds|
    ensures Writes(rounds[..i + 1]) == Writes(rounds[..i]) + rounds[i].writes
  {
    assert rounds[..i + 1][..i] == rounds[..i];
  }

  class AtomicCounter {
    var value: nat
    ghost var history: seq<nat>

    ghost predicate Valid()
      reads this
    {
      history != [] && history[|history| - 1] == value
    }

    constructor ()
      ensures Valid() && history == [0]
    {
      value := 0;
      history := [0];
    }

    method OthersWrite(writes: seq<nat>)
      requires Valid()
      modifies this
      ensures Valid() && history == old(history) + writes
    {
      history := history + writes;
      value := if writes == [] then value else writes[|writes| - 1];
    }

    method CompareExchangeWeak(current: nat, next: nat, spurious: bool) returns (ok: bool, observed: nat)
      requires Valid()
      modifies this
      ensures Valid() && observed == old(value) && (ok <==> old(value) == current && !spurious)
      ensures history == if ok then old(history) + [next] else old(history)
    {
      observed := value;
      ok := value == current && !spurious;
      if ok {
        value := next;
        history := history + [next];
      }
    }

    /** The retry loop, for as many rounds as `rounds` describes. It writes once
        when it succeeds and never otherwise; what it adds to is the value it
        replaces; what it rejects is a value the counter had during the call. */
    method Update(limit: Limit, amount: nat, rounds: seq<Round>)
      returns (r: Outcome, ghost used: nat, ghost at: nat)
      requires Valid()
      modifies this
      ensures Valid() && used <= |rounds| && |old(history)| - 1 <= at < |history|
      ensures var seen := old(history) + Writes(rounds[..used]);
              if r.Updated? then
                && history == seen + [r.next] && Admits(limit, seen[|seen| - 1], amount)
                && r.next == seen[|seen| - 1] + amount
              else history == seen
      ensures r.Overflowed? ==> history[at] + amount > MAX_U64
      ensures r.Exceeded? ==> limit.At? && limit.maximum < r.observed <= MAX_U64 && history[at] + amount == r.observed
      ensures r.StillContending? ==> used == |rounds|
    {
      hide Writes;
      WritesNone(rounds);
      var current := value;
      used := 0;
      var i := 0;
      at := |history| - 1;
      while true
        invariant Valid() && used == i <= |rounds|
        invariant history == old(history) + Writes(rounds[..i])
        invariant |old(history)| - 1 <= at < |history| && history[at] == current
        decreases |rounds| - i
      {
        if current + amount > MAX_U64 {
          return Overflowed, used, at;
        }
        var next := current + amount;
        if limit.At? && next > limit.maximum {
          return Exceeded(next), used, at;
        }
        if i == |rounds| {
          return StillContending, used, at;
        }
        OthersWrite(rounds[i].writes);
        WritesMore(rounds, i);
        var spurious := rounds[i].spurious;
        i := i + 1;
        used := i;
        var ok, observed := CompareExchangeWeak(current, next, spurious);
        if ok {
          return Updated(next), used, at;
        }
        current := observed;
        at := |history| - 1;
      }
    }
  }
}
