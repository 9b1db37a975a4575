/** `action_queue::impl` as a protocol: any number of threads push, clear and shut down
    while performers run the actions. One step is one stretch that nothing interrupts: a
    section under `que_mutex_`, one access to an atomic flag, or one call. */
module ActionQueueProtocol {
  import opened Text

  /** The identity of one pushed action. */
  type Action = nat

  /** A spawned `perform` coroutine: what it is running, and its cancellation state. */
  datatype Performer = Performer(doing: Option<Action>, cancelled: bool)

  datatype Fate = Started | Cleared

  datatype State = State(
    que: seq<Action>, running: bool, shutdowning: bool,
    passed: set<Action>,                 // pushers past the flag check, before the lock
    toSpawn: nat,                        // pushers past the lock, before co_spawn
    toShut: nat, toShutQuietly: nat,     // shutdowns past their check, with and without emit
    toEmit: nat,                         // shutdowns past the flag, before emit
    performers: seq<Performer>,
    // history
    seen: set<Action>,                   // every push begun
    accepted: seq<Action>,               // pushes in the order in which they took the lock
    gone: seq<(Action, Fate)>,           // what left the queue, in order
    finished: seq<Action>)               // actions that returned

  const START := State([], false, false, {}, 0, 0, 0, 0, [], {}, [], [], [])

  datatype Step =
    | Check(a: Action)                   // push: `if (shutdowning_) return`
    | Enqueue(a: Action)                 // push: the section under the lock
    | Spawn                              // push: co_spawn
    | Clear                              // clear
    | ShutdownCheck(emit: bool)          // async_shutdown: the early return
    | ShutdownSet(emit: bool)            // async_shutdown: `shutdowning_ = true`
    | Emit                               // async_shutdown: `cs_.emit`
    | Take(i: nat)                       // perform: the section under the lock
    | Return(i: nat)                     // perform: the handler returns

  predicate Enabled(s: State, step: Step) {
    match step
    case Check(a) => a !in s.seen
    case Enqueue(a) => a in s.passed
    case Spawn => s.toSpawn > 0
    case Clear => true
    case ShutdownCheck(_) => true
    case ShutdownSet(emit) => if emit then s.toShut > 0 else s.toShutQuietly > 0
    case Emit => s.toEmit > 0
    case Take(i) => i < |s.performers| && s.performers[i].doing.None?
    case Return(i) => i < |s.performers| && s.performers[i].doing.Some?
  }

  function Marked(que: seq<Action>): (r: seq<(Action, Fate)>)
    ensures |r| == |que| && forall i | 0 <= i < |que| :: r[i] == (que[i], Cleared)
  {
    seq(|que|, i requires 0 <= i < |que| => (que[i], Cleared))
  }

  function CancelAll(ps: seq<Performer>): (r: seq<Performer>)
    ensures |r| == |ps| && forall i | 0 <= i < |ps| :: r[i] == Performer(ps[i].doing, true)
  {
    seq(|ps|, i requires 0 <= i < |ps| => Performer(ps[i].doing, true))
  }

  function Do(s: State, step: Step): State
    requires Enabled(s, step)
  {
    match step
    case Check(a) =>
      var t := s.(seen := s.seen + {a});
      if s.shutdowning then t else t.(passed := s.passed + {a})
    case Enqueue(a) =>
      var t := s.(que := s.que + [a], accepted := s.accepted + [a], passed := s.passed - {a});
      if s.running then t else t.(running := true, toSpawn := s.toSpawn + 1)
    case Spawn => s.(toSpawn := s.toSpawn - 1, performers := s.performers + [Performer(None, false)])
    case Clear => s.(que := [], gone := s.gone + Marked(s.que))
    case ShutdownCheck(emit) =>
      if !s.running && s.shutdowning then s
      else if emit then s.(toShut := s.toShut + 1)
      else s.(toShutQuietly := s.toShutQuietly + 1)
    case ShutdownSet(emit) =>
      if emit then s.(shutdowning := true, toShut := s.toShut - 1, toEmit := s.toEmit + 1)
      else s.(shutdowning := true, toShutQuietly := s.toShutQuietly - 1)
    case Emit => s.(toEmit := s.toEmit - 1, performers := CancelAll(s.performers))
    case Take(i) =>
      if s.que == [] || s.performers[i].cancelled then
        s.(running := false, performers := s.performers[..i] + s.performers[i + 1..])
      else
        s.(que := s.que[1..], gone := s.gone + [(s.que[0], Started)],
           performers := s.performers[i := s.performers[i].(doing := Some(s.que[0]))])
    case Return(i) =>
      s.(finished := s.finished + [s.performers[i].doing.value],
         performers := s.performers[i := s.performers[i].(doing := None)])
  }

  /** A run; None when some step of it is not enabled. */
  function Run(s: State, steps: seq<Step>): Option<State>
    decreases |steps|
  {
    if steps == [] then Some(s)
    else if Enabled(s, steps[0]) then Run(Do(s, steps[0]), steps[1..])
    else None
  }

  // ---- what the history says ----

  function Actions(gone: seq<(Action, Fate)>): seq<Action> {
    if gone == [] then [] else [gone[0].0] + Actions(gone[1..])
  }

  /** The actions that met a given fate, in order. */
  function Fated(gone: seq<(Action, Fate)>, f: Fate): seq<Action> {
    if gone == [] then []
    else (if gone[0].1 == f then [gone[0].0] else []) + Fated(gone[1..], f)
  }

  function Doing(ps: seq<Performer>): seq<Action> {
    if ps == [] then []
    else (match ps[0].doing case None => [] case Some(a) => [a]) + Doing(ps[1..])
  }

  predicate NoDuplicates(s: seq<Action>) {
    forall i, j | 0 <= i < j < |s| :: s[i] != s[j]
  }

  // ---- the invariant ----

  /** Exactly one performer is spawned or about to be while `running_`, and none otherwise. */
  predicate OnePerformer(s: State) {
    |s.performers| + s.toSpawn == if s.running then 1 else 0
  }

  /** Everything accepted is gone or still queued, in order; each action once. */
  predicate Conserved(s: State) {
    && s.accepted == Actions(s.gone) + s.que
    && NoDuplicates(s.accepted)
    && (forall a | a in s.accepted :: a in s.seen && a !in s.passed)
    && s.passed <= s.seen
  }

  /** Actions return in the order in which they were started, one at a time. */
  predicate Serial(s: State) {
    Fated(s.gone, Started) == s.finished + Doing(s.performers)
  }

  predicate Inv(s: State) {
    OnePerformer(s) && Conserved(s) && Serial(s)
  }

  lemma {:induction false} ActionsSnoc(gone: seq<(Action, Fate)>, more: seq<(Action, Fate)>)
    ensures Actions(gone + more) == Actions(gone) + Actions(more)
    decreases |gone|
  {
    if gone == [] {
      assert gone + more == more;
    } else {
      assert (gone + more)[1..] == gone[1..] + more;
      ActionsSnoc(gone[1..], more);
    }
  }

  lemma {:induction false} FatedSnoc(gone: seq<(Action, Fate)>, more: seq<(Action, Fate)>, f: Fate)
    ensures Fated(gone + more, f) == Fated(gone, f) + Fated(more, f)
    decreases |gone|
  {
    if gone == [] {
      assert gone + more == more;
    } else {
      assert (gone + more)[1..] == gone[1..] + more && (gone + more)[0] == gone[0];
      FatedSnoc(gone[1..], more, f);
      var first := if gone[0].1 == f then [gone[0].0] else [];
      assert Fated(gone + more, f) == first + Fated(gone[1..] + more, f);
      assert first + (Fated(gone[1..], f) + Fated(more, f)) == first + Fated(gone[1..], f) + Fated(more, f);
    }
  }

  lemma {:induction false} MarkedHistory(que: seq<Action>)
    ensures Actions(Marked(que)) == que
    ensures Fated(Marked(que), Started) == [] && Fated(Marked(que), Cleared) == que
    decreases |que|
  {
    if que != [] {
      assert Marked(que)[1..] == Marked(que[1..]);
      MarkedHistory(que[1..]);
    }
  }

  lemma {:induction false} OneDoing(ps: seq<Performer>)
    requires |ps| <= 1
    ensures Doing(ps) == if ps == [] then [] else match ps[0].doing case None => [] case Some(a) => [a]
  {
    if ps != [] { assert ps[1..] == []; }
  }

  lemma {:induction false} InvStart()
    ensures Inv(START)
  {
  }

  lemma {:induction false} OnePerformerKept(s: State, step: Step)
    requires OnePerformer(s) && Enabled(s, step)
    ensures OnePerformer(Do(s, step))
  {
  }

  lemma {:induction false} ConservedKept(s: State, step: Step)
    requires Conserved(s) && Enabled(s, step)
    ensures Conserved(Do(s, step))
  {
    hide Actions, NoDuplicates;
    match step {
      case Enqueue(a) =>
        assert Actions(s.gone) + (s.que + [a]) == Actions(s.gone) + s.que + [a];
        NoDuplicatesSnoc(s.accepted, a);
      case Clear =>
        ActionsSnoc(s.gone, Marked(s.que));
        MarkedHistory(s.que);
        assert Actions(s.gone) + s.que + [] == Actions(s.gone) + s.que;
      case Take(i) =>
        if s.que != [] {
          ActionsSnoc(s.gone, [(s.que[0], Started)]);
          OneGone(s.que[0], Started);
          assert Actions(s.gone) + [s.que[0]] + s.que[1..] == Actions(s.gone) + s.que;
        }
      case _ =>
    }
  }

  lemma {:induction false} NoDuplicatesSnoc(s: seq<Action>, a: Action)
    requires NoDuplicates(s) && a !in s
    ensures NoDuplicates(s + [a])
  {
  }

  lemma {:induction false} OneGone(a: Action, f: Fate)
    ensures Actions([(a, f)]) == [a]
    ensures Fated([(a, f)], Started) == if f == Started then [a] else []
  {
    assert [(a, f)][1..] == [];
  }

  lemma {:induction false} SerialKept(s: State, step: Step)
    requires OnePerformer(s) && Serial(s) && Enabled(s, step)
    ensures Serial(Do(s, step))
  {
    hide Fated;
    var t := Do(s, step);
    OnePerformerKept(s, step);
    OneDoing(s.performers);
    OneDoing(t.performers);
    match step {
      case Clear =>
        FatedSnoc(s.gone, Marked(s.que), Started);
        MarkedHistory(s.que);
        assert Fated(s.gone, Started) + [] == Fated(s.gone, Started);
      case Take(i) =>
        if s.que != [] {
          FatedSnoc(s.gone, [(s.que[0], Started)], Started);
          OneGone(s.que[0], Started);
        }
      case _ =>
    }
  }

  /** Safety in every interleaving, from the empty queue on. */
  lemma {:induction false} RunKeepsInv(s: State, steps: seq<Step>)
    requires Inv(s) && Run(s, steps).Some?
    ensures Inv(Run(s, steps).value)
    decreases |steps|
  {
    hide Inv, Do, Enabled;
    if steps != [] {
      InvKept(s, steps[0]);
      RunKeepsInv(Do(s, steps[0]), steps[1..]);
    }
  }

  lemma {:induction false} InvKept(s: State, step: Step)
    requires Inv(s) && Enabled(s, step)
    ensures Inv(Do(s, step))
  {
    OnePerformerKept(s, step);
    ConservedKept(s, step);
    SerialKept(s, step);
  }

  // ---- safety ----

  /** `sub` is what is left of `s` when some elements are struck out. */
  predicate Subsequence(sub: seq<Action>, s: seq<Action>)
    decreases |s|
  {
    if sub == [] then true
    else if s == [] then false
    else if sub[0] == s[0] then Subsequence(sub[1..], s[1..])
    else Subsequence(sub, s[1..])
  }

  lemma {:induction false} FatedSubsequence(gone: seq<(Action, Fate)>, f: Fate, tail: seq<Action>)
    requires NoDuplicates(Actions(gone) + tail)
    ensures Subsequence(Fated(gone, f), Actions(gone) + tail)
    decreases |gone|
  {
    hide NoDuplicates;
    if gone != [] {
      var first, rest := gone[0].0, Actions(gone[1..]) + tail;
      assert Actions(gone) + tail == [first] + rest;
      assert ([first] + rest)[1..] == rest;
      NoDuplicatesCons(first, rest);
      FatedSubsequence(gone[1..], f, tail);
      if gone[0].1 == f {
        assert Fated(gone, f)[1..] == Fated(gone[1..], f);
      } else {
        assert Fated(gone, f) == Fated(gone[1..], f);
        FatedFrom(gone[1..], f);
      }
    }
  }

  lemma {:induction false} NoDuplicatesCons(first: Action, rest: seq<Action>)
    requires NoDuplicates([first] + rest)
    ensures NoDuplicates(rest) && first !in rest
  {
    forall i, j | 0 <= i < j < |rest| ensures rest[i] != rest[j] {
      assert ([first] + rest)[i + 1] != ([first] + rest)[j + 1];
    }
    forall k | 0 <= k < |rest| ensures rest[k] != first {
      assert ([first] + rest)[k + 1] != ([first] + rest)[0];
    }
  }

  lemma {:induction false} FatedFrom(gone: seq<(Action, Fate)>, f: Fate)
    ensures Fated(gone, f) != [] ==> Fated(gone, f)[0] in Actions(gone)
    decreases |gone|
  {
    if gone != [] { FatedFrom(gone[1..], f); }
  }

  lemma {:induction false} FatesPartition(gone: seq<(Action, Fate)>)
    ensures multiset(Actions(gone)) == multiset(Fated(gone, Started)) + multiset(Fated(gone, Cleared))
    decreases |gone|
  {
    if gone != [] { FatesPartition(gone[1..]); }
  }

  /** What every run from the empty queue keeps, whatever is pushed, cleared, shut down or
      cancelled: at most one action runs at a time; the actions started are a subsequence
      of the pushes in lock order and return in that order; started, cleared and queued
      actions together are the accepted pushes, each exactly once. */
  lemma {:induction false} Safety(steps: seq<Step>)
    requires Run(START, steps).Some?
    ensures var s := Run(START, steps).value;
      var started := Fated(s.gone, Started);
      && |s.performers| + s.toSpawn == (if s.running then 1 else 0)
      && |Doing(s.performers)| <= 1
      && started == s.finished + Doing(s.performers)
      && Subsequence(started, s.accepted)
      && NoDuplicates(s.accepted)
      && multiset(s.accepted) == multiset(started) + multiset(Fated(s.gone, Cleared)) + multiset(s.que)
  {
    hide Do, Enabled, Run;
    InvStart();
    RunKeepsInv(START, steps);
    var s := Run(START, steps).value;
    OneDoing(s.performers);
    FatedSubsequence(s.gone, Started, s.que);
    FatesPartition(s.gone);
  }

  // ---- no lost wakeup ----

  /** A non-empty queue has a performer, or one about to be spawned. */
  predicate Awake(s: State) {
    && (s.que != [] ==> s.running)
    && (forall p | p in s.performers :: !p.cancelled)
  }

  /** Every step but the emission of the cancellation keeps a performer for the queue. */
  lemma {:induction false} AwakeKept(s: State, step: Step)
    requires OnePerformer(s) && Awake(s) && Enabled(s, step) && step != Emit
    ensures Awake(Do(s, step))
  {
    match step {
      case Take(i) => assert s.performers[i] in s.performers;
      case Return(i) => assert s.performers[i] in s.performers;
      case _ =>
    }
  }

  /** A performer that sees its cancellation while actions are queued. */
  predicate Abandons(s: State, step: Step) {
    step.Take? && step.i < |s.performers| && s.performers[step.i].cancelled && s.que != []
  }

  /** The exact condition, step by step: a queue that has its performer loses it when, and
      only when, the performer sees its cancellation before the queue is empty. */
  lemma {:induction false} WakeupLostExactly(s: State, step: Step)
    requires OnePerformer(s) && (s.que != [] ==> s.running) && Enabled(s, step)
    ensures var t := Do(s, step);
      (t.que != [] && !t.running) <==> Abandons(s, step)
  {
    if step.Take? { assert s.running; }
  }

  /** In every state of a run, a non-empty queue has its performer. */
  predicate NeverLost(s: State, steps: seq<Step>)
    decreases |steps|
  {
    && (s.que != [] ==> s.running)
    && (steps != [] && Enabled(s, steps[0]) ==> NeverLost(Do(s, steps[0]), steps[1..]))
  }

  /** No step of a run is a performer that sees its cancellation while actions are queued. */
  predicate NeverAbandons(s: State, steps: seq<Step>)
    decreases |steps|
  {
    steps != [] && Enabled(s, steps[0]) ==> !Abandons(s, steps[0]) && NeverAbandons(Do(s, steps[0]), steps[1..])
  }

  /** The exact condition for a run: the queue has its performer all along if and only if no
      performer abandons it. */
  lemma {:induction false} NeverLostExactly(s: State, steps: seq<Step>)
    requires OnePerformer(s) && (s.que != [] ==> s.running) && Run(s, steps).Some?
    ensures NeverLost(s, steps) <==> NeverAbandons(s, steps)
    decreases |steps|
  {
    hide Do, Enabled, Abandons;
    if steps != [] {
      var t := Do(s, steps[0]);
      OnePerformerKept(s, steps[0]);
      WakeupLostExactly(s, steps[0]);
      if t.que != [] ==> t.running {
        NeverLostExactly(t, steps[1..]);
      }
    }
  }

  /** The same from the empty queue, with what it means at the end: an idle state in which
      every accepted action was finished or cleared. */
  lemma {:induction false} LostExactlyByAbandoning(steps: seq<Step>)
    requires Run(START, steps).Some?
    ensures NeverLost(START, steps) <==> NeverAbandons(START, steps)
    ensures var s := Run(START, steps).value;
      NeverAbandons(START, steps) && Idle(s) ==>
        s.que == [] && multiset(s.accepted) == multiset(s.finished) + multiset(Fated(s.gone, Cleared))
  {
    hide Do, Enabled, Run, NeverLost, NeverAbandons;
    InvStart();
    NeverLostExactly(START, steps);
    if NeverAbandons(START, steps) {
      LastIsNotLost(START, steps);
    }
    RunKeepsInv(START, steps);
    Safety(steps);
    var s := Run(START, steps).value;
    if s.performers == [] {
      assert Doing(s.performers) == [] && s.finished + [] == s.finished;
    }
  }

  lemma {:induction false} LastIsNotLost(s: State, steps: seq<Step>)
    requires NeverLost(s, steps) && Run(s, steps).Some?
    ensures var t := Run(s, steps).value; t.que != [] ==> t.running
    decreases |steps|
  {
    hide Do, Enabled;
    if steps != [] { LastIsNotLost(Do(s, steps[0]), steps[1..]); }
  }

  lemma {:induction false} RunKeepsAwake(s: State, steps: seq<Step>)
    requires Inv(s) && Awake(s) && Run(s, steps).Some? && Emit !in steps
    ensures Awake(Run(s, steps).value) && Inv(Run(s, steps).value)
    decreases |steps|
  {
    hide Inv, Do, Enabled, Awake;
    if steps != [] {
      assert Inv(s) ==> OnePerformer(s) by { InvParts(s); }
      assert steps[0] in steps && Emit !in steps[1..];
      InvKept(s, steps[0]);
      AwakeKept(s, steps[0]);
      RunKeepsAwake(Do(s, steps[0]), steps[1..]);
    }
  }

  lemma {:induction false} InvParts(s: State)
    requires Inv(s)
    ensures OnePerformer(s) && Conserved(s) && Serial(s)
  {
  }

  predicate Idle(s: State) {
    s.performers == [] && s.toSpawn == 0
  }

  /** No wakeup is lost: in a run without cancellation, when nothing is running or about to
      be, the queue is empty, so every accepted action was run to its end or cleared. */
  lemma {:induction false} NoLostWakeup(steps: seq<Step>)
    requires Run(START, steps).Some? && Emit !in steps && Idle(Run(START, steps).value)
    ensures var s := Run(START, steps).value;
      s.que == [] && multiset(s.accepted) == multiset(s.finished) + multiset(Fated(s.gone, Cleared))
  {
    hide Do, Enabled, Run;
    InvStart();
    RunKeepsAwake(START, steps);
    Safety(steps);
    var s := Run(START, steps).value;
    assert Doing(s.performers) == [];
    assert s.finished + [] == s.finished;
  }

  /** Whoever is running an action when a shutdown is emitted stops after it, whatever is
      still queued. */
  lemma {:induction false} ShutdownStrands(s: State)
    requires OnePerformer(s) && s.performers != [] && s.performers[0].doing.Some?
    ensures var r := Run(s, [ShutdownCheck(true), ShutdownSet(true), Emit] + [Return(0), Take(0)]);
      r.Some? && Idle(r.value) && r.value.que == s.que
  {
    hide Run;
    CancelsAll(s);
    var t := Do(Do(Do(s, ShutdownCheck(true)), ShutdownSet(true)), Emit);
    ReturnThenStop(t);
    RunThree(s, ShutdownCheck(true), ShutdownSet(true), Emit, [Return(0), Take(0)]);
    RunTwo(t, Return(0), Take(0));
  }

  lemma {:induction false} CancelsAll(s: State)
    requires s.running || !s.shutdowning
    ensures Enabled(Do(s, ShutdownCheck(true)), ShutdownSet(true))
    ensures var t := Do(Do(s, ShutdownCheck(true)), ShutdownSet(true));
      Enabled(t, Emit) && Do(t, Emit) == s.(shutdowning := true, performers := CancelAll(s.performers))
  {
  }

  lemma {:induction false} ReturnThenStop(s: State)
    requires |s.performers| == 1 && s.performers[0].doing.Some? && s.performers[0].cancelled
    ensures Enabled(s, Return(0)) && Enabled(Do(s, Return(0)), Take(0))
    ensures var t := Do(Do(s, Return(0)), Take(0));
      t.performers == [] && t.toSpawn == s.toSpawn && t.que == s.que
  {
  }

  /** With a cancellation the queue can be left behind: a performer that is cancelled while
      it runs one action stops before the next. */
  lemma {:induction false} CancellationLeavesQueue()
    ensures var steps := [Check(0), Enqueue(0), Spawn, Take(0), Check(1), Enqueue(1),
                          ShutdownCheck(true), ShutdownSet(true), Emit, Return(0), Take(0)];
      Run(START, steps).Some? && Idle(Run(START, steps).value) && Run(START, steps).value.que == [1]
  {
    hide Do, Enabled, Run;
    var late := [ShutdownCheck(true), ShutdownSet(true), Emit] + [Return(0), Take(0)];
    FirstPush(START, 0);
    var s := Do(Do(Do(START, Check(0)), Enqueue(0)), Spawn);
    NextPush(s, 0, 1);
    var t := Do(Do(Do(s, Take(0)), Check(1)), Enqueue(1));
    RunThree(START, Check(0), Enqueue(0), Spawn, [Take(0), Check(1), Enqueue(1)] + late);
    RunThree(s, Take(0), Check(1), Enqueue(1), late);
    ShutdownStrands(t);
    assert ([Check(0), Enqueue(0), Spawn] + ([Take(0), Check(1), Enqueue(1)] + late))
      == [Check(0), Enqueue(0), Spawn, Take(0), Check(1), Enqueue(1),
          ShutdownCheck(true), ShutdownSet(true), Emit, Return(0), Take(0)];
  }

  lemma {:induction false} FirstPush(s: State, a: Action)
    requires OnePerformer(s) && !s.running && !s.shutdowning && s.que == [] && a !in s.seen
    ensures Enabled(s, Check(a)) && Enabled(Do(s, Check(a)), Enqueue(a))
    ensures Enabled(Do(Do(s, Check(a)), Enqueue(a)), Spawn)
    ensures var t := Do(Do(Do(s, Check(a)), Enqueue(a)), Spawn);
      && OnePerformer(t) && t.running && !t.shutdowning && t.que == [a]
      && t.performers == [Performer(None, false)] && t.seen == s.seen + {a}
  {
  }

  lemma {:induction false} NextPush(s: State, a: Action, b: Action)
    requires OnePerformer(s) && s.running && !s.shutdowning && s.que == [a] && b !in s.seen
    requires s.performers == [Performer(None, false)]
    ensures Enabled(s, Take(0)) && Enabled(Do(s, Take(0)), Check(b))
    ensures Enabled(Do(Do(s, Take(0)), Check(b)), Enqueue(b))
    ensures var t := Do(Do(Do(s, Take(0)), Check(b)), Enqueue(b));
      OnePerformer(t) && t.que == [b] && t.performers == [Performer(Some(a), false)]
  {
  }

  lemma {:induction false} RunTwo(s: State, a: Step, b: Step)
    requires Enabled(s, a) && Enabled(Do(s, a), b)
    ensures Run(s, [a, b]) == Some(Do(Do(s, a), b))
  {
    hide Do, Enabled;
    assert [a, b][1..] == [b] && [b][1..] == [];
    assert Run(Do(s, a), [b]) == Run(Do(Do(s, a), b), []);
  }

  lemma {:induction false} RunThree(s: State, a: Step, b: Step, c: Step, rest: seq<Step>)
    requires Enabled(s, a) && Enabled(Do(s, a), b) && Enabled(Do(Do(s, a), b), c)
    ensures Run(s, [a, b, c] + rest) == Run(Do(Do(Do(s, a), b), c), rest)
  {
    hide Do, Enabled;
    assert ([a, b, c] + rest)[1..] == [b, c] + rest;
    assert ([b, c] + rest)[1..] == [c] + rest;
    assert ([c] + rest)[1..] == rest;
    assert Run(Do(s, a), [b, c] + rest) == Run(Do(Do(s, a), b), [c] + rest);
  }

  // ---- the performers' progress ----

  predicate Worker(step: Step) {
    step.Spawn? || step.Take? || step.Return?
  }

  /** Worker steps that can still be made before the queue is idle. */
  function Work(s: State): nat {
    2 * |s.que| + 2 * s.toSpawn + |s.performers| + |Doing(s.performers)|
  }

  /** Each step of a performer uses up one unit of the work left. */
  lemma {:induction false} WorkShrinks(s: State, step: Step)
    requires OnePerformer(s) && Awake(s) && Worker(step) && Enabled(s, step)
    ensures Work(Do(s, step)) == Work(s) - 1
  {
    hide Doing;
    var t := Do(s, step);
    OnePerformerKept(s, step);
    OneDoing(s.performers);
    OneDoing(t.performers);
    if step.Take? { assert s.performers[step.i] in s.performers; }
  }

  /** As long as work is left, some performer can go on. */
  lemma {:induction false} WorkIsEnabled(s: State) returns (step: Step)
    requires OnePerformer(s) && Awake(s) && Work(s) > 0
    ensures Worker(step) && Enabled(s, step)
  {
    OneDoing(s.performers);
    if s.toSpawn > 0 {
      step := Spawn;
    } else if s.performers[0].doing.None? {
      step := Take(0);
    } else {
      step := Return(0);
    }
  }

  /** The queue drains: performers alone make exactly `Work` steps, no more and no fewer,
      and then the queue is empty and idle. */
  lemma {:induction false} Drains(s: State, steps: seq<Step>)
    requires Inv(s) && Awake(s) && Run(s, steps).Some? && forall step | step in steps :: Worker(step)
    ensures |steps| <= Work(s)
    ensures var t := Run(s, steps).value;
      |steps| == Work(s) <==> (t.que == [] && Idle(t))
    decreases |steps|
  {
    hide Do, Enabled, Conserved, Serial;
    if steps == [] {
      OneDoing(s.performers);
    } else {
      assert steps[0] in steps;
      assert forall step | step in steps[1..] :: step in steps;
      InvKept(s, steps[0]);
      AwakeKept(s, steps[0]);
      WorkShrinks(s, steps[0]);
      Drains(Do(s, steps[0]), steps[1..]);
    }
  }

  // ---- shutdown ----

  /** One step after the flag is set: at most one push is accepted, of those past the check. */
  lemma {:induction false} ShutdownStep(s: State, step: Step)
    requires s.shutdowning && Enabled(s, step)
    ensures var t := Do(s, step);
      && t.shutdowning
      && ((t.accepted == s.accepted && t.passed == s.passed)
          || (exists a :: a in s.passed && t.accepted == s.accepted + [a] && t.passed == s.passed - {a}))
  {
    if step.Enqueue? { assert step.a in s.passed; }
  }

  /** Once `shutdowning_` is set it stays set, and the only pushes still accepted are those
      that were already past the flag check. */
  lemma {:induction false} ShutdownClosesQueue(s: State, steps: seq<Step>)
    requires s.shutdowning && Run(s, steps).Some?
    ensures var t := Run(s, steps).value;
      && t.shutdowning
      && t.passed <= s.passed
      && s.accepted <= t.accepted
      && (forall a | a in t.accepted[|s.accepted|..] :: a in s.passed)
      && |t.accepted| + |t.passed| == |s.accepted| + |s.passed|
    decreases |steps|
  {
    hide Do, Enabled;
    if steps != [] {
      var u := Do(s, steps[0]);
      ShutdownStep(s, steps[0]);
      ShutdownClosesQueue(u, steps[1..]);
      var t := Run(u, steps[1..]).value;
      if u.accepted != s.accepted {
        var a :| a in s.passed && u.accepted == s.accepted + [a] && u.passed == s.passed - {a};
        AcceptedSince(s.accepted, a, t.accepted);
        assert |s.passed - {a}| == |s.passed| - 1;
      }
    }
  }

  lemma {:induction false} AcceptedSince(before: seq<Action>, a: Action, after: seq<Action>)
    requires before + [a] <= after
    ensures before <= after && after[|before|..] == [a] + after[|before| + 1..]
  {
    assert after[|before|] == (before + [a])[|before|];
  }

  /** A shutdown raises the flag, with or without its cancellation, idle or not: it returns
      early only when the flag is up already. */
  lemma {:induction false} ShutdownRaises(s: State, emit: bool)
    ensures var r := Run(s, [ShutdownCheck(emit), ShutdownSet(emit)]);
      if s.running || !s.shutdowning
      then r == Some(s.(shutdowning := true, toEmit := s.toEmit + if emit then 1 else 0))
      else s.shutdowning && Do(s, ShutdownCheck(emit)) == s
  {
    hide Run;
    if s.running || !s.shutdowning { RunTwo(s, ShutdownCheck(emit), ShutdownSet(emit)); }
  }

  /** A cancellation is emitted, and a performer sees one, only when the flag is up. */
  predicate OnlyShutdownCancels(s: State) {
    (s.toEmit > 0 || exists p :: p in s.performers && p.cancelled) ==> s.shutdowning
  }

  lemma {:induction false} OnlyShutdownCancelsKept(s: State, step: Step)
    requires OnlyShutdownCancels(s) && Enabled(s, step)
    ensures OnlyShutdownCancels(Do(s, step))
  {
    var t := Do(s, step);
    if !t.shutdowning {
      assert forall p | p in s.performers :: !p.cancelled;
      match step {
        case Take(i) => assert s.performers[i] in s.performers;
        case Return(i) => assert s.performers[i] in s.performers;
        case _ =>
      }
    }
  }

  lemma {:induction false} OnlyShutdownCancelsAlways(s: State, steps: seq<Step>)
    requires OnlyShutdownCancels(s) && Run(s, steps).Some?
    ensures OnlyShutdownCancels(Run(s, steps).value)
    decreases |steps|
  {
    hide OnlyShutdownCancels, Do, Enabled;
    if steps != [] {
      OnlyShutdownCancelsKept(s, steps[0]);
      OnlyShutdownCancelsAlways(Do(s, steps[0]), steps[1..]);
    }
  }

  lemma {:induction false} NobodyEmits(s: State, steps: seq<Step>)
    requires s.toShut == 0 && s.toEmit == 0
    requires Run(s, steps).Some? && ShutdownCheck(true) !in steps
    ensures Emit !in steps
    decreases |steps|
  {
    if steps != [] {
      assert steps[0] in steps && ShutdownCheck(true) !in steps[1..];
      NobodyEmits(Do(s, steps[0]), steps[1..]);
      assert steps == [steps[0]] + steps[1..];
    }
  }

  /** Shutting down without the cancellation loses nothing: in every run all of whose
      shutdowns are of that kind, an idle queue is empty, and every accepted action was
      finished or cleared. */
  lemma {:induction false} QuietShutdownDrains(steps: seq<Step>)
    requires Run(START, steps).Some? && ShutdownCheck(true) !in steps && Idle(Run(START, steps).value)
    ensures var s := Run(START, steps).value;
      s.que == [] && multiset(s.accepted) == multiset(s.finished) + multiset(Fated(s.gone, Cleared))
  {
    hide Do, Enabled, Run;
    NobodyEmits(START, steps);
    NoLostWakeup(steps);
  }

  /** After a cancellation the performers there are start nothing more, whatever else goes on. */
  lemma {:induction false} CancelledStartNothing(s: State, steps: seq<Step>)
    requires Run(s, steps).Some? && Spawn !in steps
    requires forall p | p in s.performers :: p.cancelled
    ensures Fated(Run(s, steps).value.gone, Started) == Fated(s.gone, Started)
    decreases |steps|
  {
    hide Fated;
    if steps != [] {
      var t := Do(s, steps[0]);
      assert steps[0] in steps && Spawn !in steps[1..];
      match steps[0] {
        case Take(i) => assert s.performers[i] in s.performers;
        case Return(i) => assert s.performers[i] in s.performers;
        case Clear =>
          FatedSnoc(s.gone, Marked(s.que), Started);
          MarkedHistory(s.que);
          assert Fated(s.gone, Started) + [] == Fated(s.gone, Started);
        case _ =>
      }
      CancelledStartNothing(t, steps[1..]);
    }
  }

  // ---- pushes and clears ----

  /** A push on an open queue is accepted, at the end, and has a performer; on a closed one
      it never gets to the lock. */
  lemma {:induction false} PushIsAccepted(s: State, a: Action)
    requires Conserved(s) && a !in s.seen
    ensures var r := Run(s, [Check(a), Enqueue(a)]);
      if s.shutdowning then r == None && Do(s, Check(a)) == s.(seen := s.seen + {a})
      else
        && r.Some? && r.value.running
        && r.value.que == s.que + [a] && r.value.accepted == s.accepted + [a]
        && r.value.toSpawn == s.toSpawn + if s.running then 0 else 1
  {
    hide Run;
    if s.shutdowning {
      RefusedSecond(s, Check(a), Enqueue(a));
    } else {
      RunTwo(s, Check(a), Enqueue(a));
    }
  }

  lemma {:induction false} RefusedSecond(s: State, a: Step, b: Step)
    requires Enabled(s, a) && !Enabled(Do(s, a), b)
    ensures Run(s, [a, b]) == None
  {
    hide Do, Enabled;
    assert [a, b][1..] == [b];
    assert Run(Do(s, a), [b]) == None;
  }

  lemma {:induction false} GoneGrows(s: State, steps: seq<Step>) returns (more: seq<(Action, Fate)>)
    requires Run(s, steps).Some?
    ensures Run(s, steps).value.gone == s.gone + more
    decreases |steps|
  {
    if steps == [] {
      more := [];
    } else {
      var u := Do(s, steps[0]);
      var now := u.gone[|s.gone|..];
      assert u.gone == s.gone + now;
      var later := GoneGrows(u, steps[1..]);
      more := now + later;
      assert s.gone + now + later == s.gone + more;
    }
  }

  lemma {:induction false} FatedIsGone(gone: seq<(Action, Fate)>, f: Fate)
    ensures forall a | a in Fated(gone, f) :: a in Actions(gone)
  {
    if gone != [] { FatedIsGone(gone[1..], f); }
  }

  lemma {:induction false} Apart(x: seq<Action>, y: seq<Action>)
    requires NoDuplicates(x + y)
    ensures NoDuplicates(x) && NoDuplicates(y) && forall a | a in x :: a !in y
  {
    assert forall i | 0 <= i < |x| :: (x + y)[i] == x[i];
    assert forall j | 0 <= j < |y| :: (x + y)[|x| + j] == y[j];
  }

  /** Cleared for good: what was queued at a clear is out of the queue, and no run starts it
      afterwards. */
  lemma {:induction false} ClearedForGood(s: State, after: seq<Step>)
    requires Inv(s) && Run(s, [Clear] + after).Some?
    ensures var t := Run(s, [Clear] + after).value;
      forall a | a in s.que :: a !in t.que && a !in Fated(t.gone, Started) && a in Fated(t.gone, Cleared)
  {
    hide Fated, Actions, NoDuplicates, Run;
    var u := Do(s, Clear);
    RunFirst(s, Clear, after);
    var t := Run(u, after).value;
    InvKept(s, Clear);
    RunKeepsInv(u, after);
    var more := GoneGrows(u, after);
    var past, now := Actions(s.gone), Marked(s.que);
    ActionsSnoc(s.gone + now, more);
    ActionsSnoc(s.gone, now);
    MarkedHistory(s.que);
    Apart(past + s.que + Actions(more), t.que);
    Apart(past + s.que, Actions(more));
    Apart(past, s.que);
    FatedSnoc(s.gone + now, more, Started);
    FatedSnoc(s.gone, now, Started);
    FatedSnoc(s.gone + now, more, Cleared);
    FatedSnoc(s.gone, now, Cleared);
    FatedIsGone(s.gone, Started);
    FatedIsGone(more, Started);
  }

  lemma {:induction false} RunFirst(s: State, a: Step, rest: seq<Step>)
    requires Run(s, [a] + rest).Some?
    ensures Enabled(s, a) && Run(s, [a] + rest) == Run(Do(s, a), rest)
  {
    hide Do, Enabled;
    assert ([a] + rest)[1..] == rest;
  }
}
