/** `session::run` against any number of `session::abort` calls, step by step: `abort_` is
    an atomic flag, `task_` is swapped and aborted under `task_mtx_`, and a task's `then()`
    is called between a check and a swap that hold no lock. */
module SessionProtocol {
  import opened Text

  datatype Kind = DetectSsl | SslHandshake | Http | HttpProxy | WebSocket

  /** What a task's `then()` may return. */
  predicate Successor(from: Kind, next: Option<Kind>) {
    match (from, next)
    case (_, None) => true
    case (DetectSsl, Some(k)) => k == SslHandshake || k == Http
    case (SslHandshake, Some(k)) => k == Http
    case (Http, Some(k)) => k == HttpProxy || k == WebSocket
    case (_, Some(_)) => false
  }

  function Rank(k: Kind): nat {
    match k case DetectSsl => 3 case SslHandshake => 2 case Http => 1 case _ => 0
  }

  /** A task object: its creation number tells it from others of its kind. */
  datatype Task = Task(id: nat, kind: Kind)

  datatype Runner =
    | Checking                     // about to evaluate `!abort_ && task_`
    | Entering                     // the condition held; about to call `then()`
    | Inside                       // in `then()`
    | Swapping(next: Option<Task>) // `then()` returned; about to take the lock
    | Done

  datatype Aborter = ToSet | ToLock | Returned

  datatype State = State(
    task: Option<Task>, abort: bool, runner: Runner, aborters: map<nat, Aborter>,
    // history
    created: nat,
    aborted: set<Task>,            // tasks that received `abort`
    locked: bool,                  // some abort() has finished its locked section
    begun: seq<Task>)              // tasks whose `then()` began, in order

  const START := State(Some(Task(0, DetectSsl)), false, Checking, map[], 1, {}, false, [])

  datatype Step =
    | RunCheck
    | ThenBegin
    | ThenReturn(next: Option<Kind>)
    | RunSwap
    | AbortCheck(k: nat)
    | AbortSet(k: nat)
    | AbortLocked(k: nat)

  predicate Enabled(s: State, step: Step) {
    match step
    case RunCheck => s.runner == Checking
    case ThenBegin => s.runner == Entering && s.task.Some?
    case ThenReturn(next) => s.runner == Inside && s.task.Some? && Successor(s.task.value.kind, next)
    case RunSwap => s.runner.Swapping?
    case AbortCheck(k) => k !in s.aborters
    case AbortSet(k) => k in s.aborters && s.aborters[k] == ToSet
    case AbortLocked(k) => k in s.aborters && s.aborters[k] == ToLock
  }

  function Do(s: State, step: Step): State
    requires Enabled(s, step)
  {
    match step
    case RunCheck => s.(runner := if !s.abort && s.task.Some? then Entering else Done)
    case ThenBegin => s.(runner := Inside, begun := s.begun + [s.task.value])
    case ThenReturn(next) =>
      (match next
       case None => s.(runner := Swapping(None))
       case Some(k) => s.(runner := Swapping(Some(Task(s.created, k))), created := s.created + 1))
    case RunSwap => s.(task := s.runner.next, runner := Checking)
    case AbortCheck(k) => s.(aborters := s.aborters[k := if s.abort then Returned else ToSet])
    case AbortSet(k) => s.(abort := true, aborters := s.aborters[k := ToLock])
    case AbortLocked(k) =>
      var t := s.(aborters := s.aborters[k := Returned], locked := true);
      if s.task.Some? then t.(aborted := s.aborted + {s.task.value}) else t
  }

  function Run(s: State, steps: seq<Step>): Option<State>
    decreases |steps|
  {
    if steps == [] then Some(s)
    else if Enabled(s, steps[0]) then Run(Do(s, steps[0]), steps[1..])
    else None
  }

  // ---- the invariant ----

  /** The abort flag is up before any abort takes the lock, and stays up; a task about to
      be entered after that has received its `abort`. */
  predicate AbortSeen(s: State) {
    && (s.locked ==> s.abort)
    && (forall k | k in s.aborters && s.aborters[k] == ToLock :: s.abort)
    && (s.runner.Entering? || s.runner.Inside? ==> s.task.Some?)
    && (s.runner.Entering? && s.locked ==> s.task.value in s.aborted)
  }

  /** How many `then()`s may have begun, given where the session stands. */
  predicate Descending(s: State) {
    && Chained(s.begun) && (forall i | 0 <= i < |s.begun| :: s.begun[i].id < s.created)
    && (s.task.Some? ==> s.task.value.id < s.created)
    && match s.runner
       case Checking => s.task.Some? ==> Below(s.begun, s.task.value)
       case Entering => s.task.Some? && Below(s.begun, s.task.value)
       case Inside => s.task.Some? && |s.begun| > 0 && s.begun[|s.begun| - 1] == s.task.value
       case Swapping(next) => next.Some? ==> Below(s.begun, next.value) && next.value.id < s.created
       case Done => true
  }

  predicate Chained(begun: seq<Task>) {
    forall i, j | 0 <= i < j < |begun| :: Rank(begun[i].kind) > Rank(begun[j].kind) && begun[i].id < begun[j].id
  }

  /** A task not yet begun is newer, and of a lower kind, than all that have. */
  predicate Below(begun: seq<Task>, t: Task) {
    forall i | 0 <= i < |begun| :: Rank(begun[i].kind) > Rank(t.kind) && begun[i].id < t.id
  }

  predicate Inv(s: State) {
    AbortSeen(s) && Descending(s)
  }

  lemma {:induction false} InvKept(s: State, step: Step)
    requires Inv(s) && Enabled(s, step)
    ensures Inv(Do(s, step))
  {
    AbortSeenKept(s, step);
    DescendingKept(s, step);
  }

  lemma {:induction false} AbortSeenKept(s: State, step: Step)
    requires AbortSeen(s) && Enabled(s, step)
    ensures AbortSeen(Do(s, step))
  {
  }

  lemma {:induction false} DescendingKept(s: State, step: Step)
    requires AbortSeen(s) && Descending(s) && Enabled(s, step)
    ensures Descending(Do(s, step))
  {
    hide Chained, Below, AbortSeen;
    match step {
      case ThenBegin => ChainedSnoc(s.begun, s.task.value);
      case ThenReturn(Some(k)) => NextBelow(s.begun, Task(s.created, k));
      case _ =>
    }
  }

  lemma {:induction false} ChainedSnoc(begun: seq<Task>, t: Task)
    requires Chained(begun) && Below(begun, t)
    ensures Chained(begun + [t])
  {
  }

  lemma {:induction false} NextBelow(begun: seq<Task>, t: Task)
    requires Chained(begun) && begun != [] && Rank(t.kind) < Rank(begun[|begun| - 1].kind)
    requires forall i | 0 <= i < |begun| :: begun[i].id < t.id
    ensures Below(begun, t)
  {
  }

  lemma {:induction false} RunKeepsInv(s: State, steps: seq<Step>)
    requires Inv(s) && Run(s, steps).Some?
    ensures Inv(Run(s, steps).value)
    decreases |steps|
  {
    hide Inv, Do, Enabled;
    if steps != [] {
      InvKept(s, steps[0]);
      RunKeepsInv(Do(s, steps[0]), steps[1..]);
    }
  }

  lemma {:induction false} Chain(ranks: seq<nat>, top: nat)
    requires forall i, j | 0 <= i < j < |ranks| :: ranks[i] > ranks[j]
    requires forall i | 0 <= i < |ranks| :: ranks[i] <= top
    ensures |ranks| <= top + 1
    decreases top
  {
    if |ranks| > 1 {
      assert ranks[0] > ranks[1];
      forall i | 0 <= i < |ranks| - 1 ensures ranks[1..][i] <= top - 1 {
        assert ranks[0] > ranks[i + 1];
      }
      Chain(ranks[1..], top - 1);
    }
  }

  /** In every interleaving, the tasks whose `then()` begins descend strictly in kind, so
      none begins twice and a session runs at most four. */
  lemma {:induction false} AtMostFourTasks(steps: seq<Step>)
    requires Run(START, steps).Some?
    ensures var begun := Run(START, steps).value.begun;
      && |begun| <= 4
      && (forall i, j | 0 <= i < j < |begun| :: Rank(begun[i].kind) > Rank(begun[j].kind) && begun[i] != begun[j])
  {
    hide Run;
    RunKeepsInv(START, steps);
    var begun := Run(START, steps).value.begun;
    Chain(seq(|begun|, i requires 0 <= i < |begun| => Rank(begun[i].kind)), 3);
  }

  /** Once an abort has finished its locked section, at most one more `then()` begins: the
      one the runner was already committed to, on a task that has received `abort`. */
  lemma {:induction false} AbortStopsSession(s: State, steps: seq<Step>)
    requires Inv(s) && s.locked && Run(s, steps).Some?
    ensures var t := Run(s, steps).value;
      && t.locked
      && (t.begun == s.begun
          || (s.runner.Entering? && s.task.Some? && s.task.value in s.aborted && t.begun == s.begun + [s.task.value]))
    decreases |steps|
  {
    hide Descending;
    if steps != [] {
      InvKept(s, steps[0]);
      AbortStopsSession(Do(s, steps[0]), steps[1..]);
    }
  }

  /** The same for runs from the start: split at the moment an abort leaves its lock. */
  lemma {:induction false} AfterAbort(before: seq<Step>, k: nat, after: seq<Step>)
    requires Run(START, before + [AbortLocked(k)]).Some?
    requires Run(Run(START, before + [AbortLocked(k)]).value, after).Some?
    ensures var s := Run(START, before + [AbortLocked(k)]).value;
      var begun := Run(s, after).value.begun;
      && s.begun <= begun && |begun| <= |s.begun| + 1
      && (forall t | t in begun[|s.begun|..] :: t in s.aborted)
  {
    hide Do, Enabled, Inv;
    var s := Run(START, before + [AbortLocked(k)]).value;
    assert Inv(START) by { InvStart(); }
    RunKeepsInv(START, before + [AbortLocked(k)]);
    LockedAtEnd(START, before, k);
    AbortStopsSession(s, after);
  }

  lemma {:induction false} InvStart()
    ensures Inv(START)
  {
  }

  lemma {:induction false} LockedAtEnd(s: State, before: seq<Step>, k: nat)
    requires Run(s, before + [AbortLocked(k)]).Some?
    ensures Run(s, before + [AbortLocked(k)]).value.locked
    decreases |before|
  {
    var all := before + [AbortLocked(k)];
    if before == [] {
      assert all == [AbortLocked(k)] && all[1..] == [];
    } else {
      assert all[1..] == before[1..] + [AbortLocked(k)];
      LockedAtEnd(Do(s, before[0]), before[1..], k);
    }
  }

  // ---- the runner's progress ----

  predicate RunnerStep(step: Step) {
    step.RunCheck? || step.ThenBegin? || step.ThenReturn? || step.RunSwap?
  }

  /** A bound on the steps the runner can still make. */
  function Ahead(s: State): nat {
    match s.runner
    case Done => 0
    case Checking => if s.task.None? then 1 else 4 * Rank(s.task.value.kind) + 5
    case Entering => if s.task.None? then 0 else 4 * Rank(s.task.value.kind) + 4
    case Inside => if s.task.None? then 0 else 4 * Rank(s.task.value.kind) + 3
    case Swapping(next) => if next.None? then 2 else 4 * Rank(next.value.kind) + 6
  }

  /** Every step of the runner brings it nearer its end, and nothing else moves it back. */
  lemma {:induction false} RunnerDescends(s: State, step: Step)
    requires Inv(s) && Enabled(s, step)
    ensures if RunnerStep(step) then Ahead(Do(s, step)) < Ahead(s) else Ahead(Do(s, step)) == Ahead(s)
  {
  }

  function Count(steps: seq<Step>): nat
    decreases |steps|
  {
    if steps == [] then 0 else (if RunnerStep(steps[0]) then 1 else 0) + Count(steps[1..])
  }

  /** No session runs for ever: whatever the aborts do, the runner makes at most seventeen
      steps, and after an abort has left its lock at most four. */
  lemma {:induction false} RunnerIsBounded(s: State, steps: seq<Step>)
    requires Inv(s) && Run(s, steps).Some?
    ensures Count(steps) <= Ahead(s) && (s == START ==> Count(steps) <= 17)
    ensures s.locked ==> Count(steps) <= 4
    decreases |steps|
  {
    hide Descending;
    if steps != [] {
      var t := Do(s, steps[0]);
      InvKept(s, steps[0]);
      RunnerDescends(s, steps[0]);
      RunnerIsBounded(t, steps[1..]);
      if s.locked { AbortedRunner(s, steps); }
    }
  }

  /** Steps left to the runner after an abort. */
  function Closing(s: State): nat {
    match s.runner case Done => 0 case Checking => 1 case Swapping(_) => 2 case Inside => 3 case Entering => 4
  }

  lemma {:induction false} AbortedRunner(s: State, steps: seq<Step>)
    requires Inv(s) && s.locked && Run(s, steps).Some?
    ensures Count(steps) <= Closing(s)
    decreases |steps|
  {
    hide Descending;
    if steps != [] {
      InvKept(s, steps[0]);
      AbortedRunner(Do(s, steps[0]), steps[1..]);
    }
  }

  // ---- what an abort achieves ----

  /** An abort that has returned has found or left the flag up; once the flag is up, some
      abort has been in the locked section or is on its way there. */
  predicate Aborting(s: State) {
    && (forall k | k in s.aborters && s.aborters[k] != ToSet :: s.abort)
    && (s.abort ==> s.locked || exists k :: k in s.aborters && s.aborters[k] == ToLock)
  }

  lemma {:induction false} AbortingKept(s: State, step: Step)
    requires Aborting(s) && Enabled(s, step)
    ensures Aborting(Do(s, step))
  {
    var t := Do(s, step);
    if t.abort && !t.locked {
      if step.AbortSet? {
        assert t.aborters[step.k] == ToLock;
      } else if !step.AbortLocked? {
        var k :| k in s.aborters && s.aborters[k] == ToLock;
        assert t.aborters[k] == ToLock;
      }
    }
  }

  lemma {:induction false} RunKeepsAborting(s: State, steps: seq<Step>)
    requires Aborting(s) && Run(s, steps).Some?
    ensures Aborting(Run(s, steps).value)
    decreases |steps|
  {
    hide Aborting, Do, Enabled;
    if steps != [] {
      AbortingKept(s, steps[0]);
      RunKeepsAborting(Do(s, steps[0]), steps[1..]);
    }
  }

  /** Aborting works, in every interleaving: once an abort was called and all calls have
      returned, the flag is up, and at most one more task begins, which has received `abort`. */
  lemma {:induction false} AbortWorks(before: seq<Step>, after: seq<Step>)
    requires Run(START, before).Some? && Run(Run(START, before).value, after).Some?
    requires var s := Run(START, before).value;
      s.aborters != map[] && forall k | k in s.aborters :: s.aborters[k] == Returned
    ensures var s := Run(START, before).value;
      var begun := Run(s, after).value.begun;
      && s.abort && s.locked
      && s.begun <= begun && |begun| <= |s.begun| + 1
      && (forall t | t in begun[|s.begun|..] :: t in s.aborted)
  {
    hide Do, Enabled, Inv;
    var s := Run(START, before).value;
    assert Inv(START) by { InvStart(); }
    RunKeepsInv(START, before);
    RunKeepsAborting(START, before);
    var k :| k in s.aborters;
    assert s.aborters[k] == Returned;
    AbortStopsSession(s, after);
  }

  /** The first abort, on its own: three steps raise the flag and tell the current task. */
  lemma {:induction false} FirstAbort(s: State, k: nat)
    requires !s.abort && k !in s.aborters
    ensures var r := Run(s, [AbortCheck(k), AbortSet(k), AbortLocked(k)]);
      && r.Some? && r.value.abort && r.value.locked && r.value.aborters == s.aborters[k := Returned]
      && r.value.aborted == s.aborted + (if s.task.Some? then {s.task.value} else {})
  {
    hide Run;
    RunThree(s, AbortCheck(k), AbortSet(k), AbortLocked(k));
    assert s.aborters[k := ToSet][k := ToLock][k := Returned] == s.aborters[k := Returned];
  }

  lemma {:induction false} RunThree(s: State, a: Step, b: Step, c: Step)
    requires Enabled(s, a) && Enabled(Do(s, a), b) && Enabled(Do(Do(s, a), b), c)
    ensures Run(s, [a, b, c]) == Some(Do(Do(Do(s, a), b), c))
  {
    hide Do, Enabled;
    assert [a, b, c][1..] == [b, c] && [b, c][1..] == [c] && [c][1..] == [];
    assert Run(Do(Do(s, a), b), [c]) == Run(Do(Do(Do(s, a), b), c), []);
    assert Run(Do(s, a), [b, c]) == Run(Do(Do(s, a), b), [c]);
  }

  // ---- what a session runs ----

  /** Without an abort no task is skipped: the tasks begun are those created, in order, but
      for the one that is next. */
  predicate NoneSkipped(s: State) {
    !s.abort ==>
      && (forall i | 0 <= i < |s.begun| :: s.begun[i].id == i)
      && match s.runner
         case Checking => Pending(s, s.task)
         case Entering => s.task.Some? && Pending(s, s.task)
         case Inside => Pending(s, None)
         case Swapping(next) => Pending(s, next)
         case Done => Pending(s, None)
  }

  predicate Pending(s: State, next: Option<Task>) {
    match next
    case None => s.created == |s.begun|
    case Some(t) => s.created == |s.begun| + 1 && t.id == |s.begun|
  }

  /** Each task begun was returned by the `then()` of the one before. */
  predicate Linked(s: State) {
    && Lived(s.begun)
    && match s.runner
       case Checking => s.task.Some? ==> Follows(s.begun, s.task.value.kind)
       case Entering => s.task.Some? && Follows(s.begun, s.task.value.kind)
       case Inside => s.task.Some? && s.begun != [] && s.begun[|s.begun| - 1] == s.task.value
       case Swapping(next) => next.Some? ==> Follows(s.begun, next.value.kind)
       case Done => true
  }

  predicate Lived(begun: seq<Task>) {
    forall i | 0 <= i < |begun| :: Follows(begun[..i], begun[i].kind)
  }

  predicate Follows(begun: seq<Task>, kind: Kind) {
    if begun == [] then kind == DetectSsl else Successor(begun[|begun| - 1].kind, Some(kind))
  }

  lemma {:induction false} LinkedKept(s: State, step: Step)
    requires Linked(s) && Enabled(s, step)
    ensures Linked(Do(s, step))
  {
    hide Lived, Follows;
    match step {
      case ThenBegin => LivedSnoc(s.begun, s.task.value);
      case ThenReturn(Some(k)) => FollowsLast(s.begun, k);
      case _ =>
    }
  }

  lemma {:induction false} LivedSnoc(begun: seq<Task>, t: Task)
    requires Lived(begun) && Follows(begun, t.kind)
    ensures Lived(begun + [t])
  {
    forall i | 0 <= i < |begun + [t]| ensures Follows((begun + [t])[..i], (begun + [t])[i].kind) {
      assert (begun + [t])[..i] == begun[..i];
    }
  }

  lemma {:induction false} FollowsLast(begun: seq<Task>, k: Kind)
    requires begun != [] && Successor(begun[|begun| - 1].kind, Some(k))
    ensures Follows(begun, k)
  {
  }

  lemma {:induction false} NoneSkippedKept(s: State, step: Step)
    requires NoneSkipped(s) && Enabled(s, step)
    ensures NoneSkipped(Do(s, step))
  {
    hide Successor;
  }

  lemma {:induction false} RunKeepsTasks(s: State, steps: seq<Step>)
    requires NoneSkipped(s) && Linked(s) && Run(s, steps).Some?
    ensures NoneSkipped(Run(s, steps).value) && Linked(Run(s, steps).value)
    decreases |steps|
  {
    hide NoneSkipped, Linked, Do, Enabled;
    if steps != [] {
      NoneSkippedKept(s, steps[0]);
      LinkedKept(s, steps[0]);
      RunKeepsTasks(Do(s, steps[0]), steps[1..]);
    }
  }

  function Kinds(begun: seq<Task>): (r: seq<Kind>)
    ensures |r| == |begun| && forall i | 0 <= i < |begun| :: r[i] == begun[i].kind
  {
    seq(|begun|, i requires 0 <= i < |begun| => begun[i].kind)
  }

  /** The four lives a session can have. */
  function Life(tls: bool, last: Kind): seq<Kind> {
    [DetectSsl] + (if tls then [SslHandshake] else []) + [Http, last]
  }

  /** In every interleaving a session lives the start of one of four lives; and a session
      that ends without an abort has begun every task it created. */
  lemma {:induction false} SessionLives(steps: seq<Step>) returns (tls: bool, last: Kind)
    requires Run(START, steps).Some?
    ensures var s := Run(START, steps).value;
      && (last == HttpProxy || last == WebSocket)
      && Kinds(s.begun) <= Life(tls, last)
      && (s.runner == Done && !s.abort ==> |s.begun| == s.created && s.begun != [])
  {
    hide Do, Enabled, Run;
    RunKeepsTasks(START, steps);
    CreatedKept(START, steps);
    tls, last := LifeOf(Run(START, steps).value.begun);
  }

  lemma {:induction false} CreatedKept(s: State, steps: seq<Step>)
    requires s.created > 0 && Run(s, steps).Some?
    ensures Run(s, steps).value.created > 0
    decreases |steps|
  {
    if steps != [] { CreatedKept(Do(s, steps[0]), steps[1..]); }
  }

  lemma {:induction false} LifeOf(begun: seq<Task>) returns (tls: bool, last: Kind)
    requires Lived(begun)
    ensures (last == HttpProxy || last == WebSocket) && Kinds(begun) <= Life(tls, last)
  {
    tls := |begun| > 1 && begun[1].kind == SslHandshake;
    var k := if tls then 3 else 2;
    LivedAt(begun, 0);
    LivedAt(begun, 1);
    LivedAt(begun, 2);
    LivedAt(begun, 3);
    LivedAt(begun, 4);
    last := if |begun| > k then begun[k].kind else WebSocket;
    var life := Life(tls, last);
    assert |life| == k + 1 && |begun| <= k + 1;
    assert forall i | 0 <= i < |begun| :: begun[i].kind == life[i];
  }

  lemma {:induction false} LivedAt(begun: seq<Task>, i: nat)
    requires Lived(begun)
    ensures i < |begun| ==> if i == 0 then begun[0].kind == DetectSsl else Successor(begun[i - 1].kind, Some(begun[i].kind))
  {
    if i < |begun| { assert Follows(begun[..i], begun[i].kind); }
  }

  /** The steps of a session that lives through `kinds`, undisturbed. */
  function StepsOf(kinds: seq<Kind>): seq<Step> {
    if kinds == [] then [RunCheck]
    else [RunCheck, ThenBegin, ThenReturn(if |kinds| == 1 then None else Some(kinds[1])), RunSwap] + StepsOf(kinds[1..])
  }

  /** Each of the four is lived: what `then()` returns is the next task begun, to the end;
      the longest takes the runner its seventeen steps. */
  lemma {:induction false} EveryLifeIsLived(tls: bool, last: Kind)
    requires last == HttpProxy || last == WebSocket
    ensures var steps := StepsOf(Life(tls, last));
      var r := Run(START, steps);
      && r.Some? && Kinds(r.value.begun) == Life(tls, last) && r.value.runner == Done
      && Count(steps) == |steps| == if tls then 17 else 13
  {
    hide StepsOf, Run;
    var life := Life(tls, last);
    LivesOn(START, life);
    StepsCount(life);
    assert Kinds([]) + life == life;
  }

  lemma {:induction false} StepsCount(kinds: seq<Kind>)
    ensures |StepsOf(kinds)| == 4 * |kinds| + 1 && Count(StepsOf(kinds)) == |StepsOf(kinds)|
  {
    if kinds == [] {
      assert [RunCheck][1..] == [];
    } else {
      StepsCount(kinds[1..]);
      var next := if |kinds| == 1 then None else Some(kinds[1]);
      CountFour(next, StepsOf(kinds[1..]));
    }
  }

  lemma {:induction false} CountFour(next: Option<Kind>, rest: seq<Step>)
    ensures Count([RunCheck, ThenBegin, ThenReturn(next), RunSwap] + rest) == 4 + Count(rest)
  {
    var a := [RunCheck, ThenBegin, ThenReturn(next), RunSwap] + rest;
    assert a[1..][1..][1..][1..] == rest;
    assert Count(a[1..][1..]) == 2 + Count(rest);
  }

  lemma {:induction false} LivesOn(s: State, kinds: seq<Kind>)
    requires !s.abort && s.runner == Checking
    requires if kinds == [] then s.task == None else s.task.Some? && s.task.value.kind == kinds[0]
    requires forall i | 0 < i < |kinds| :: Successor(kinds[i - 1], Some(kinds[i]))
    ensures var r := Run(s, StepsOf(kinds));
      r.Some? && Kinds(r.value.begun) == Kinds(s.begun) + kinds && r.value.runner == Done
    decreases |kinds|
  {
    hide Run;
    if kinds == [] {
      RunOne(s, RunCheck);
      assert Kinds(s.begun) + [] == Kinds(s.begun);
    } else {
      hide StepsOf;
      var next := if |kinds| == 1 then None else Some(kinds[1]);
      var t := OneTask(s, next, StepsOf(kinds[1..]));
      StepsMore(kinds);
      LivesOn(t, kinds[1..]);
      assert Kinds(s.begun + [s.task.value]) == Kinds(s.begun) + [kinds[0]];
      assert Kinds(s.begun) + [kinds[0]] + kinds[1..] == Kinds(s.begun) + kinds;
    }
  }

  lemma {:induction false} StepsMore(kinds: seq<Kind>)
    requires kinds != []
    ensures StepsOf(kinds)
      == [RunCheck, ThenBegin, ThenReturn(if |kinds| == 1 then None else Some(kinds[1])), RunSwap] + StepsOf(kinds[1..])
  {
  }

  lemma {:induction false} RunOne(s: State, a: Step)
    requires Enabled(s, a)
    ensures Run(s, [a]) == Some(Do(s, a))
  {
    assert [a][1..] == [];
  }

  /** One turn of the loop, undisturbed: the current task begins, and what its `then()`
      returns becomes the current task. */
  lemma {:induction false} OneTask(s: State, next: Option<Kind>, rest: seq<Step>) returns (t: State)
    requires !s.abort && s.runner == Checking && s.task.Some? && Successor(s.task.value.kind, next)
    ensures Run(s, [RunCheck, ThenBegin, ThenReturn(next), RunSwap] + rest) == Run(t, rest)
    ensures !t.abort && t.runner == Checking && t.begun == s.begun + [s.task.value]
    ensures match next case None => t.task == None case Some(k) => t.task == Some(Task(s.created, k))
  {
    hide Run, Successor;
    var a := Do(s, RunCheck);
    var b := Do(a, ThenBegin);
    var c := Do(b, ThenReturn(next));
    t := Do(c, RunSwap);
    RunNext(s, RunCheck, [ThenBegin, ThenReturn(next), RunSwap] + rest);
    RunNext(a, ThenBegin, [ThenReturn(next), RunSwap] + rest);
    RunNext(b, ThenReturn(next), [RunSwap] + rest);
    RunNext(c, RunSwap, rest);
    assert [RunCheck, ThenBegin, ThenReturn(next), RunSwap] + rest
      == [RunCheck] + ([ThenBegin, ThenReturn(next), RunSwap] + rest);
    assert [ThenBegin, ThenReturn(next), RunSwap] + rest == [ThenBegin] + ([ThenReturn(next), RunSwap] + rest);
    assert [ThenReturn(next), RunSwap] + rest == [ThenReturn(next)] + ([RunSwap] + rest);
  }

  lemma {:induction false} RunNext(s: State, a: Step, rest: seq<Step>)
    requires Enabled(s, a)
    ensures Run(s, [a] + rest) == Run(Do(s, a), rest)
  {
    hide Do, Enabled;
    assert ([a] + rest)[1..] == rest;
  }

  // ---- the object ----

  /** The fields of `session`, and the stretches of code that touch them. */
  class Session {
    var task: Option<Task>
    var abort: bool

    constructor ()
      ensures task == START.task && abort == START.abort
    {
      task, abort := Some(Task(0, DetectSsl)), false;
    }

    ghost predicate Is(s: State)
      reads this
    {
      s.task == task && s.abort == abort
    }

    /** The loop condition of `run`. */
    method CheckLoop(ghost s: State) returns (goesOn: bool)
      requires Is(s) && Enabled(s, RunCheck)
      ensures Is(Do(s, RunCheck)) && (goesOn <==> Do(s, RunCheck).runner == Entering)
    {
      return !abort && task.Some?;
    }

    /** The swap of `run`, under the lock. */
    method SwapLocked(ghost s: State, next: Option<Task>)
      requires Is(s) && s.runner == Swapping(next)
      modifies this
      ensures Is(Do(s, RunSwap))
    {
      task := next;
    }

    method CheckAbort(ghost s: State, ghost k: nat) returns (goesOn: bool)
      requires Is(s) && Enabled(s, AbortCheck(k))
      ensures Is(Do(s, AbortCheck(k))) && (goesOn <==> Do(s, AbortCheck(k)).aborters[k] == ToSet)
    {
      return !abort;
    }

    method SetAbort(ghost s: State, ghost k: nat)
      requires Is(s) && Enabled(s, AbortSet(k))
      modifies this
      ensures Is(Do(s, AbortSet(k)))
    {
      abort := true;
    }

    /** The locked section of `abort`: the task told to stop, if there is one. */
    method AbortTask(ghost s: State, ghost k: nat) returns (told: Option<Task>)
      requires Is(s) && Enabled(s, AbortLocked(k))
      ensures Is(Do(s, AbortLocked(k)))
      ensures Do(s, AbortLocked(k)).aborted == s.aborted + match told case None => {} case Some(t) => {t}
    {
      return task;
    }
  }
}
