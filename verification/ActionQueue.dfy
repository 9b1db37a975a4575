/** The fields of `action_queue::impl` and the sections its threads run under the lock,
    each tied to the step of the protocol it is. */
module ActionQueue {
  import opened Text
  import opened ActionQueueProtocol

  class ActionQueue {
    var que: seq<Action>
    var running: bool
    var shutdowning: bool

    constructor ()
      ensures que == START.que && running == START.running && shutdowning == START.shutdowning
    {
      que, running, shutdowning := [], false, false;
    }

    /** The fields are those of a protocol state. */
    ghost predicate Is(s: State)
      reads this
    {
      s.que == que && s.running == running && s.shutdowning == shutdowning
    }

    /** push, before the lock. */
    method PushCheck(ghost s: State, a: Action) returns (passed: bool)
      requires Is(s) && Enabled(s, Check(a))
      ensures Is(Do(s, Check(a)))
      ensures Do(s, Check(a)).passed == if passed then s.passed + {a} else s.passed
    {
      return !shutdowning;
    }

    /** push, under the lock: the caller spawns a performer when told to. */
    method PushLocked(ghost s: State, a: Action) returns (spawn: bool)
      requires Is(s) && Enabled(s, Enqueue(a))
      modifies this
      ensures Is(Do(s, Enqueue(a)))
      ensures Do(s, Enqueue(a)).toSpawn == s.toSpawn + if spawn then 1 else 0
    {
      que := que + [a];
      if !running {
        running := true;
        return true;
      }
      return false;
    }

    method ClearLocked(ghost s: State)
      requires Is(s)
      modifies this
      ensures Is(Do(s, Clear))
    {
      que := [];
    }

    /** async_shutdown, up to its early return. */
    method ShutdownCheck(ghost s: State, cancel: bool) returns (goesOn: bool)
      requires Is(s)
      ensures Is(Do(s, Step.ShutdownCheck(cancel)))
      ensures var t := Do(s, Step.ShutdownCheck(cancel));
        t.toShut + t.toShutQuietly == s.toShut + s.toShutQuietly + if goesOn then 1 else 0
    {
      return running || !shutdowning;
    }

    method ShutdownSet(ghost s: State, cancel: bool)
      requires Is(s) && Enabled(s, Step.ShutdownSet(cancel))
      modifies this
      ensures Is(Do(s, Step.ShutdownSet(cancel)))
    {
      shutdowning := true;
    }

    /** perform, under the lock: the action to run, or None to end. */
    method TakeLocked(ghost s: State, ghost i: nat, cancelled: bool) returns (action: Option<Action>)
      requires Is(s) && Enabled(s, Take(i)) && s.performers[i].cancelled == cancelled
      modifies this
      ensures Is(Do(s, Take(i)))
      ensures match action
        case None => |Do(s, Take(i)).performers| == |s.performers| - 1
        case Some(a) => Do(s, Take(i)).performers == s.performers[i := Performer(Some(a), cancelled)]
    {
      if que == [] || cancelled {
        running := false;
        return None;
      }
      action := Some(que[0]);
      que := que[1..];
    }
  }
}
