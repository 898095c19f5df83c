/**
 The task control block of Ned: app_task.h and the signal handler of app_task.cc.
 */
module AppTask {

  datatype TaskState = Initializing | Running | Zombie

  /** The fields of a control block. `observer` is the thread to notify, zero for none; `registered` says
      whether signals still find the block. */
  datatype Task = Task(refs: int, state: TaskState, exitCode: nat, observer: nat, registered: bool)

  function AddRef(t: Task): Task {
    t.(refs := t.refs + 1)
  }

  function RemoveRef(t: Task): Task {
    t.(refs := t.refs - 1)
  }

  function Launched(t: Task): Task {
    AddRef(t.(state := Running))
  }

  /** Drops the capabilities and unregisters; for an unregistered block nothing is left to do. */
  function Terminated(t: Task): Task {
    t.(registered := false)
  }

  /** The exit signal: the zombie gives back the reference that stood for the running program. */
  function Exited(t: Task, code: nat): Task {
    RemoveRef(Terminated(t.(state := Zombie, exitCode := code)))
  }

  /** What the exit signal leads to: either the block is to be freed, or `wake` is the thread to be woken, zero for
      none, and it is no longer noted. */
  datatype Exit = Exit(free: bool, wake: nat, left: Task)

  function ExitOutcome(t: Task, code: nat): Exit {
    var gone := Exited(t, code);
    if gone.refs == 0 then Exit(true, 0, gone) else Exit(false, gone.observer, gone.(observer := 0))
  }

  /** A request to be told of the exit, by a thread that will wait: only a zombie is not noted. */
  function Noted(t: Task, thread: nat): Task {
    if t.state == Zombie then t else t.(observer := thread)
  }

  /** The control block itself, updated in place. */
  class ControlBlock {
    var refs: int
    var state: TaskState
    var exitCode: nat
    var observer: nat
    var registered: bool

    ghost function View(): Task
      reads this
    {
      Task(refs, state, exitCode, observer, registered)
    }

    /** A new block is registered and unreferenced; its exit code is whatever the memory held. */
    constructor (junk: nat)
      ensures View() == Task(0, Initializing, junk, 0, true)
    {
      refs, state, exitCode, observer, registered := 0, Initializing, junk, 0, true;
    }

    method Add()
      modifies this
      ensures View() == AddRef(old(View()))
    {
      refs := refs + 1;
    }

    method Remove() returns (left: int)
      modifies this
      ensures View() == RemoveRef(old(View())) && left == refs
    {
      refs := refs - 1;
      left := refs;
    }

    method SetRunning()
      modifies this
      ensures View() == Launched(old(View()))
    {
      state := Running;
      Add();
    }

    method Terminate()
      modifies this
      ensures View() == Terminated(old(View()))
    {
      registered := false;
    }

    /** The exit case of the signal dispatcher. Either the caller must free the block, or a thread is to be
        woken and the observer is cleared, or nobody waits. */
    method ExitSignal(code: nat) returns (free: bool, wake: nat)
      modifies this
      ensures free <==> old(refs) == 1
      ensures wake == if free then 0 else old(observer)
      ensures View() == Task(old(refs) - 1, Zombie, code, if free then old(observer) else 0, false)
      ensures Exit(free, wake, View()) == ExitOutcome(old(View()), code)
    {
      state, exitCode := Zombie, code;
      Terminate();
      var left := Remove();
      if left == 0 {
        return true, 0;
      }
      free, wake := false, 0;
      if observer != 0 {
        wake := observer;
        observer := 0;
      }
    }

    /** The observer's side of `wait`: a zombie is answered at once, otherwise the thread is noted. */
    method Observe(thread: nat) returns (reply: bool)
      modifies this
      ensures reply == (old(state) == Zombie)
      ensures observer == if reply then old(observer) else thread
      ensures View() == Noted(old(View()), thread)
    {
      if state == Zombie {
        return true;
      }
      observer := thread;
      reply := false;
    }
  }
}
