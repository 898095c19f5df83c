/**
 The life of tasks under Ned: the Lua thread running exec, wait, kill, state queries and the garbage
 collector, and the server thread handling exit signals and requests of waiters, interleaved step by step.
 */
module TaskProtocol {
  import opened AppTask

  type Id = nat      // a control block
  type Handle = nat  // a Lua userdata holding a counted pointer

  const LUA_THREAD: nat := 1

  /** Where the Lua thread is. `Creating` to `Published` are the stages of exec, which holds a counted pointer of
      its own; a query holds a temporary one. `taken` says whether the server thread has seen the request. */
  datatype Lua = Idle
               | Creating(t: Id) | Started(t: Id) | Published(t: Id)
               | Querying(t: Id)
               | Waiting(h: Handle, taken: bool)
               | Killing(h: Handle) | Killed(h: Handle)

  /** `mail` holds the messages not yet received, each by the thread it was sent to. The rest is history: identities
      ever used, exit signals processed, results of completed waits, messages sent. `corrupt` is set by any
      step that follows a pointer to a freed block. */
  datatype State = State(heap: map<Id, Task>, handles: map<Handle, Id>, lua: Lua, mail: multiset<nat>,
                         used: set<Id>, exits: map<Id, nat>, results: seq<(Id, nat)>, sent: nat, corrupt: bool)

  const INITIAL := State(map[], map[], Idle, multiset{}, {}, map[], [], 0, false)

  datatype Step = ExecAllocates(t: Id, junk: nat) | LaunchFails | ExecRuns | ExecPublishes(h: Handle) | ExecReturns
                | QueryCopies(h: Handle) | QueryReturns
                | WaitCalls(h: Handle) | WaitReturns
                | KillFindsZombie(h: Handle) | KillBegins(h: Handle) | KillTerminates | KillDrops
                | Collects(h: Handle)
                | ServerTakesRequest | ServerExits(t: Id, code: nat)

  /** The block a step follows a pointer to, if any. */
  function Touched(s: State, step: Step): set<Id> {
    match step
    case ExecAllocates(_, _) => {}
    case LaunchFails => if s.lua.Creating? then {s.lua.t} else {}
    case ExecRuns => if s.lua.Creating? then {s.lua.t} else {}
    case ExecPublishes(_) => if s.lua.Started? then {s.lua.t} else {}
    case ExecReturns => if s.lua.Published? then {s.lua.t} else {}
    case QueryReturns => if s.lua.Querying? then {s.lua.t} else {}
    case ServerExits(t, _) => {t}
    case ServerTakesRequest => if s.lua.Waiting? && s.lua.h in s.handles then {s.handles[s.lua.h]} else {}
    case WaitReturns => if s.lua.Waiting? && s.lua.h in s.handles then {s.handles[s.lua.h]} else {}
    case KillTerminates => if s.lua.Killing? && s.lua.h in s.handles then {s.handles[s.lua.h]} else {}
    case KillDrops => if s.lua.Killed? && s.lua.h in s.handles then {s.handles[s.lua.h]} else {}
    case QueryCopies(h) => if h in s.handles then {s.handles[h]} else {}
    case WaitCalls(h) => {}
    case KillFindsZombie(h) => if h in s.handles then {s.handles[h]} else {}
    case KillBegins(h) => if h in s.handles then {s.handles[h]} else {}
    case Collects(h) => if h in s.handles then {s.handles[h]} else {}
  }

  /** Whether control is at a step. A signal reaches a block as long as it is registered. */
  predicate Enabled(s: State, step: Step) {
    && !s.corrupt
    && match step
       case ExecAllocates(t, _) => s.lua == Idle && t !in s.used
       case LaunchFails => s.lua.Creating?
       case ExecRuns => s.lua.Creating?
       case ExecPublishes(h) => s.lua.Started? && h !in s.handles
       case ExecReturns => s.lua.Published?
       case QueryCopies(h) => s.lua == Idle && h in s.handles
       case QueryReturns => s.lua.Querying?
       case WaitCalls(h) => s.lua == Idle && h in s.handles
       case WaitReturns => s.lua.Waiting? && s.lua.taken && s.lua.h in s.handles && s.mail[LUA_THREAD] > 0
       case KillFindsZombie(h) =>
         s.lua == Idle && h in s.handles && (s.handles[h] in s.heap ==> s.heap[s.handles[h]].state == Zombie)
       case KillBegins(h) =>
         s.lua == Idle && h in s.handles && (s.handles[h] in s.heap ==> s.heap[s.handles[h]].state != Zombie)
       case KillTerminates => s.lua.Killing? && s.lua.h in s.handles
       case KillDrops => s.lua.Killed? && s.lua.h in s.handles
       case Collects(h) => s.lua == Idle && h in s.handles
       case ServerTakesRequest => s.lua.Waiting? && !s.lua.taken && s.lua.h in s.handles
       case ServerExits(t, _) => t in s.heap && s.heap[t].registered
  }

  // ---- Effects ----

  /** Dropping a counted pointer frees the block when the count reaches zero. */
  function Dropped(heap: map<Id, Task>, t: Id): map<Id, Task>
    requires t in heap
  {
    if RemoveRef(heap[t]).refs == 0 then heap - {t} else heap[t := RemoveRef(heap[t])]
  }

  function DropHandle(s: State, h: Handle): State
    requires h in s.handles && s.handles[h] in s.heap
  {
    s.(heap := Dropped(s.heap, s.handles[h]), handles := s.handles - {h}, lua := Idle)
  }

  function Apply(s: State, step: Step): State
    requires Enabled(s, step)
  {
    if !(Touched(s, step) <= s.heap.Keys) then s.(corrupt := true) else
    match step
    case ExecAllocates(t, junk) =>
      s.(heap := s.heap[t := AddRef(Task(0, Initializing, junk, 0, true))], used := s.used + {t}, lua := Creating(t))
    case LaunchFails => s.(heap := Dropped(s.heap, s.lua.t), lua := Idle)
    case ExecRuns => s.(heap := s.heap[s.lua.t := Launched(s.heap[s.lua.t])], lua := Started(s.lua.t))
    case ExecPublishes(h) =>
      s.(heap := s.heap[s.lua.t := AddRef(s.heap[s.lua.t])], handles := s.handles[h := s.lua.t],
         lua := Published(s.lua.t))
    case ExecReturns => s.(heap := Dropped(s.heap, s.lua.t), lua := Idle)
    case QueryCopies(h) =>
      s.(heap := s.heap[s.handles[h] := AddRef(s.heap[s.handles[h]])], lua := Querying(s.handles[h]))
    case QueryReturns => s.(heap := Dropped(s.heap, s.lua.t), lua := Idle)
    case WaitCalls(h) => s.(lua := Waiting(h, false))
    case WaitReturns =>
      var t := s.handles[s.lua.h];
      DropHandle(s.(mail := s.mail - multiset{LUA_THREAD}, results := s.results + [(t, s.heap[t].exitCode)]), s.lua.h)
    case KillFindsZombie(h) => DropHandle(s, h)
    case KillBegins(h) => s.(lua := Killing(h))
    case KillTerminates =>
      var t := s.handles[s.lua.h];
      s.(heap := s.heap[t := Terminated(s.heap[t])], lua := Killed(s.lua.h))
    case KillDrops => DropHandle(s, s.lua.h)
    case Collects(h) => DropHandle(s, h)
    case ServerTakesRequest =>
      var t := s.handles[s.lua.h];
      if s.heap[t].state == Zombie
      then s.(mail := s.mail + multiset{LUA_THREAD}, sent := s.sent + 1, lua := Waiting(s.lua.h, true))
      else s.(heap := s.heap[t := Noted(s.heap[t], LUA_THREAD)], lua := Waiting(s.lua.h, true))
    case ServerExits(t, code) =>
      var exit := ExitOutcome(s.heap[t], code);
      s.(exits := s.exits[t := code],
         mail := if exit.wake == 0 then s.mail else s.mail + multiset{exit.wake},
         sent := if exit.wake == 0 then s.sent else s.sent + 1,
         heap := if exit.free then s.heap - {t} else s.heap[t := exit.left])
  }

  /** The one assumption: no program exits before its exec has passed `running()`. */
  predicate Early(s: State, step: Step) {
    step.ServerExits? && step.t in s.heap && s.heap[step.t].state == Initializing
  }

  // ---- Who owns a block ----

  ghost function Holders(handles: map<Handle, Id>, t: Id): set<Handle> {
    set h | h in handles && handles[h] == t
  }

  /** Pointers the Lua thread holds outside of its userdata. */
  function LocalPointers(lua: Lua, t: Id): nat {
    if (lua.Creating? || lua.Started? || lua.Published? || lua.Querying?) && lua.t == t then 1 else 0
  }

  /** Live pointers, plus one for a program that was started and whose exit was not processed. */
  ghost function Owners(s: State, t: Id): nat
    requires t in s.heap
  {
    |Holders(s.handles, t)| + LocalPointers(s.lua, t) + if s.heap[t].state == Running then 1 else 0
  }

  // ---- The invariant ----

  ghost predicate BlockInv(s: State, t: Id)
    requires t in s.heap
  {
    var b := s.heap[t];
    && t in s.used
    && b.refs == Owners(s, t) > 0
    && (b.state == Initializing <==> s.lua == Creating(t))
    && (b.registered ==> b.state != Zombie && t !in s.exits)
    && (b.state == Initializing ==> b.registered)
    && (b.state == Zombie <==> t in s.exits)
    && (b.state == Zombie ==> b.exitCode == s.exits[t])
    // an observer is set exactly while its thread waits here unanswered
    && (b.observer != 0 <==>
          s.mail[LUA_THREAD] == 0 && s.lua.Waiting? && s.lua.taken && s.lua.h in s.handles && s.handles[s.lua.h] == t)
    && b.observer in {0, LUA_THREAD}
  }

  ghost predicate LuaInv(s: State) {
    match s.lua
    case Idle => true
    case Creating(t) => t in s.heap && t !in s.handles.Values
    case Started(t) => t in s.heap && t !in s.handles.Values && (s.heap[t].state == Running ==> s.heap[t].registered)
    case Published(t) => t in s.heap
    case Querying(t) => t in s.heap
    case Waiting(h, taken) =>
      && h in s.handles
      && (taken && s.mail[LUA_THREAD] == 0 ==> s.handles[h] in s.heap && s.heap[s.handles[h]].state == Running)
    case Killing(h) => h in s.handles
    case Killed(h) => h in s.handles
  }

  /** A userdata points to a live block, alone, and to a killed one only until the killer lets go. */
  ghost predicate HandleInv(s: State, h: Handle)
    requires h in s.handles
  {
    && s.handles[h] in s.heap
    && (forall g :: g in s.handles && s.handles[g] == s.handles[h] ==> g == h)
    && (s.heap[s.handles[h]].state == Running && !s.heap[s.handles[h]].registered ==> s.lua == Killed(h))
  }

  ghost predicate Blocks(s: State) {
    forall t :: t in s.heap ==> BlockInv(s, t)
  }

  ghost predicate Handles(s: State) {
    forall h :: h in s.handles ==> HandleInv(s, h)
  }

  /** A message is pending only for a waiter whose block is a zombie, and never more than one; every message
      sent has been consumed by one completed wait. */
  ghost predicate MailInv(s: State) {
    && s.mail <= multiset{LUA_THREAD}
    && (s.mail[LUA_THREAD] == 1 ==>
          && s.lua.Waiting? && s.lua.taken && s.lua.h in s.handles
          && s.handles[s.lua.h] in s.heap && s.heap[s.handles[s.lua.h]].state == Zombie)
    && s.sent == |s.results| + s.mail[LUA_THREAD]
  }

  /** What the waits returned are codes of exit signals of the blocks waited for. */
  ghost predicate HistoryInv(s: State) {
    && s.exits.Keys <= s.used
    && forall i :: 0 <= i < |s.results| ==> s.results[i].0 in s.exits && s.results[i].1 == s.exits[s.results[i].0]
  }

  ghost predicate Inv(s: State) {
    !s.corrupt && Blocks(s) && Handles(s) && LuaInv(s) && MailInv(s) && HistoryInv(s)
  }
}
