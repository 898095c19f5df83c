/**
 What holds in every state Ned's task handling can reach: reference counts, lifetimes and wake-ups.
 */
module TaskSafety {
  import opened AppTask
  import opened TaskProtocol

  // ---- Counting ----

  lemma HolderAdded(handles: map<Handle, Id>, h: Handle, t: Id, u: Id)
    requires h !in handles
    ensures Holders(handles[h := t], u) == if u == t then Holders(handles, u) + {h} else Holders(handles, u)
    ensures |Holders(handles[h := t], u)| == |Holders(handles, u)| + if u == t then 1 else 0
  {
    assert Holders(handles[h := t], u) == if u == t then Holders(handles, u) + {h} else Holders(handles, u);
  }

  lemma HolderRemoved(handles: map<Handle, Id>, h: Handle, u: Id)
    requires h in handles
    ensures Holders(handles - {h}, u) == Holders(handles, u) - {h}
    ensures |Holders(handles - {h}, u)| == |Holders(handles, u)| - if u == handles[h] then 1 else 0
  {
    assert Holders(handles - {h}, u) == Holders(handles, u) - {h};
    if u == handles[h] {
      assert h in Holders(handles, u);
    } else {
      assert h !in Holders(handles, u);
    }
  }

  lemma HolderIsCounted(s: State, h: Handle)
    requires h in s.handles
    ensures h in Holders(s.handles, s.handles[h]) && |Holders(s.handles, s.handles[h])| >= 1
  {
    assert h in Holders(s.handles, s.handles[h]);
    assert Holders(s.handles, s.handles[h]) != {};
  }

  // ---- Taking the invariant apart and putting it together ----

  lemma BlockOf(s: State, t: Id)
    requires Inv(s) && t in s.heap
    ensures BlockInv(s, t)
  {
  }

  lemma HandleOf(s: State, h: Handle)
    requires Inv(s) && h in s.handles
    ensures HandleInv(s, h)
    ensures h in Holders(s.handles, s.handles[h]) && |Holders(s.handles, s.handles[h])| >= 1
  {
    HolderIsCounted(s, h);
  }

  /** The handles of a block are none or one. */
  lemma AtMostOneHolder(s: State, t: Id)
    requires Inv(s)
    ensures |Holders(s.handles, t)| <= 1
  {
    if h :| h in Holders(s.handles, t) {
      HandleOf(s, h);
      assert Holders(s.handles, t) == {h};
    }
  }

  lemma RestOf(s: State)
    requires Inv(s)
    ensures !s.corrupt && LuaInv(s) && MailInv(s) && HistoryInv(s)
  {
  }

  lemma Assemble(s: State)
    requires !s.corrupt && LuaInv(s) && MailInv(s) && HistoryInv(s)
    requires forall t :: t in s.heap ==> BlockInv(s, t)
    requires forall h :: h in s.handles ==> HandleInv(s, h)
    ensures Inv(s)
  {
  }

  // ---- Steps keep the invariant ----

  lemma ExecAllocatesKeepsInv(s: State, t: Id, junk: nat)
    requires Inv(s) && Enabled(s, ExecAllocates(t, junk))
    ensures Inv(Apply(s, ExecAllocates(t, junk)))
  {
    hide Inv;
    RestOf(s);
    var s' := Apply(s, ExecAllocates(t, junk));
    assert t !in s.heap && t !in s.handles.Values by {
      if t in s.heap { BlockOf(s, t); }
      forall h | h in s.handles ensures s.handles[h] != t { HandleOf(s, h); BlockOf(s, s.handles[h]); }
    }
    assert Holders(s.handles, t) == {};
    forall u | u in s'.heap ensures BlockInv(s', u) {
      if u != t { BlockOf(s, u); }
    }
    forall h | h in s.handles ensures HandleInv(s', h) { HandleOf(s, h); }
    Assemble(s');
  }

  lemma ExecRunsKeepsInv(s: State)
    requires Inv(s) && Enabled(s, ExecRuns)
    ensures Inv(Apply(s, ExecRuns))
  {
    hide Inv;
    RestOf(s);
    var s' := Apply(s, ExecRuns);
    BlockOf(s, s.lua.t);
    forall u | u in s'.heap ensures BlockInv(s', u) { BlockOf(s, u); }
    forall h | h in s.handles ensures HandleInv(s', h) { HandleOf(s, h); }
    Assemble(s');
  }

  lemma ExecPublishesKeepsInv(s: State, h: Handle)
    requires Inv(s) && Enabled(s, ExecPublishes(h))
    ensures Inv(Apply(s, ExecPublishes(h)))
  {
    hide Inv, Holders;
    RestOf(s);
    var s' := Apply(s, ExecPublishes(h));
    forall u | u in s'.heap ensures BlockInv(s', u) {
      BlockOf(s, u);
      HolderAdded(s.handles, h, s.lua.t, u);
    }
    forall g | g in s'.handles ensures HandleInv(s', g) {
      if g != h { HandleOf(s, g); }
    }
    Assemble(s');
  }

  /** The end of exec, of a query, or of a failed launch: a pointer that is no userdata goes away. */
  lemma LocalDropKeepsInv(s: State, s': State, t: Id)
    requires Inv(s) && s.lua in {Creating(t), Published(t), Querying(t)} && t in s.heap
    requires s' == s.(heap := Dropped(s.heap, t), lua := Idle)
    ensures Inv(s')
  {
    hide Inv;
    RestOf(s);
    BlockOf(s, t);
    assert s.lua == Creating(t) ==> Holders(s.handles, t) == {};
    hide Holders;
    forall u | u in s'.heap ensures BlockInv(s', u) { BlockOf(s, u); }
    forall h | h in s.handles ensures HandleInv(s', h) { HandleOf(s, h); BlockOf(s, s.handles[h]); }
    Assemble(s');
  }

  lemma LocalStepsKeepInv(s: State, step: Step)
    requires Inv(s) && Enabled(s, step) && (step.LaunchFails? || step.ExecReturns? || step.QueryReturns?)
    ensures Inv(Apply(s, step))
  {
    hide Inv;
    RestOf(s);
    var t := s.lua.t;
    assert Apply(s, step) == s.(heap := Dropped(s.heap, t), lua := Idle);
    hide Apply, Enabled;
    LocalDropKeepsInv(s, Apply(s, step), t);
  }

  lemma QueryCopiesKeepsInv(s: State, h: Handle)
    requires Inv(s) && Enabled(s, QueryCopies(h))
    ensures Inv(Apply(s, QueryCopies(h)))
  {
    hide Inv, Holders;
    RestOf(s);
    HandleOf(s, h);
    var s' := Apply(s, QueryCopies(h));
    forall u | u in s'.heap ensures BlockInv(s', u) { BlockOf(s, u); }
    forall g | g in s.handles ensures HandleInv(s', g) { HandleOf(s, g); }
    Assemble(s');
  }

  lemma ControlStepsKeepInv(s: State, step: Step)
    requires Inv(s) && Enabled(s, step) && (step.WaitCalls? || step.KillBegins?)
    ensures Inv(Apply(s, step))
  {
    hide Inv, Holders;
    RestOf(s);
    HandleOf(s, step.h);
    var s' := Apply(s, step);
    assert s' == s.(lua := s'.lua) && s.lua == Idle;
    forall u | u in s.heap ensures BlockInv(s', u) { BlockOf(s, u); }
    forall g | g in s.handles ensures HandleInv(s', g) { HandleOf(s, g); }
    Assemble(s');
  }

  lemma KillTerminatesKeepsInv(s: State)
    requires Inv(s) && Enabled(s, KillTerminates)
    ensures Inv(Apply(s, KillTerminates))
  {
    hide Inv, Holders;
    RestOf(s);
    var s' := Apply(s, KillTerminates);
    HandleOf(s, s.lua.h);
    forall u | u in s'.heap ensures BlockInv(s', u) { BlockOf(s, u); }
    forall g | g in s.handles ensures HandleInv(s', g) { HandleOf(s, g); }
    Assemble(s');
  }

  /** Letting go of a userdata, as the zapping of wait and kill and the collector do. */
  lemma DropHandleKeepsInv(s: State, h: Handle)
    requires Inv(s) && h in s.handles && s.handles[h] in s.heap && s.mail[LUA_THREAD] == 0
    requires s.lua == Idle || s.lua == Killed(h)
    ensures Inv(DropHandle(s, h))
  {
    hide Inv, Holders;
    RestOf(s);
    HandleOf(s, h);
    var s' := DropHandle(s, h);
    forall u | u in s'.heap ensures BlockInv(s', u) {
      BlockOf(s, u);
      HolderRemoved(s.handles, h, u);
    }
    forall g | g in s'.handles ensures HandleInv(s', g) { HandleOf(s, g); }
    Assemble(s');
  }

  lemma ZapStepsKeepInv(s: State, step: Step)
    requires Inv(s) && Enabled(s, step) && (step.KillFindsZombie? || step.KillDrops? || step.Collects?)
    ensures Inv(Apply(s, step))
  {
    hide Inv;
    RestOf(s);
    var h := if step.KillDrops? then s.lua.h else step.h;
    HandleOf(s, h);
    assert Apply(s, step) == DropHandle(s, h) && s.mail[LUA_THREAD] == 0 && s.lua in {Idle, Killed(h)};
    hide Apply, Enabled;
    DropHandleKeepsInv(s, h);
  }

  lemma WaitReturnsKeepsInv(s: State)
    requires Inv(s) && Enabled(s, WaitReturns)
    ensures Inv(Apply(s, WaitReturns))
  {
    hide Inv, Holders;
    RestOf(s);
    var t := s.handles[s.lua.h];
    HandleOf(s, s.lua.h);
    BlockOf(s, t);
    // the moment between taking the message and zapping the handle
    var between := s.(mail := multiset{}, lua := Idle, results := s.results + [(t, s.heap[t].exitCode)]);
    forall u | u in between.heap ensures BlockInv(between, u) { BlockOf(s, u); }
    forall g | g in s.handles ensures HandleInv(between, g) { HandleOf(s, g); }
    Assemble(between);
    assert Apply(s, WaitReturns) == DropHandle(between, s.lua.h);
    hide Apply, Enabled;
    DropHandleKeepsInv(between, s.lua.h);
  }

  lemma ServerTakesRequestKeepsInv(s: State)
    requires Inv(s) && Enabled(s, ServerTakesRequest)
    ensures Inv(Apply(s, ServerTakesRequest))
  {
    hide Inv, Holders;
    RestOf(s);
    var s' := Apply(s, ServerTakesRequest);
    HandleOf(s, s.lua.h);
    BlockOf(s, s.handles[s.lua.h]);
    forall u | u in s'.heap ensures BlockInv(s', u) { BlockOf(s, u); }
    forall g | g in s.handles ensures HandleInv(s', g) { HandleOf(s, g); }
    Assemble(s');
  }

  /** The exit signal finds a running program, and whoever waits for it holds its block. */
  lemma ExitFindsRunning(s: State, t: Id, code: nat)
    requires Inv(s) && Enabled(s, ServerExits(t, code)) && !Early(s, ServerExits(t, code))
    ensures s.heap[t].state == Running && t !in s.exits && t in s.used
    ensures s.heap[t].observer != 0 ==>
              && s.mail[LUA_THREAD] == 0 && s.lua.Waiting? && s.lua.taken
              && s.lua.h in s.handles && s.handles[s.lua.h] == t
              && Exited(s.heap[t], code).refs > 0
    ensures s.heap[t].observer == 0 ==>
              !(s.mail[LUA_THREAD] == 0 && s.lua.Waiting? && s.lua.taken && s.handles[s.lua.h] == t)
  {
    hide Inv, Holders;
    RestOf(s);
    BlockOf(s, t);
    if s.lua.Waiting? {
      HandleOf(s, s.lua.h);
    }
  }

  lemma ExitKeepsBlock(s: State, t: Id, code: nat, u: Id)
    requires Inv(s) && Enabled(s, ServerExits(t, code)) && !Early(s, ServerExits(t, code))
    requires u in Apply(s, ServerExits(t, code)).heap
    ensures BlockInv(Apply(s, ServerExits(t, code)), u)
  {
    hide Inv, Holders;
    ExitFindsRunning(s, t, code);
    RestOf(s);
    BlockOf(s, u);
    BlockOf(s, t);
  }

  lemma ExitKeepsHandle(s: State, t: Id, code: nat, g: Handle)
    requires Inv(s) && Enabled(s, ServerExits(t, code)) && !Early(s, ServerExits(t, code)) && g in s.handles
    ensures HandleInv(Apply(s, ServerExits(t, code)), g)
  {
    hide Inv, Holders;
    HandleOf(s, g);
    BlockOf(s, t);
    ExitFindsRunning(s, t, code);
  }

  lemma ExitKeepsRest(s: State, t: Id, code: nat)
    requires Inv(s) && Enabled(s, ServerExits(t, code)) && !Early(s, ServerExits(t, code))
    ensures var s' := Apply(s, ServerExits(t, code)); !s'.corrupt && LuaInv(s') && MailInv(s') && HistoryInv(s')
  {
    hide Inv, Holders, BlockInv;
    RestOf(s);
    ExitFindsRunning(s, t, code);
    BlockOf(s, t);
    ExitKeepsLocals(s, t, code);
    if s.lua.Waiting? {
      HandleOf(s, s.lua.h);
      ExitKeepsHandle(s, t, code, s.lua.h);
    }
  }

  /** A pointer the Lua thread holds in exec or a query keeps its block alive. */
  lemma ExitKeepsLocals(s: State, t: Id, code: nat)
    requires Inv(s) && Enabled(s, ServerExits(t, code)) && !Early(s, ServerExits(t, code))
    ensures LocalPointers(s.lua, t) > 0 ==> t in Apply(s, ServerExits(t, code)).heap
  {
    hide Inv, Holders;
    BlockOf(s, t);
  }

  /** The exit of a running program: its block goes if nothing else points to it, and a waiter's userdata does. */
  lemma ServerExitsKeepsInv(s: State, t: Id, code: nat)
    requires Inv(s) && Enabled(s, ServerExits(t, code)) && !Early(s, ServerExits(t, code))
    ensures Inv(Apply(s, ServerExits(t, code)))
  {
    hide Inv, BlockInv, HandleInv;
    var s' := Apply(s, ServerExits(t, code));
    ExitKeepsRest(s, t, code);
    assert s'.handles == s.handles;
    hide Apply, Enabled;
    forall u | u in s'.heap ensures BlockInv(s', u) { ExitKeepsBlock(s, t, code, u); }
    forall g | g in s.handles ensures HandleInv(s', g) { ExitKeepsHandle(s, t, code, g); }
    Assemble(s');
  }

  lemma StepKeepsInv(s: State, step: Step)
    requires Inv(s) && Enabled(s, step) && !Early(s, step)
    ensures Inv(Apply(s, step))
  {
    hide Inv, Enabled, Early, Apply;
    match step
    case ExecAllocates(t, junk) => ExecAllocatesKeepsInv(s, t, junk);
    case ExecRuns => ExecRunsKeepsInv(s);
    case ExecPublishes(h) => ExecPublishesKeepsInv(s, h);
    case LaunchFails => LocalStepsKeepInv(s, step);
    case ExecReturns => LocalStepsKeepInv(s, step);
    case QueryReturns => LocalStepsKeepInv(s, step);
    case QueryCopies(h) => QueryCopiesKeepsInv(s, h);
    case WaitCalls(_) => ControlStepsKeepInv(s, step);
    case KillBegins(_) => ControlStepsKeepInv(s, step);
    case KillTerminates => KillTerminatesKeepsInv(s);
    case WaitReturns => WaitReturnsKeepsInv(s);
    case KillFindsZombie(_) => ZapStepsKeepInv(s, step);
    case KillDrops => ZapStepsKeepInv(s, step);
    case Collects(_) => ZapStepsKeepInv(s, step);
    case ServerTakesRequest => ServerTakesRequestKeepsInv(s);
    case ServerExits(t, code) => ServerExitsKeepsInv(s, t, code);
  }
}
