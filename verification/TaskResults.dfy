/**
 The properties of Ned's task handling over whole runs.
 */
module TaskResults {
  import opened AppTask
  import opened TaskProtocol
  import opened TaskSafety

  ghost predicate Legal(s: State, steps: seq<Step>)
    decreases steps
  {
    steps == [] || (Enabled(s, steps[0]) && Legal(Apply(s, steps[0]), steps[1..]))
  }

  ghost function Run(s: State, steps: seq<Step>): State
    requires Legal(s, steps)
    decreases steps
  {
    if steps == [] then s else Run(Apply(s, steps[0]), steps[1..])
  }

  /** No exit signal arrives before its `running()`. */
  ghost predicate Ordered(s: State, steps: seq<Step>)
    requires Legal(s, steps)
    decreases steps
  {
    steps == [] || (!Early(s, steps[0]) && Ordered(Apply(s, steps[0]), steps[1..]))
  }

  lemma {:induction false} RunKeepsInv(s: State, steps: seq<Step>)
    requires Inv(s) && Legal(s, steps) && Ordered(s, steps)
    ensures Inv(Run(s, steps))
    decreases steps
  {
    hide Inv, Enabled, Early, Apply;
    if steps != [] {
      StepKeepsInv(s, steps[0]);
      RunKeepsInv(Apply(s, steps[0]), steps[1..]);
    }
  }

  // ---- Reference counts ----

  /** In every state a run can reach: no step ever followed a pointer to a freed block; a live block's count is
      the number of its live pointers, plus one while its program runs, and is never zero; nothing points to
      a block that is not live. */
  lemma ReferenceCounts(steps: seq<Step>)
    requires Legal(INITIAL, steps) && Ordered(INITIAL, steps)
    ensures var s := Run(INITIAL, steps);
            && !s.corrupt
            && (forall t :: t in s.heap ==> s.heap[t].refs == Owners(s, t) > 0)
            && (forall h :: h in s.handles ==> s.handles[h] in s.heap)
            && (forall t :: t !in s.heap ==> LocalPointers(s.lua, t) == 0)
  {
    RunKeepsInv(INITIAL, steps);
    var s := Run(INITIAL, steps);
    hide Run, Legal, Ordered;
    RestOf(s);
    forall t | t in s.heap ensures s.heap[t].refs == Owners(s, t) > 0 { BlockOf(s, t); }
    forall h | h in s.handles ensures s.handles[h] in s.heap { HandleOf(s, h); }
  }

  /** Pointers left after a step, and the running program unless the step was its exit. */
  ghost function OwnersLeft(s: State, step: Step, t: Id): nat
    requires Enabled(s, step) && t in s.heap
  {
    var s' := Apply(s, step);
    |Holders(s'.handles, t)| + LocalPointers(s'.lua, t)
    + if s.heap[t].state == Running && !(step.ServerExits? && step.t == t) then 1
      else if s.heap[t].state == Initializing && step.ExecRuns? && s.lua == Creating(t) then 1 else 0
  }

  /** A block is freed by exactly the step that leaves it without an owner. */
  lemma FreedExactly(s: State, step: Step, t: Id)
    requires Inv(s) && Enabled(s, step) && !Early(s, step) && t in s.heap
    ensures t !in Apply(s, step).heap <==> OwnersLeft(s, step, t) == 0
  {
    StepKeepsInv(s, step);
    var s' := Apply(s, step);
    if t in s'.heap {
      BlockOf(s', t);
      StateAfter(s, step, t);
    } else {
      NoOwnerWhenFreed(s, step, t);
    }
  }

  lemma StateAfter(s: State, step: Step, t: Id)
    requires Inv(s) && Enabled(s, step) && !Early(s, step) && t in s.heap && t in Apply(s, step).heap
    ensures Apply(s, step).heap[t].state ==
              if step.ServerExits? && step.t == t then Zombie
              else if step.ExecRuns? && s.lua == Creating(t) then Running else s.heap[t].state
    ensures s.lua == Creating(t) ==> s.heap[t].state == Initializing
    ensures step.ServerExits? && step.t == t ==> s.heap[t].state == Running
  {
    hide Inv, Holders, LuaInv, MailInv, HistoryInv;
    RestOf(s);
    BlockOf(s, t);
    StepKeepsInv(s, step);
    RestOf(Apply(s, step));
    if step.ServerExits? && step.t == t {
      ExitFindsRunning(s, t, step.code);
    }
    if step.ExecAllocates? {
      BlockOf(s, t);
    }
  }

  lemma NoOwnerWhenFreed(s: State, step: Step, t: Id)
    requires Inv(s) && Enabled(s, step) && !Early(s, step) && t in s.heap && t !in Apply(s, step).heap
    ensures OwnersLeft(s, step, t) == 0
  {
    hide Inv;
    StepKeepsInv(s, step);
    var s' := Apply(s, step);
    RestOf(s');
    assert Holders(s'.handles, t) == {} by {
      if h :| h in Holders(s'.handles, t) { HandleOf(s', h); }
    }
    hide Holders, BlockInv, HandleInv, MailInv, HistoryInv;
    FreedIsNotRunning(s, step, t);
  }

  /** Only the exit of a running program can free it. */
  lemma FreedIsNotRunning(s: State, step: Step, t: Id)
    requires Inv(s) && Enabled(s, step) && !Early(s, step) && t in s.heap && t !in Apply(s, step).heap
    ensures s.heap[t].state == Running ==> step.ServerExits? && step.t == t
    ensures !step.ExecRuns?
  {
    hide Inv, Holders, HandleInv, MailInv, HistoryInv;
    RestOf(s);
    BlockOf(s, t);
    StepKeepsInv(s, step);
    RestOf(Apply(s, step));
    if s.heap[t].state == Running {
      RunningHasSpareRef(s, t);
    }
  }

  lemma RunningHasSpareRef(s: State, t: Id)
    requires Inv(s) && t in s.heap && s.heap[t].state == Running
    ensures s.heap[t].refs == |Holders(s.handles, t)| + LocalPointers(s.lua, t) + 1
    ensures forall h :: h in s.handles && s.handles[h] == t ==> s.heap[t].refs >= 2
    ensures LocalPointers(s.lua, t) == 1 ==> s.heap[t].refs >= 2
  {
    BlockOf(s, t);
    forall h | h in s.handles && s.handles[h] == t ensures s.heap[t].refs >= 2 { HandleOf(s, h); }
  }

  /** A zombie stays one, with its exit code, as long as it lives. */
  lemma ZombieForever(s: State, step: Step, t: Id)
    requires Inv(s) && Enabled(s, step) && !Early(s, step)
    requires t in s.heap && s.heap[t].state == Zombie && t in Apply(s, step).heap
    ensures Apply(s, step).heap[t].state == Zombie && Apply(s, step).heap[t].exitCode == s.heap[t].exitCode
  {
    hide Inv, Holders, HandleInv;
    BlockOf(s, t);
    StateAfter(s, step, t);
    StepKeepsInv(s, step);
    BlockOf(Apply(s, step), t);
    RestOf(s);
  }

  // ---- Killing ----

  /** Which way a kill goes: it frees a zombie at once, and it begins to terminate a running program. */
  lemma KillTakesItsWay(s: State, h: Handle)
    requires Inv(s) && s.lua == Idle && h in s.handles
    ensures s.handles[h] in s.heap && s.heap[s.handles[h]].state in {Running, Zombie}
    ensures Enabled(s, KillFindsZombie(h)) <==> s.heap[s.handles[h]].state == Zombie
    ensures Enabled(s, KillBegins(h)) <==> s.heap[s.handles[h]].state == Running
    ensures Enabled(s, KillFindsZombie(h)) ==>
              Apply(s, KillFindsZombie(h)) == s.(heap := s.heap - {s.handles[h]}, handles := s.handles - {h})
  {
    RestOf(s);
    HandleOf(s, h);
    BlockOf(s, s.handles[h]);
    DroppingFreesExactlyZombies(s, h);
    hide Inv, Holders;
  }

  /** Letting go of a userdata, in whatever call, frees the block if and only if its program has exited. */
  lemma DroppingFreesExactlyZombies(s: State, h: Handle)
    requires Inv(s) && h in s.handles && LocalPointers(s.lua, s.handles[h]) == 0
    ensures s.handles[h] in s.heap
    ensures s.handles[h] !in DropHandle(s, h).heap <==> s.heap[s.handles[h]].state == Zombie
  {
    hide Inv, Holders;
    RestOf(s);
    HandleOf(s, h);
    BlockOf(s, s.handles[h]);
    AtMostOneHolder(s, s.handles[h]);
  }

  /** So the last step of a kill frees the block if and only if the program has exited meanwhile: the reference
      of `running()` is given back by an exit signal only, and kill has just made that impossible. */
  lemma KillFreesExactlyZombies(s: State)
    requires Inv(s) && Enabled(s, KillDrops)
    ensures s.handles[s.lua.h] in s.heap
    ensures s.handles[s.lua.h] !in Apply(s, KillDrops).heap <==> s.heap[s.handles[s.lua.h]].state == Zombie
  {
    DroppingFreesExactlyZombies(s, s.lua.h);
  }

  /** A program killed while it runs keeps its block over any step. */
  lemma KilledIsNeverFreed(s: State, step: Step, t: Id)
    requires Inv(s) && Enabled(s, step) && !Early(s, step) && KilledRunning(s, t)
    ensures KilledRunning(Apply(s, step), t)
  {
    hide Holders;
    if t !in Apply(s, step).heap {
      FreedIsNotRunning(s, step, t);
    }
    StateAfter(s, step, t);
    NeverRegisteredAgain(s, step, t);
  }

  ghost predicate KilledRunning(s: State, t: Id) {
    t in s.heap && s.heap[t].state == Running && !s.heap[t].registered
  }

  /** And so over any run: nothing that may happen later frees it. */
  lemma {:induction false} KilledStays(s: State, steps: seq<Step>, t: Id)
    requires Inv(s) && Legal(s, steps) && Ordered(s, steps) && KilledRunning(s, t)
    ensures KilledRunning(Run(s, steps), t)
    decreases steps
  {
    hide Inv, Enabled, Early, Apply, KilledRunning;
    if steps != [] {
      KilledIsNeverFreed(s, steps[0], t);
      StepKeepsInv(s, steps[0]);
      KilledStays(Apply(s, steps[0]), steps[1..], t);
    }
  }

  /** The states of a run with one block and at most one userdata. */
  ghost function OneTask(refs: int, state: TaskState, registered: bool, handles: map<Handle, Id>, lua: Lua): State {
    State(map[7 := Task(refs, state, 0, 0, registered)], handles, lua, multiset{}, {7}, map[], [], 0, false)
  }

  lemma OneTaskStarts()
    ensures Enabled(INITIAL, ExecAllocates(7, 0)) && !Early(INITIAL, ExecAllocates(7, 0))
    ensures Apply(INITIAL, ExecAllocates(7, 0)) == OneTask(1, Initializing, true, map[], Creating(7))
    ensures var s := OneTask(1, Initializing, true, map[], Creating(7));
            Enabled(s, ExecRuns) && !Early(s, ExecRuns)
            && Apply(s, ExecRuns) == OneTask(2, Running, true, map[], Started(7))
    ensures var s := OneTask(2, Running, true, map[], Started(7));
            Enabled(s, ExecPublishes(3)) && !Early(s, ExecPublishes(3))
            && Apply(s, ExecPublishes(3)) == OneTask(3, Running, true, map[3 := 7], Published(7))
    ensures var s := OneTask(3, Running, true, map[3 := 7], Published(7));
            Enabled(s, ExecReturns) && !Early(s, ExecReturns)
            && Apply(s, ExecReturns) == OneTask(2, Running, true, map[3 := 7], Idle)
  {
  }

  lemma OneTaskIsKilled()
    ensures var s := OneTask(2, Running, true, map[3 := 7], Idle);
            Enabled(s, KillBegins(3)) && !Early(s, KillBegins(3))
            && Apply(s, KillBegins(3)) == OneTask(2, Running, true, map[3 := 7], Killing(3))
    ensures var s := OneTask(2, Running, true, map[3 := 7], Killing(3));
            Enabled(s, KillTerminates) && !Early(s, KillTerminates)
            && Apply(s, KillTerminates) == OneTask(2, Running, false, map[3 := 7], Killed(3))
    ensures var s := OneTask(2, Running, false, map[3 := 7], Killed(3));
            Enabled(s, KillDrops) && !Early(s, KillDrops)
            && Apply(s, KillDrops) == OneTask(1, Running, false, map[], Idle)
  {
  }

  const KILL_RUN :=
    [ExecAllocates(7, 0), ExecRuns, ExecPublishes(3), ExecReturns, KillBegins(3), KillTerminates, KillDrops]

  /** A run that gets there: the program is started and killed, nobody points to its block, and it is there. */
  lemma KillRun()
    ensures Legal(INITIAL, KILL_RUN) && Ordered(INITIAL, KILL_RUN)
    ensures var s := Run(INITIAL, KILL_RUN); KilledRunning(s, 7) && s.handles == map[] && s.lua == Idle
  {
    OneTaskStarts();
    OneTaskIsKilled();
    AtEnd(OneTask(1, Running, false, map[], Idle), KILL_RUN);
    hide Legal, Run, Ordered, Enabled, Early, Apply;
    Prepended(OneTask(2, Running, false, map[3 := 7], Killed(3)), KILL_RUN, 6);
    Prepended(OneTask(2, Running, true, map[3 := 7], Killing(3)), KILL_RUN, 5);
    Prepended(OneTask(2, Running, true, map[3 := 7], Idle), KILL_RUN, 4);
    Prepended(OneTask(3, Running, true, map[3 := 7], Published(7)), KILL_RUN, 3);
    Prepended(OneTask(2, Running, true, map[], Started(7)), KILL_RUN, 2);
    Prepended(OneTask(1, Initializing, true, map[], Creating(7)), KILL_RUN, 1);
    Prepended(INITIAL, KILL_RUN, 0);
    assert KILL_RUN[0..] == KILL_RUN;
  }

  lemma AtEnd(s: State, steps: seq<Step>)
    ensures Legal(s, steps[|steps|..]) && Ordered(s, steps[|steps|..]) && Run(s, steps[|steps|..]) == s
  {
  }

  /** A run is prepended by one step. */
  lemma Prepended(s: State, steps: seq<Step>, i: nat)
    requires i < |steps| && Enabled(s, steps[i]) && !Early(s, steps[i])
    requires Legal(Apply(s, steps[i]), steps[i + 1..]) && Ordered(Apply(s, steps[i]), steps[i + 1..])
    ensures Legal(s, steps[i..]) && Ordered(s, steps[i..])
    ensures Run(s, steps[i..]) == Run(Apply(s, steps[i]), steps[i + 1..])
  {
    assert steps[i..][1..] == steps[i + 1..];
  }

  lemma NeverRegisteredAgain(s: State, step: Step, t: Id)
    requires Inv(s) && Enabled(s, step) && !Early(s, step) && t in s.heap && t in Apply(s, step).heap
    ensures !s.heap[t].registered ==> !Apply(s, step).heap[t].registered
  {
    hide Inv, Holders, HandleInv, BlockInv;
    assert Enabled(s, step) && (step.ExecAllocates? ==> step.t != t) by { BlockIsUsed(s, t); }
  }

  lemma BlockIsUsed(s: State, t: Id)
    requires Inv(s) && t in s.heap
    ensures t in s.used
  {
    BlockOf(s, t);
  }

  // ---- Waiting ----

  /** No wake-up is lost and none is spurious. A waiter whose request was not looked at can have it taken; one
      whose block is a zombie has exactly one message, and will get the code of that exit; one whose program
      still runs can be woken by its exit, whatever the code, and then has its message. Nobody else ever has a
      message, and every message sent so far was consumed by one completed wait. */
  lemma NoLostWakeup(steps: seq<Step>)
    requires Legal(INITIAL, steps) && Ordered(INITIAL, steps)
    ensures var s := Run(INITIAL, steps);
            && s.sent == |s.results| + s.mail[LUA_THREAD]
            && (!s.lua.Waiting? ==> s.mail == multiset{})
            && (s.lua.Waiting? ==> s.lua.h in s.handles && s.handles[s.lua.h] in s.heap && Wakeable(s))
            && forall i :: 0 <= i < |s.results| ==>
                 s.results[i].0 in s.exits && s.results[i].1 == s.exits[s.results[i].0]
  {
    RunKeepsInv(INITIAL, steps);
    var s := Run(INITIAL, steps);
    hide Run, Legal, Ordered;
    RestOf(s);
    if s.lua.Waiting? {
      HandleOf(s, s.lua.h);
      WaiterIsWakeable(s);
    }
  }

  ghost predicate Wakeable(s: State)
    requires s.lua.Waiting? && s.lua.h in s.handles && s.handles[s.lua.h] in s.heap
  {
    var t := s.handles[s.lua.h];
    if !s.lua.taken then Enabled(s, ServerTakesRequest) && s.mail == multiset{}
    else if s.heap[t].state == Zombie then
      && s.mail == multiset{LUA_THREAD} && Enabled(s, WaitReturns) && t in s.exits
      && Apply(s, WaitReturns).results == s.results + [(t, s.exits[t])]
      && Apply(s, WaitReturns).mail == multiset{}
    else
      && s.mail == multiset{}
      && forall code :: Enabled(s, ServerExits(t, code)) && !Early(s, ServerExits(t, code))
                        && Apply(s, ServerExits(t, code)).mail == multiset{LUA_THREAD}
                        && Apply(s, ServerExits(t, code)).exits == s.exits[t := code]
  }

  lemma WaiterIsWakeable(s: State)
    requires Inv(s) && s.lua.Waiting?
    ensures s.lua.h in s.handles && s.handles[s.lua.h] in s.heap && Wakeable(s)
  {
    hide Inv, Holders;
    RestOf(s);
    HandleOf(s, s.lua.h);
    BlockOf(s, s.handles[s.lua.h]);
    if s.lua.taken && s.heap[s.handles[s.lua.h]].state == Running {
      RunningHasSpareRef(s, s.handles[s.lua.h]);
    }
  }

  // ---- The one assumption is needed, exactly ----

  /** A step from a good state leads to a good state if and only if it is not an early exit. */
  lemma OrderIsExactlyWhatIsNeeded(s: State, step: Step)
    requires Inv(s) && Enabled(s, step)
    ensures Inv(Apply(s, step)) <==> !Early(s, step)
  {
    hide Inv;
    if Early(s, step) {
      EarlyExitFrees(s, step.t, step.code);
      if Inv(Apply(s, step)) {
        RestOf(Apply(s, step));
        assert false;
      }
    } else {
      StepKeepsInv(s, step);
    }
  }

  /** An early exit frees the block under the pointer of exec, and whatever exec does next follows it. */
  lemma EarlyExitFrees(s: State, t: Id, code: nat)
    requires Inv(s) && Enabled(s, ServerExits(t, code)) && Early(s, ServerExits(t, code))
    ensures var s' := Apply(s, ServerExits(t, code));
            && s'.lua == Creating(t) && t !in s'.heap
            && forall next :: Enabled(s', next) && (next.LaunchFails? || next.ExecRuns?) ==> Apply(s', next).corrupt
  {
    hide Inv;
    RestOf(s);
    BlockOf(s, t);
    assert Holders(s.handles, t) == {};
  }

  /** The shortest such run. */
  lemma EarlyExitRun()
    ensures var steps := [ExecAllocates(7, 0), ServerExits(7, 1), ExecRuns];
            Legal(INITIAL, steps) && Run(INITIAL, steps).corrupt
  {
    var s1 := Apply(INITIAL, ExecAllocates(7, 0));
    var s2 := Apply(s1, ServerExits(7, 1));
    assert s1.heap[7].refs == 1 && 7 !in s2.heap;
    var s3 := Apply(s2, ExecRuns);
    var steps := [ExecAllocates(7, 0), ServerExits(7, 1), ExecRuns];
    assert steps[1..] == [ServerExits(7, 1), ExecRuns] && steps[1..][1..] == [ExecRuns] && [ExecRuns][1..] == [];
    assert Legal(s3, []) && Legal(s2, [ExecRuns]) && Legal(s1, steps[1..]);
    assert Run(s2, [ExecRuns]) == s3;
  }

  lemma NoShorterRun(steps: seq<Step>)
    requires Legal(INITIAL, steps) && |steps| <= 2
    ensures !Run(INITIAL, steps).corrupt
  {
    if steps != [] {
      var s1 := Apply(INITIAL, steps[0]);
      assert steps[0].ExecAllocates? && !s1.corrupt;
      if |steps| == 2 {
        assert steps[1..][1..] == [] && Run(s1, steps[1..]) == Apply(s1, steps[1]);
      }
    }
  }

  // ---- ... over whole runs ----

  /** A pointer to a freed block has been followed, or exec holds one and will. */
  ghost predicate Dangling(s: State) {
    s.corrupt || (s.lua.Creating? && s.lua.t !in s.heap)
  }

  /** A run keeps clear of that if and only if every `running()` in it precedes the exit signal. */
  lemma OrderedExactlyIfSound(steps: seq<Step>)
    requires Legal(INITIAL, steps)
    ensures Ordered(INITIAL, steps) <==> !Dangling(Run(INITIAL, steps))
  {
    OrderedExactlyFrom(INITIAL, steps);
  }

  lemma {:induction false} OrderedExactlyFrom(s: State, steps: seq<Step>)
    requires Inv(s) && Legal(s, steps)
    ensures Ordered(s, steps) <==> !Dangling(Run(s, steps))
    decreases steps
  {
    if steps == [] {
      RestOf(s);
    } else {
      var next := Apply(s, steps[0]);
      if Early(s, steps[0]) {
        EarlyExitFrees(s, steps[0].t, steps[0].code);
        DanglingStays(next, steps[1..]);
      } else {
        StepKeepsInv(s, steps[0]);
        OrderedExactlyFrom(next, steps[1..]);
      }
    }
  }

  lemma {:induction false} DanglingStays(s: State, steps: seq<Step>)
    requires Dangling(s) && Legal(s, steps)
    ensures Dangling(Run(s, steps))
    decreases steps
  {
    if steps != [] {
      DanglingStays(Apply(s, steps[0]), steps[1..]);
    }
  }
}
