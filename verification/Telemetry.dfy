/** The telemetry zone tracker: per-thread zone stacks against a global level that a tick
    changes under a lock. */
module Telemetry {
  import opened Machine

  /** `TelemetryLevelState`. */
  datatype Level = Level(level: Addr, allLevels: bool)

  /** An open zone: the context the profiler library supplied for it, and the global state
      that the enter which opened it found when it checked the level. */
  datatype Zone = Zone(id: nat, checked: Level)

  /** What a thread emits: zone begins and ends.  `Observed` marks the place of an event that
      was swallowed because it found the global state changed. */
  datatype Event = Begin(zone: Zone) | End(zone: Zone) | Observed(level: Level)

  // ------------------------------------------------------------- one thread, as a value

  /** Between its calls a thread is idle; inside one it is past the level check. */
  datatype Pc = Idle | Entering(checked: Level, name: string) | Leaving | Exited

  datatype Thread = Thread(observed: Level, stack: seq<Zone>, trace: seq<Event>, pc: Pc)

  function Push(t: Thread, z: Zone): Thread {
    t.(stack := t.stack + [z], trace := t.trace + [Begin(z)])
  }

  function Pop(t: Thread): Thread {
    if t.stack == [] then t
    else t.(stack := t.stack[..|t.stack| - 1], trace := t.trace + [End(t.stack[|t.stack| - 1])])
  }

  function Clear(t: Thread): Thread
    decreases |t.stack|
  {
    if t.stack == [] then t else Clear(Pop(t))
  }

  function Ends(zones: seq<Zone>): seq<Event> {
    if zones == [] then [] else [End(zones[|zones| - 1])] + Ends(zones[..|zones| - 1])
  }

  /** Clearing emits the ends of the open zones, innermost first. */
  lemma {:induction false} ClearEmitsEnds(t: Thread)
    ensures Clear(t).trace == t.trace + Ends(t.stack)
    decreases |t.stack|
  {
    if t.stack == [] {
      assert t.trace + [] == t.trace;
    } else {
      var top, rest := t.stack[|t.stack| - 1], t.stack[..|t.stack| - 1];
      ClearEmitsEnds(Pop(t));
      assert t.trace + [End(top)] + Ends(rest) == t.trace + ([End(top)] + Ends(rest));
    }
  }

  /** `check_level`: take over a changed state and close everything. */
  function CheckLevel(t: Thread, global: Level): Thread {
    if t.observed == global then t
    else
      var closed := Clear(t);
      closed.(observed := global, trace := closed.trace + [Observed(global)])
  }

  // `strncmp(buf, "Wait", 4) == 0`
  predicate IsWait(name: string) { "Wait" <= name }

  /** The rest of an enter whose level check passed. */
  function FinishEnter(t: Thread, checked: Level, name: string, id: nat): Thread {
    if IsWait(name) then t else Push(t, Zone(id, checked))
  }

  /** What an enter leaves behind: a changed state closes everything and swallows it, a name
      starting with "Wait" changes nothing, any other opens one zone. */
  ghost predicate Entered(t: Thread, next: Thread, global: Level, name: string, id: nat) {
    && next.pc == Idle && next.observed == global
    && if t.observed != global then
         next.stack == [] && next.trace == t.trace + Ends(t.stack) + [Observed(global)]
       else if |name| >= 4 && name[..4] == "Wait" then next.stack == t.stack && next.trace == t.trace
       else next.stack == t.stack + [Zone(id, global)] && next.trace == t.trace + [Begin(Zone(id, global))]
  }

  /** What a leave leaves behind: a changed state closes everything and swallows it, an unmatched
      leave changes nothing, any other ends the innermost zone. */
  ghost predicate Left(t: Thread, next: Thread, global: Level) {
    && next.pc == Idle && next.observed == global
    && if t.observed != global then
         next.stack == [] && next.trace == t.trace + Ends(t.stack) + [Observed(global)]
       else if t.stack == [] then next.stack == [] && next.trace == t.trace
       else
         var top := t.stack[|t.stack| - 1];
         next.stack + [top] == t.stack && next.trace == t.trace + [End(top)]
  }

  // ----------------------------------------------------------------- the thread's objects

  class ContextStack {
    var ctxStack: seq<Zone>
    var emitted: seq<Event>

    constructor ()
      ensures ctxStack == [] && emitted == []
    {
      ctxStack, emitted := [], [];
    }

    method PushZone(z: Zone)
      modifies this
      ensures ctxStack == old(ctxStack) + [z] && emitted == old(emitted) + [Begin(z)]
    {
      emitted := emitted + [Begin(z)];
      ctxStack := ctxStack + [z];
    }

    method PopZone()
      modifies this
      ensures old(ctxStack) == [] ==> ctxStack == [] && emitted == old(emitted)
      ensures old(ctxStack) != [] ==>
                ctxStack + [old(ctxStack)[|old(ctxStack)| - 1]] == old(ctxStack) &&
                emitted == old(emitted) + [End(old(ctxStack)[|old(ctxStack)| - 1])]
    {
      if ctxStack == [] { return; }
      emitted := emitted + [End(ctxStack[|ctxStack| - 1])];
      ctxStack := ctxStack[..|ctxStack| - 1];
    }

    method ClearZones()
      modifies this
      ensures ctxStack == [] && emitted == old(emitted) + Ends(old(ctxStack))
    {
      while ctxStack != []
        invariant emitted + Ends(ctxStack) == old(emitted) + Ends(old(ctxStack))
        decreases |ctxStack|
      {
        ghost var top, rest, done := ctxStack[|ctxStack| - 1], ctxStack[..|ctxStack| - 1], emitted;
        PopZone();
        assert ctxStack == rest;
        assert done + ([End(top)] + Ends(rest)) == done + [End(top)] + Ends(rest);
      }
    }
  }

  /** The thread-local variables of the telemetry replacement. */
  class ThreadState {
    var lastObserved: Level
    const telemetryCtxStack: ContextStack

    constructor ()
      ensures Value() == NEW_THREAD && fresh(telemetryCtxStack)
    {
      lastObserved := Level(0, false);
      telemetryCtxStack := new ContextStack();
    }

    ghost function Value(): Thread
      reads this, telemetryCtxStack
    {
      Thread(lastObserved, telemetryCtxStack.ctxStack, telemetryCtxStack.emitted, Idle)
    }

    method CheckLevelState(global: Level) returns (changed: bool)
      modifies this, telemetryCtxStack
      ensures changed <==> old(lastObserved) != global
      ensures Value() == CheckLevel(old(Value()), global)
    {
      if lastObserved != global {
        ClearKeeps(Value());
        ClearEmitsEnds(Value());
        lastObserved := global;
        telemetryCtxStack.ClearZones();
        telemetryCtxStack.emitted := telemetryCtxStack.emitted + [Observed(global)];
        return true;
      }
      return false;
    }

    /** `global` is what the check reads under the lock; a tick may change it afterwards. */
    method TmCoreEnter(global: Level, name: string, id: nat)
      modifies this, telemetryCtxStack
      ensures Value() == (var t := CheckLevel(old(Value()), global);
                          if old(lastObserved) != global then t else FinishEnter(t, global, name, id))
      ensures Entered(old(Value()), Value(), global, name, id)
    {
      ClearEmitsEnds(Value());
      ClearKeeps(Value());
      var changed := CheckLevelState(global);
      if changed { return; }
      if IsWait(name) { return; }
      telemetryCtxStack.PushZone(Zone(id, global));
    }

    method TmCoreLeave(global: Level)
      modifies this, telemetryCtxStack
      ensures Value() == (var t := CheckLevel(old(Value()), global);
                          if old(lastObserved) != global then t else Pop(t))
      ensures Left(old(Value()), Value(), global)
    {
      ClearEmitsEnds(Value());
      ClearKeeps(Value());
      var changed := CheckLevelState(global);
      if changed { return; }
      ghost var t := Value();
      telemetryCtxStack.PopZone();
      assert telemetryCtxStack.ctxStack == Pop(t).stack;
    }
  }

  const NEW_THREAD := Thread(Level(0, false), [], [], Idle)

  lemma {:induction false} ClearKeeps(t: Thread)
    ensures Clear(t).observed == t.observed && Clear(t).pc == t.pc && Clear(t).stack == []
    decreases |t.stack|
  {
    if t.stack != [] { ClearKeeps(Pop(t)); }
  }

  // ------------------------------------------------------------------------ the tick

  datatype Context = NullContext | Replacement | Foreign

  /** `TelemetryTick_replacement`: on a changed level or switch, install the replacement at
      the level, or everywhere, and publish the new state.  A level past the contexts is
      stored out of bounds, which C++ leaves undefined. */
  method TelemetryTick(tmContext: array<Context>, state: Level, level: Addr, profileAll: bool)
    returns (newState: Result<Level>)
    requires tmContext.Length == 32
    modifies tmContext
    ensures newState == if state != Level(level, profileAll) && !profileAll && level >= 32 then Err(Undefined)
                        else Ok(Level(level, profileAll))
    ensures state == Level(level, profileAll) ==> tmContext[..] == old(tmContext[..])
    ensures state != Level(level, profileAll) && newState.Ok? ==>
              forall k :: 0 <= k < 32 ==> tmContext[k] == if profileAll || k == level then Replacement else NullContext
  {
    if level != state.level || state.allLevels != profileAll {
      if !profileAll {
        forall k | 0 <= k < tmContext.Length { tmContext[k] := NullContext; }
        if level >= tmContext.Length { return Err(Undefined); }
        tmContext[level] := Replacement;
      } else {
        for l := 0 to tmContext.Length
          invariant forall k :: 0 <= k < l ==> tmContext[k] == Replacement
        {
          tmContext[l] := Replacement;
        }
      }
      return Ok(Level(level, profileAll));
    }
    return Ok(state);
  }

  // ------------------------------------------------------------- all threads together

  datatype State = State(global: Level, threads: map<nat, Thread>)

  /** The steps threads and the tick interleave: the level check, under the lock, and what
      follows it are separate.  The rest of an enter carries the context that the profiler
      library supplies if a zone is begun. */
  datatype Action =
    | EnterCheck(tid: nat, name: string)
    | EnterRest(tid: nat, id: nat)
    | LeaveCheck(tid: nat)
    | LeaveRest(tid: nat)
    | Exit(tid: nat)
    | Tick(newLevel: Level)

  /** A thread's variables come into being at its first use of them. */
  function ThreadOf(s: State, tid: nat): Thread {
    if tid in s.threads then s.threads[tid] else NEW_THREAD
  }

  function Checked(t: Thread, global: Level, pc: Pc): Thread {
    CheckLevel(t, global).(pc := if t.observed == global then pc else Idle)
  }

  function Step(s: State, a: Action): Option<State> {
    match a
    case EnterCheck(tid, name) =>
      if ThreadOf(s, tid).pc != Idle then None
      else Some(s.(threads := s.threads[tid := Checked(ThreadOf(s, tid), s.global, Entering(s.global, name))]))
    case EnterRest(tid, id) =>
      var t := ThreadOf(s, tid);
      if !t.pc.Entering? then None
      else Some(s.(threads := s.threads[tid := FinishEnter(t, t.pc.checked, t.pc.name, id).(pc := Idle)]))
    case LeaveCheck(tid) =>
      if ThreadOf(s, tid).pc != Idle then None
      else Some(s.(threads := s.threads[tid := Checked(ThreadOf(s, tid), s.global, Leaving)]))
    case LeaveRest(tid) =>
      if ThreadOf(s, tid).pc != Leaving then None
      else Some(s.(threads := s.threads[tid := Pop(ThreadOf(s, tid)).(pc := Idle)]))
    case Exit(tid) =>
      if ThreadOf(s, tid).pc != Idle then None
      else Some(s.(threads := s.threads[tid := Clear(ThreadOf(s, tid)).(pc := Exited)]))
    case Tick(newLevel) => Some(s.(global := newLevel))
  }

  /** The state after a run, if each of its steps can be taken; `global` is the state the
      profiler module starts with. */
  function Run(global: Level, actions: seq<Action>): Option<State>
    decreases |actions|
  {
    if actions == [] then Some(State(global, map[]))
    else
      var before := Run(global, actions[..|actions| - 1]);
      if before.None? then None else Step(before.value, actions[|actions| - 1])
  }
}
