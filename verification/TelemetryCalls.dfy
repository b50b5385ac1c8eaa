/** What one call of the telemetry replacement does in a run, whatever happens between its level
    check and its rest. */
module TelemetryCalls {
  import opened Machine
  import opened Telemetry
  import opened TelemetryProperties

  /** Steps of other threads, and ticks. */
  predicate Elsewhere(actions: seq<Action>, tid: nat) {
    forall a :: a in actions ==> a.Tick? || a.tid != tid
  }

  lemma RunSnoc(global: Level, actions: seq<Action>, a: Action)
    ensures Run(global, actions + [a])
            == (var s := Run(global, actions); if s.None? then None else Step(s.value, a))
  {
    assert (actions + [a])[..|actions|] == actions;
  }

  lemma OtherThread(s: State, a: Action, tid: nat)
    requires Step(s, a).Some? && (a.Tick? || a.tid != tid)
    ensures ThreadOf(Step(s, a).value, tid) == ThreadOf(s, tid)
  {
  }

  /** What happens elsewhere leaves a thread as it is. */
  lemma {:induction false} Untouched(global: Level, before: seq<Action>, between: seq<Action>, tid: nat)
    requires Run(global, before + between).Some? && Elsewhere(between, tid)
    ensures Run(global, before).Some?
    ensures ThreadOf(Run(global, before + between).value, tid) == ThreadOf(Run(global, before).value, tid)
    decreases |between|
  {
    hide Run, Step;
    if between == [] {
      assert before + between == before;
    } else {
      var n := |between| - 1;
      assert before + between == (before + between[..n]) + [between[n]];
      RunSnoc(global, before + between[..n], between[n]);
      Untouched(global, before, between[..n], tid);
      OtherThread(Run(global, before + between[..n]).value, between[n], tid);
    }
  }

  lemma CheckThenElsewhere(global: Level, before: seq<Action>, check: Action, between: seq<Action>)
    requires (check.EnterCheck? || check.LeaveCheck?) && Elsewhere(between, check.tid)
    requires Run(global, before + [check] + between).Some?
    ensures Run(global, before).Some? && Step(Run(global, before).value, check).Some?
    ensures ThreadOf(Run(global, before + [check] + between).value, check.tid)
            == ThreadOf(Step(Run(global, before).value, check).value, check.tid)
  {
    hide Run, Step;
    Untouched(global, before + [check], between, check.tid);
    RunSnoc(global, before, check);
  }

  /** An enter in a run, its level check and its rest apart: what the call as a whole leaves
      behind under the state the check found, no matter what came between. */
  lemma EnterInRun(global: Level, before: seq<Action>, between: seq<Action>, tid: nat, name: string, id: nat)
    requires Elsewhere(between, tid)
    requires Run(global, before + [EnterCheck(tid, name)] + between + [EnterRest(tid, id)]).Some?
    ensures Run(global, before).Some? && Run(global, before + [EnterCheck(tid, name)] + between).Some?
    ensures var s := Run(global, before).value;
            var mid := Run(global, before + [EnterCheck(tid, name)] + between).value;
            var end := Run(global, before + [EnterCheck(tid, name)] + between + [EnterRest(tid, id)]).value;
            && ThreadOf(s, tid).observed == s.global
            && Entered(ThreadOf(s, tid), ThreadOf(end, tid), s.global, name, id)
            && end.global == mid.global
            && forall other :: other != tid ==> ThreadOf(end, other) == ThreadOf(mid, other)
  {
    hide Run;
    RunSnoc(global, before + [EnterCheck(tid, name)] + between, EnterRest(tid, id));
    CheckThenElsewhere(global, before, EnterCheck(tid, name), between);
  }

  /** A leave in a run: it ends the innermost zone and no other, or changes nothing on an empty
      stack, wherever ticks and other threads come between. */
  lemma LeaveInRun(global: Level, before: seq<Action>, between: seq<Action>, tid: nat)
    requires Elsewhere(between, tid)
    requires Run(global, before + [LeaveCheck(tid)] + between + [LeaveRest(tid)]).Some?
    ensures Run(global, before).Some? && Run(global, before + [LeaveCheck(tid)] + between).Some?
    ensures var s := Run(global, before).value;
            var mid := Run(global, before + [LeaveCheck(tid)] + between).value;
            var end := Run(global, before + [LeaveCheck(tid)] + between + [LeaveRest(tid)]).value;
            && ThreadOf(s, tid).observed == s.global
            && Left(ThreadOf(s, tid), ThreadOf(end, tid), s.global)
            && end.global == mid.global
            && forall other :: other != tid ==> ThreadOf(end, other) == ThreadOf(mid, other)
  {
    hide Run;
    RunSnoc(global, before + [LeaveCheck(tid)] + between, LeaveRest(tid));
    CheckThenElsewhere(global, before, LeaveCheck(tid), between);
  }

  /** A call that finds the state changed is over with its check, and leaves behind the same. */
  lemma SwallowedInRun(s: State, tid: nat, name: string, id: nat)
    requires ThreadOf(s, tid).pc == Idle && ThreadOf(s, tid).observed != s.global
    ensures Step(s, EnterCheck(tid, name)).Some? && Step(s, LeaveCheck(tid)).Some?
    ensures Entered(ThreadOf(s, tid), ThreadOf(Step(s, EnterCheck(tid, name)).value, tid), s.global, name, id)
    ensures Left(ThreadOf(s, tid), ThreadOf(Step(s, LeaveCheck(tid)).value, tid), s.global)
  {
    ClearEmitsEnds(ThreadOf(s, tid));
    ClearKeeps(ThreadOf(s, tid));
  }

  /** A call can always go on: an idle thread's check can be taken, and its rest whenever the
      check found the state unchanged. */
  lemma CallsGoOn(s: State, tid: nat, name: string, id: nat)
    requires ThreadOf(s, tid).pc == Idle && ThreadOf(s, tid).observed == s.global
    ensures var e, l := Step(s, EnterCheck(tid, name)), Step(s, LeaveCheck(tid));
            e.Some? && l.Some? && Step(e.value, EnterRest(tid, id)).Some? && Step(l.value, LeaveRest(tid)).Some?
  {
  }

  /** The two contracts leave no choice, so the calls in a run and the methods agree. */
  lemma CallsAreDetermined(t: Thread, one: Thread, other: Thread, global: Level, name: string, id: nat)
    ensures Entered(t, one, global, name, id) && Entered(t, other, global, name, id) ==> one == other
    ensures Left(t, one, global) && Left(t, other, global) ==> one == other
  {
    if Left(t, one, global) && Left(t, other, global) && t.observed == global && t.stack != [] {
      var n := |t.stack| - 1;
      assert one.stack == (one.stack + [t.stack[n]])[..n] && other.stack == (other.stack + [t.stack[n]])[..n];
    }
  }

  lemma {:induction false} EndsReversed(zones: seq<Zone>)
    ensures |Ends(zones)| == |zones|
    ensures forall k :: 0 <= k < |zones| ==> Ends(zones)[k] == End(zones[|zones| - 1 - k])
  {
    if zones != [] { EndsReversed(zones[..|zones| - 1]); }
  }

  /** A thread that exits ends its open zones, innermost first. */
  lemma ExitEndsAll(s: State, tid: nat)
    requires ThreadOf(s, tid).pc == Idle
    ensures Step(s, Exit(tid)).Some?
    ensures var t, next := ThreadOf(s, tid), Step(s, Exit(tid)).value;
            && ThreadOf(next, tid).stack == [] && ThreadOf(next, tid).pc == Exited
            && ThreadOf(next, tid).trace == t.trace + Ends(t.stack) && next.global == s.global
            && forall other :: other != tid ==> ThreadOf(next, other) == ThreadOf(s, other)
  {
    ClearEmitsEnds(ThreadOf(s, tid));
    ClearKeeps(ThreadOf(s, tid));
  }

  /** A tick publishes its state to the next checks and touches no thread. */
  lemma {:induction false} TickInRun(global: Level, before: seq<Action>, level: Level, between: seq<Action>)
    requires Run(global, before + [Tick(level)] + between).Some? && forall a :: a in between ==> !a.Tick?
    ensures Run(global, before).Some?
    ensures Run(global, before + [Tick(level)] + between).value.global == level
    ensures Run(global, before + [Tick(level)]) == Some(State(level, Run(global, before).value.threads))
    decreases |between|
  {
    hide Run, Step;
    RunSnoc(global, before, Tick(level));
    if between == [] {
      assert before + [Tick(level)] + between == before + [Tick(level)];
      TickSets(Run(global, before).value, level);
    } else {
      var n := |between| - 1;
      assert before + [Tick(level)] + between == (before + [Tick(level)] + between[..n]) + [between[n]];
      RunSnoc(global, before + [Tick(level)] + between[..n], between[n]);
      TickInRun(global, before, level, between[..n]);
      OthersKeepState(Run(global, before + [Tick(level)] + between[..n]).value, between[n]);
    }
  }

  lemma TickSets(s: State, level: Level)
    ensures Step(s, Tick(level)) == Some(State(level, s.threads))
  {
  }

  lemma OthersKeepState(s: State, a: Action)
    requires !a.Tick? && Step(s, a).Some?
    ensures Step(s, a).value.global == s.global
  {
    hide CheckLevel, Clear, Pop, FinishEnter;
  }
}
