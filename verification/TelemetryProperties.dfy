/** What every run of the zone tracker keeps. */
module TelemetryProperties {
  import opened Machine
  import opened Telemetry

  // ------------------------------------------------------------ reading a trace back

  datatype Reading = Reading(open: seq<Zone>, level: Level)

  /** One event read against the open zones and the state in force: a zone begins only under
      that state, only the innermost zone ends, and the state changes only when no zone is
      open. */
  function ReadEvent(r: Reading, e: Event): Option<Reading> {
    match e
    case Begin(z) => if z.checked == r.level then Some(r.(open := r.open + [z])) else None
    case End(z) =>
      if r.open != [] && r.open[|r.open| - 1] == z then Some(r.(open := r.open[..|r.open| - 1])) else None
    case Observed(l) => if r.open == [] && l != r.level then Some(Reading([], l)) else None
  }

  function ReadTrace(trace: seq<Event>): Option<Reading>
    decreases |trace|
  {
    if trace == [] then Some(Reading([], NEW_THREAD.observed))
    else
      var r := ReadTrace(trace[..|trace| - 1]);
      if r.None? then None else ReadEvent(r.value, trace[|trace| - 1])
  }

  lemma ReadSnoc(trace: seq<Event>, e: Event)
    ensures ReadTrace(trace + [e]) == (var r := ReadTrace(trace); if r.None? then None else ReadEvent(r.value, e))
  {
    assert (trace + [e])[..|trace|] == trace;
  }

  // ------------------------------------------------------------------------ invariant

  /** The trace reads back as the thread's own stack and last observed state. */
  ghost predicate ThreadInv(t: Thread) {
    && ReadTrace(t.trace) == Some(Reading(t.stack, t.observed))
    && (t.pc.Entering? ==> t.pc.checked == t.observed)
    && (t.pc.Exited? ==> t.stack == [])
  }

  ghost predicate Inv(s: State) {
    forall tid :: tid in s.threads ==> ThreadInv(s.threads[tid])
  }

  lemma PushKeeps(t: Thread, z: Zone)
    requires ReadTrace(t.trace) == Some(Reading(t.stack, t.observed)) && z.checked == t.observed
    ensures ReadTrace(Push(t, z).trace) == Some(Reading(Push(t, z).stack, t.observed))
  {
    ReadSnoc(t.trace, Begin(z));
  }

  lemma PopKeeps(t: Thread)
    requires ReadTrace(t.trace) == Some(Reading(t.stack, t.observed))
    ensures ReadTrace(Pop(t).trace) == Some(Reading(Pop(t).stack, t.observed))
  {
    if t.stack != [] { ReadSnoc(t.trace, End(t.stack[|t.stack| - 1])); }
  }

  lemma {:induction false} ClearCloses(t: Thread)
    requires ReadTrace(t.trace) == Some(Reading(t.stack, t.observed))
    ensures ReadTrace(Clear(t).trace) == Some(Reading([], t.observed))
    ensures Clear(t).stack == [] && Clear(t).observed == t.observed
    decreases |t.stack|
  {
    if t.stack != [] {
      PopKeeps(t);
      ClearCloses(Pop(t));
    }
  }

  lemma CheckKeeps(t: Thread, global: Level, pc: Pc)
    requires ThreadInv(t) && t.pc == Idle
    requires pc == Leaving || (pc.Entering? && pc.checked == global)
    ensures ThreadInv(Checked(t, global, pc))
  {
    if t.observed != global {
      ClearCloses(t);
      ReadSnoc(Clear(t).trace, Observed(global));
    }
  }

  lemma NewThreadInv()
    ensures ThreadInv(NEW_THREAD)
  {
  }

  lemma StepKeepsInv(s: State, a: Action)
    requires Inv(s) && Step(s, a).Some?
    ensures Inv(Step(s, a).value)
  {
    if !a.Tick? {
      var t := ThreadOf(s, a.tid);
      NewThreadInv();
      assert ThreadInv(t);
      match a {
        case EnterCheck(_, name) => CheckKeeps(t, s.global, Entering(s.global, name));
        case EnterRest(_, id) => PushKeeps(t, Zone(id, t.pc.checked));
        case LeaveCheck(_) => CheckKeeps(t, s.global, Leaving);
        case LeaveRest(_) => PopKeeps(t);
        case Exit(_) => ClearCloses(t);
      }
    }
  }

  /** In every run, at every moment, each thread's trace reads back as its open zones and its
      last observed state. */
  lemma {:induction false} EveryRunKeepsInv(global: Level, actions: seq<Action>)
    requires Run(global, actions).Some?
    ensures Inv(Run(global, actions).value)
    decreases |actions|
  {
    if actions != [] {
      EveryRunKeepsInv(global, actions[..|actions| - 1]);
      StepKeepsInv(Run(global, actions[..|actions| - 1]).value, actions[|actions| - 1]);
    }
  }

  // ------------------------------------------------------------- well-bracketed words

  /** Balanced words: each zone's begin is closed by its own end, around a balanced word. */
  datatype Balanced = Empty | Then(before: Balanced, zone: Zone, inside: Balanced)

  function Word(b: Balanced): seq<Event> {
    match b
    case Empty => []
    case Then(before, z, inside) => Word(before) + [Begin(z)] + Word(inside) + [End(z)]
  }

  /** A prefix of a balanced word: balanced parts between the zones still open. */
  datatype Prefix = Closed(all: Balanced) | Open(outer: Prefix, zone: Zone, inner: Balanced)

  function PrefixWord(p: Prefix): seq<Event> {
    match p
    case Closed(b) => Word(b)
    case Open(outer, z, inner) => PrefixWord(outer) + [Begin(z)] + Word(inner)
  }

  function OpenZones(p: Prefix): seq<Zone> {
    match p
    case Closed(_) => []
    case Open(outer, z, _) => OpenZones(outer) + [z]
  }

  function Innermost(p: Prefix): Balanced {
    match p
    case Closed(b) => b
    case Open(_, _, b) => b
  }

  function WithInnermost(p: Prefix, b: Balanced): Prefix {
    match p
    case Closed(_) => Closed(b)
    case Open(outer, z, _) => Open(outer, z, b)
  }

  /** The zone events of a trace. */
  function ZoneEvents(trace: seq<Event>): seq<Event>
    decreases |trace|
  {
    if trace == [] then []
    else
      var before, e := ZoneEvents(trace[..|trace| - 1]), trace[|trace| - 1];
      if e.Observed? then before else before + [e]
  }

  lemma CloseInnermost(p: Prefix)
    requires p.Open?
    ensures var q := WithInnermost(p.outer, Then(Innermost(p.outer), p.zone, p.inner));
            PrefixWord(q) == PrefixWord(p) + [End(p.zone)] && OpenZones(q) == OpenZones(p.outer)
  {
    var z, w := p.zone, Word(p.inner);
    match p.outer
    case Closed(b) =>
    case Open(outer, y, b) =>
      var head := PrefixWord(outer) + [Begin(y)];
      assert head + (Word(b) + [Begin(z)] + w + [End(z)]) == (head + Word(b)) + [Begin(z)] + w + [End(z)];
  }

  /** A trace that reads back is a prefix of a well-bracketed word, its open zones those
      still open. */
  lemma {:induction false} ReadableIsPrefix(trace: seq<Event>)
    requires ReadTrace(trace).Some?
    ensures exists p :: PrefixWord(p) == ZoneEvents(trace) && OpenZones(p) == ReadTrace(trace).value.open
    decreases |trace|
  {
    hide PrefixWord, OpenZones, Word, Innermost, WithInnermost;
    if trace == [] {
      NothingYet();
    } else {
      var before, e := trace[..|trace| - 1], trace[|trace| - 1];
      ReadableIsPrefix(before);
      var p :| PrefixWord(p) == ZoneEvents(before) && OpenZones(p) == ReadTrace(before).value.open;
      match e {
        case Begin(z) => OpenOne(p, z);
        case End(z) =>
          OpenIfAny(p);
          CloseInnermost(p);
        case Observed(_) =>
      }
    }
  }

  lemma NothingYet()
    ensures PrefixWord(Closed(Empty)) == [] && OpenZones(Closed(Empty)) == []
  {
  }

  lemma OpenOne(p: Prefix, z: Zone)
    ensures PrefixWord(Open(p, z, Empty)) == PrefixWord(p) + [Begin(z)]
    ensures OpenZones(Open(p, z, Empty)) == OpenZones(p) + [z]
  {
  }

  lemma OpenIfAny(p: Prefix)
    requires OpenZones(p) != []
    ensures p.Open? && OpenZones(p) == OpenZones(p.outer) + [p.zone]
  {
  }

  /** In every interleaving of enters, leaves, exits and ticks, over any number of threads,
      each thread's zone events are a prefix of a well-bracketed word whose open zones are its
      stack; after the thread's exit they are well bracketed. */
  lemma EveryTraceIsBracketed(global: Level, actions: seq<Action>, tid: nat)
    requires Run(global, actions).Some?
    ensures var t := ThreadOf(Run(global, actions).value, tid);
            && (exists p :: PrefixWord(p) == ZoneEvents(t.trace) && OpenZones(p) == t.stack)
            && (t.pc.Exited? ==> exists b :: Word(b) == ZoneEvents(t.trace))
  {
    EveryRunKeepsInv(global, actions);
    NewThreadInv();
    var t := ThreadOf(Run(global, actions).value, tid);
    ReadableIsPrefix(t.trace);
    var p :| PrefixWord(p) == ZoneEvents(t.trace) && OpenZones(p) == t.stack;
    if t.pc.Exited? {
      assert p.Closed?;
      assert Word(p.all) == ZoneEvents(t.trace);
    }
  }

  // --------------------------------------------------------------- the state in force

  lemma {:induction false} OpenUnderLevel(trace: seq<Event>)
    requires ReadTrace(trace).Some?
    ensures forall z :: z in ReadTrace(trace).value.open ==> z.checked == ReadTrace(trace).value.level
    decreases |trace|
  {
    if trace != [] { OpenUnderLevel(trace[..|trace| - 1]); }
  }

  lemma {:induction false} ReadablePrefix(trace: seq<Event>, k: nat)
    requires k <= |trace| && ReadTrace(trace).Some?
    ensures ReadTrace(trace[..k]).Some?
    decreases |trace|
  {
    if k < |trace| {
      ReadablePrefix(trace[..|trace| - 1], k);
      assert trace[..|trace| - 1][..k] == trace[..k];
    } else {
      assert trace[..k] == trace;
    }
  }

  /** What came before event `k`: a zone begins under the state in force, which every zone
      then open was opened under; an observed change finds no zone open and a new state. */
  ghost predicate InForce(trace: seq<Event>, k: nat)
    requires k < |trace|
  {
    && ReadTrace(trace[..k]).Some?
    && var r := ReadTrace(trace[..k]).value;
       match trace[k]
       case Begin(z) => z.checked == r.level && forall y :: y in r.open ==> y.checked == z.checked
       case End(z) => r.open != [] && r.open[|r.open| - 1] == z
       case Observed(l) => r.open == [] && l != r.level
  }

  lemma ReadableInForce(trace: seq<Event>, k: nat)
    requires k < |trace| && ReadTrace(trace).Some?
    ensures InForce(trace, k)
  {
    hide ReadTrace;
    ReadablePrefix(trace, k);
    ReadablePrefix(trace, k + 1);
    assert trace[..k + 1] == trace[..k] + [trace[k]];
    ReadSnoc(trace[..k], trace[k]);
    OpenUnderLevel(trace[..k]);
  }

  /** Every zone open on a thread was opened by an enter that found the thread's last observed
      state, wherever ticks land; and all along the thread's past an observed change came with
      all zones closed, and its state was in force for every zone begun until the next. */
  lemma OpenZonesShareObservedState(global: Level, actions: seq<Action>, tid: nat)
    requires Run(global, actions).Some?
    ensures var t := ThreadOf(Run(global, actions).value, tid);
            && (forall z :: z in t.stack ==> z.checked == t.observed)
            && (forall k :: 0 <= k < |t.trace| ==> InForce(t.trace, k))
  {
    EveryRunKeepsInv(global, actions);
    NewThreadInv();
    var t := ThreadOf(Run(global, actions).value, tid);
    OpenUnderLevel(t.trace);
    forall k | 0 <= k < |t.trace| ensures InForce(t.trace, k) {
      ReadableInForce(t.trace, k);
    }
  }

  // ----------------------------------------------------------------- the swallowed event

  /** In whatever state, an enter or leave that finds the global state changed emits only the
      ends of the open zones, in reverse order, and is over: the thread is idle, with nothing
      open, and what would have followed cannot be taken. */
  lemma ChangeSwallowsEvent(s: State, a: Action, id: nat)
    requires (a.EnterCheck? || a.LeaveCheck?) && Step(s, a).Some?
    requires ThreadOf(s, a.tid).observed != s.global
    ensures var t, next := ThreadOf(s, a.tid), ThreadOf(Step(s, a).value, a.tid);
            && next.pc == Idle && next.stack == [] && next.observed == s.global
            && next.trace == t.trace + Ends(t.stack) + [Observed(s.global)]
            && Step(Step(s, a).value, EnterRest(a.tid, id)).None? && Step(Step(s, a).value, LeaveRest(a.tid)).None?
  {
    var t := ThreadOf(s, a.tid);
    ClearEmitsEnds(t);
    ClearKeeps(t);
  }

  // ----------------------------------------------------- every zone is ended by its owner

  /** Action `k` of the run begins a zone, with the context it carries. */
  ghost predicate Supplies(global: Level, actions: seq<Action>, k: int) {
    && 0 <= k < |actions| && actions[k].EnterRest?
    && Run(global, actions[..k]).Some?
    && var t := ThreadOf(Run(global, actions[..k]).value, actions[k].tid); t.pc.Entering? && !IsWait(t.pc.name)
  }

  /** The profiler library supplies each zone begun with a context of its own. */
  ghost predicate DistinctContexts(global: Level, actions: seq<Action>) {
    forall i, k :: i < k && Supplies(global, actions, i) && Supplies(global, actions, k) ==>
      actions[i].id != actions[k].id
  }

  ghost predicate BeginsAt(s: State, tid: nat, k: nat) {
    tid in s.threads && k < |s.threads[tid].trace| && s.threads[tid].trace[k].Begin?
  }

  ghost predicate EndsAt(s: State, tid: nat, k: nat) {
    tid in s.threads && k < |s.threads[tid].trace| && s.threads[tid].trace[k].End?
  }

  function IdAt(s: State, tid: nat, k: nat): nat
    requires BeginsAt(s, tid, k) || EndsAt(s, tid, k)
  {
    s.threads[tid].trace[k].zone.id
  }

  /** Every begun zone's context was supplied by an action of the run, and no two share one. */
  ghost predicate OwnContexts(global: Level, actions: seq<Action>, s: State) {
    && (forall tid, k :: BeginsAt(s, tid, k) ==>
          exists i :: Supplies(global, actions, i) && actions[i].id == IdAt(s, tid, k))
    && (forall tid, k, tid', k' :: BeginsAt(s, tid, k) && BeginsAt(s, tid', k') && IdAt(s, tid, k) == IdAt(s, tid', k')
                                   ==> tid == tid' && k == k')
  }

  /** `next` only adds events that begin no zone. */
  ghost predicate BeginsNothing(t: Thread, next: Thread) {
    && t.trace <= next.trace
    && forall k :: |t.trace| <= k < |next.trace| ==> !next.trace[k].Begin?
  }

  lemma {:induction false} EndsBeginNothing(zones: seq<Zone>)
    ensures forall k :: 0 <= k < |Ends(zones)| ==> Ends(zones)[k].End?
  {
    if zones != [] { EndsBeginNothing(zones[..|zones| - 1]); }
  }

  lemma ClearBeginsNothing(t: Thread)
    ensures BeginsNothing(t, Clear(t))
  {
    ClearEmitsEnds(t);
    EndsBeginNothing(t.stack);
  }

  lemma OtherStepsBeginNothing(s: State, a: Action)
    requires Step(s, a).Some? && !a.Tick? && !(a.EnterRest? && !IsWait(ThreadOf(s, a.tid).pc.name))
    ensures BeginsNothing(ThreadOf(s, a.tid), ThreadOf(Step(s, a).value, a.tid))
  {
    ClearBeginsNothing(ThreadOf(s, a.tid));
  }

  /** The zones begun in `next` were begun in `s`. */
  ghost predicate OldBegins(s: State, next: State) {
    forall tid, k :: BeginsAt(next, tid, k) ==> BeginsAt(s, tid, k) && IdAt(next, tid, k) == IdAt(s, tid, k)
  }

  lemma OtherStepsKeepBegins(s: State, a: Action)
    requires Step(s, a).Some? && !(a.EnterRest? && !IsWait(ThreadOf(s, a.tid).pc.name))
    ensures OldBegins(s, Step(s, a).value)
  {
    hide CheckLevel, Clear, Pop, FinishEnter;
    if !a.Tick? { OtherStepsBeginNothing(s, a); }
  }

  lemma EnterBeginsOne(s: State, a: Action)
    requires a.EnterRest? && Step(s, a).Some? && !IsWait(ThreadOf(s, a.tid).pc.name)
    ensures var next, n := Step(s, a).value, |ThreadOf(s, a.tid).trace|;
            && BeginsAt(next, a.tid, n) && IdAt(next, a.tid, n) == a.id
            && forall tid, k :: BeginsAt(next, tid, k) && !(tid == a.tid && k == n) ==>
                 BeginsAt(s, tid, k) && IdAt(next, tid, k) == IdAt(s, tid, k)
  {
  }

  lemma SuppliesBefore(global: Level, actions: seq<Action>, n: nat, k: int)
    requires k < n <= |actions|
    ensures Supplies(global, actions[..n], k) == Supplies(global, actions, k)
  {
    if 0 <= k { assert actions[..n][..k] == actions[..k]; }
  }

  lemma {:induction false} EveryRunOwnsContexts(global: Level, actions: seq<Action>)
    requires Run(global, actions).Some? && DistinctContexts(global, actions)
    ensures OwnContexts(global, actions, Run(global, actions).value)
    decreases |actions|
  {
    if actions != [] {
      hide Step, BeginsAt, Supplies;
      var n := |actions| - 1;
      var before, a := actions[..n], actions[n];
      var s := Run(global, before).value;
      forall k | k < n ensures Supplies(global, before, k) == Supplies(global, actions, k) {
        SuppliesBefore(global, actions, n, k);
      }
      EarlierContexts(global, actions);
      EveryRunOwnsContexts(global, before);
      OneMoreAction(global, actions, s, Run(global, actions).value);
    } else {
      NothingBegun(global);
    }
  }

  lemma NothingBegun(global: Level)
    ensures OwnContexts(global, [], State(global, map[]))
  {
  }

  lemma EarlierContexts(global: Level, actions: seq<Action>)
    requires actions != [] && DistinctContexts(global, actions)
    ensures DistinctContexts(global, actions[..|actions| - 1])
  {
    hide Run;
    var n := |actions| - 1;
    forall i, k | i < k && Supplies(global, actions[..n], i) && Supplies(global, actions[..n], k)
      ensures actions[..n][i].id != actions[..n][k].id
    {
      SuppliesBefore(global, actions, n, i);
      SuppliesBefore(global, actions, n, k);
    }
  }

  lemma OneMoreAction(global: Level, actions: seq<Action>, s: State, next: State)
    requires actions != [] && DistinctContexts(global, actions)
    requires Run(global, actions[..|actions| - 1]) == Some(s) && Step(s, actions[|actions| - 1]) == Some(next)
    requires OwnContexts(global, actions[..|actions| - 1], s)
    ensures OwnContexts(global, actions, next)
  {
    hide Run, IsWait;
    var n := |actions| - 1;
    var a := actions[n];
    forall tid, k | BeginsAt(s, tid, k)
      ensures exists i :: i < n && Supplies(global, actions, i) && actions[i].id == IdAt(s, tid, k)
    {
      var i :| Supplies(global, actions[..n], i) && actions[..n][i].id == IdAt(s, tid, k);
      SuppliesBefore(global, actions, n, i);
    }
    if a.EnterRest? && !IsWait(ThreadOf(s, a.tid).pc.name) {
      assert Supplies(global, actions, n);
      EnterBeginsOne(s, a);
    } else {
      OtherStepsKeepBegins(s, a);
    }
  }

  // one thread's trace, when no context is begun twice

  ghost predicate BeginsOnce(trace: seq<Event>) {
    forall k, k' :: 0 <= k < k' < |trace| && trace[k].Begin? && trace[k'].Begin? ==>
      trace[k].zone.id != trace[k'].zone.id
  }

  ghost predicate IsBegin(trace: seq<Event>, k: int, z: Zone) { 0 <= k < |trace| && trace[k] == Begin(z) }

  ghost predicate IsEnd(trace: seq<Event>, k: int, z: Zone) { 0 <= k < |trace| && trace[k] == End(z) }

  /** Begins and ends match: an end follows the begin of its zone, comes once, and is missing
      exactly while the zone is open. */
  ghost predicate Matched(trace: seq<Event>, open: seq<Zone>) {
    && (forall k, z :: IsEnd(trace, k, z) ==> exists b :: b < k && IsBegin(trace, b, z))
    && (forall k, k', z :: IsEnd(trace, k, z) && IsEnd(trace, k', z) ==> k == k')
    && (forall z :: z in open ==> exists b :: IsBegin(trace, b, z))
    && (forall b, z :: IsBegin(trace, b, z) ==> (z in open <==> forall k :: !IsEnd(trace, k, z)))
    && (forall i, j :: 0 <= i < j < |open| ==> open[i] != open[j])
  }

  lemma {:induction false} ReadableIsMatched(trace: seq<Event>)
    requires ReadTrace(trace).Some? && BeginsOnce(trace)
    ensures Matched(trace, ReadTrace(trace).value.open)
    decreases |trace|
  {
    if trace != [] {
      var n := |trace| - 1;
      var before := trace[..n];
      assert forall k :: 0 <= k < n ==> before[k] == trace[k];
      ReadableIsMatched(before);
      OneMoreEvent(before, ReadTrace(before).value, trace[n]);
      assert trace == before + [trace[n]];
    }
  }

  lemma OneMoreEvent(trace: seq<Event>, r: Reading, e: Event)
    requires Matched(trace, r.open) && ReadEvent(r, e).Some? && BeginsOnce(trace + [e])
    ensures Matched(trace + [e], ReadEvent(r, e).value.open)
  {
    hide Matched, BeginsOnce;
    match e {
      case Begin(z) => MatchedBegin(trace, r.open, z);
      case End(z) =>
        assert r.open == r.open[..|r.open| - 1] + [z];
        MatchedEnd(trace, r.open[..|r.open| - 1], z);
      case Observed(l) => MatchedObserved(trace, r.open, l);
    }
  }

  lemma Snoc(trace: seq<Event>, e: Event, k: int, z: Zone)
    ensures IsEnd(trace + [e], k, z) <==> IsEnd(trace, k, z) || (k == |trace| && e == End(z))
    ensures IsBegin(trace + [e], k, z) <==> IsBegin(trace, k, z) || (k == |trace| && e == Begin(z))
  {
  }

  lemma MatchedObserved(trace: seq<Event>, open: seq<Zone>, l: Level)
    requires Matched(trace, open)
    ensures Matched(trace + [Observed(l)], open)
  {
    hide IsBegin, IsEnd;
    forall k, z { Snoc(trace, Observed(l), k, z); }
  }

  lemma MatchedBegin(trace: seq<Event>, open: seq<Zone>, z: Zone)
    requires Matched(trace, open) && BeginsOnce(trace + [Begin(z)])
    ensures Matched(trace + [Begin(z)], open + [z])
  {
    var n, longer, open' := |trace|, trace + [Begin(z)], open + [z];
    assert longer[n] == Begin(z);
    assert forall b :: 0 <= b < n ==> longer[b] == trace[b];
    assert forall b :: !IsBegin(trace, b, z);
    hide IsBegin, IsEnd, BeginsOnce;
    forall k, y { Snoc(trace, Begin(z), k, y); }
    assert z !in open;
    assert forall k :: !IsEnd(trace, k, z);
    forall y | y in open' ensures exists b :: IsBegin(longer, b, y) {
      if y == z {
        assert IsBegin(longer, n, z);
      } else {
        var b :| IsBegin(trace, b, y);
        assert IsBegin(longer, b, y);
      }
    }
    forall k, y | IsEnd(longer, k, y) ensures exists b :: b < k && IsBegin(longer, b, y) {
      var b :| b < k && IsBegin(trace, b, y);
      assert IsBegin(longer, b, y);
    }
    forall b, y | IsBegin(longer, b, y) ensures y in open' <==> forall k :: !IsEnd(longer, k, y) {
      assert y != z ==> IsBegin(trace, b, y);
    }
  }

  lemma MatchedEnd(trace: seq<Event>, open: seq<Zone>, z: Zone)
    requires Matched(trace, open + [z])
    ensures Matched(trace + [End(z)], open)
  {
    var n, longer, was := |trace|, trace + [End(z)], open + [z];
    assert was[|open|] == z;
    assert z in was;
    assert forall i :: 0 <= i < |open| ==> was[i] == open[i];
    var begun :| IsBegin(trace, begun, z);
    assert 0 <= begun < n;
    hide IsBegin, IsEnd;
    forall k, y { Snoc(trace, End(z), k, y); }
    assert z !in open && forall k :: !IsEnd(trace, k, z);
    assert IsEnd(longer, n, z);
    forall k, y | IsEnd(longer, k, y) ensures exists b :: b < k && IsBegin(longer, b, y) {
      if k == n {
        assert IsBegin(longer, begun, y);
      } else {
        var b :| b < k && IsBegin(trace, b, y);
        assert IsBegin(longer, b, y);
      }
    }
    forall b, y | IsBegin(longer, b, y) ensures y in open <==> forall k :: !IsEnd(longer, k, y) {
      assert IsBegin(trace, b, y);
      if y != z { assert y in open <==> y in was; }
    }
    forall y | y in open ensures exists b :: IsBegin(longer, b, y) {
      assert y in was;
      var b :| IsBegin(trace, b, y);
      assert IsBegin(longer, b, y);
    }
  }

  lemma ThreadBeginsOnce(global: Level, actions: seq<Action>, s: State, tid: nat)
    requires OwnContexts(global, actions, s) && tid in s.threads
    ensures BeginsOnce(s.threads[tid].trace)
  {
    hide Supplies;
    var trace := s.threads[tid].trace;
    forall k, k' | 0 <= k < k' < |trace| && trace[k].Begin? && trace[k'].Begin?
      ensures trace[k].zone.id != trace[k'].zone.id
    {
      assert BeginsAt(s, tid, k) && BeginsAt(s, tid, k');
    }
  }

  /** In every interleaving, over all threads: if the library hands out no context twice, each
      context begun is ended at most once, on the thread that began it, after its begin, under
      the same checked state, and exactly once when that thread has exited. */
  lemma EveryContextEndsOnce(global: Level, actions: seq<Action>, tid: nat, b: nat)
    requires Run(global, actions).Some? && DistinctContexts(global, actions)
    requires BeginsAt(Run(global, actions).value, tid, b)
    ensures var s := Run(global, actions).value; var id := IdAt(s, tid, b);
            && (forall tid', k: nat :: EndsAt(s, tid', k) && IdAt(s, tid', k) == id ==>
                  tid' == tid && b < k && s.threads[tid].trace[k].zone == s.threads[tid].trace[b].zone)
            && (forall k: nat, k': nat ::
                  EndsAt(s, tid, k) && EndsAt(s, tid, k') && IdAt(s, tid, k) == id == IdAt(s, tid, k') ==> k == k')
            && (s.threads[tid].pc.Exited? ==> exists k: nat :: EndsAt(s, tid, k) && IdAt(s, tid, k) == id)
  {
    hide Run, ReadTrace, Supplies, DistinctContexts;
    var s := Run(global, actions).value;
    EveryRunKeepsInv(global, actions);
    EveryRunOwnsContexts(global, actions);
    var id := IdAt(s, tid, b);
    forall tid', k: nat | EndsAt(s, tid', k) && IdAt(s, tid', k) == id
      ensures tid' == tid && b < k && s.threads[tid].trace[k].zone == s.threads[tid].trace[b].zone
    {
      var z := s.threads[tid'].trace[k].zone;
      var b' := BeginOfEnd(global, actions, s, tid', k);
      assert BeginsAt(s, tid', b');
    }
    var trace, zone := s.threads[tid].trace, s.threads[tid].trace[b].zone;
    ThreadBeginsOnce(global, actions, s, tid);
    ReadableIsMatched(trace);
    assert IsBegin(trace, b, zone);
    forall k: nat, k': nat | EndsAt(s, tid, k) && EndsAt(s, tid, k') && IdAt(s, tid, k) == id == IdAt(s, tid, k')
      ensures k == k'
    {
      assert IsEnd(trace, k, zone) && IsEnd(trace, k', zone);
    }
    if s.threads[tid].pc.Exited? {
      assert zone !in s.threads[tid].stack;
      var k :| IsEnd(trace, k, zone);
      assert EndsAt(s, tid, k);
    }
  }

  lemma BeginOfEnd(global: Level, actions: seq<Action>, s: State, tid: nat, k: nat) returns (b: nat)
    requires OwnContexts(global, actions, s) && Inv(s) && EndsAt(s, tid, k)
    ensures b < k && IsBegin(s.threads[tid].trace, b, s.threads[tid].trace[k].zone)
  {
    hide Supplies, ReadTrace;
    var trace := s.threads[tid].trace;
    ThreadBeginsOnce(global, actions, s, tid);
    assert ThreadInv(s.threads[tid]);
    ReadableIsMatched(trace);
    assert IsEnd(trace, k, trace[k].zone);
    b :| b < k && IsBegin(trace, b, trace[k].zone);
  }
}
