/** The worker stage of `init_offsets`: the main thread creates a slot per module and
    schedules a worker on it, the workers fill their slots, and a wait group holds the main
    thread back until all are done.  Any interleaving of their steps is a run. */
module InitOffsets {
  import opened Machine
  import opened Runs

  /** One loaded module: the base name of its file, its address range, and what its worker
      obtains from it without an exception. */
  datatype Task = Task(fname: string, modRange: DataRange, ranges: seq<DataRange>, vtables: seq<Vtable>)

  /** A worker appends ranges one by one, then inserts vtables one by one, then reports. */
  datatype Phase = Unscheduled | Pushing(n: nat) | Inserting(n: nat) | Finished

  /** The main thread at module `i`: about to record its range, to create either slot or to
      schedule; then waiting; then caching addresses. */
  datatype MainPc = Recording(i: nat) | EhSlot(i: nat) | VtSlot(i: nat) | Scheduling(i: nat) | Waiting | Caching

  datatype State = State(main: MainPc, cleaned: map<string, DataRange>, eh: map<string, seq<DataRange>>,
                         vt: map<string, Vtables>, phases: seq<Phase>, waitCount: int)

  datatype Actor = Main | Worker(k: nat)

  function Init(ms: seq<Task>): State {
    State(if ms == [] then Waiting else Recording(0), map[], map[], map[],
          seq(|ms|, _ => Unscheduled), |ms|)
  }

  // `operator[]` of a hash map creates a missing value
  function Slot<V>(m: map<string, V>, f: string, empty: V): map<string, V> {
    if f in m then m else m[f := empty]
  }

  function MainStep(ms: seq<Task>, s: State): Option<State> {
    match s.main
    case Recording(i) =>
      if i >= |ms| then None
      else Some(s.(main := EhSlot(i), cleaned := Slot(s.cleaned, ms[i].fname, ms[i].modRange)))
    case EhSlot(i) =>
      if i >= |ms| then None else Some(s.(main := VtSlot(i), eh := Slot(s.eh, ms[i].fname, [])))
    case VtSlot(i) =>
      if i >= |ms| then None else Some(s.(main := Scheduling(i), vt := Slot(s.vt, ms[i].fname, map[])))
    case Scheduling(i) =>
      if i >= |ms| || |s.phases| != |ms| then None
      else Some(s.(main := if i + 1 < |ms| then Recording(i + 1) else Waiting, phases := s.phases[i := Pushing(0)]))
    case Waiting =>
      if s.waitCount == 0 then Some(s.(main := Caching)) else None
    case Caching => None
  }

  function WorkerStep(ms: seq<Task>, s: State, k: nat): Option<State> {
    if k >= |ms| || |s.phases| != |ms| || ms[k].fname !in s.eh || ms[k].fname !in s.vt then None
    else
      var t := ms[k];
      match s.phases[k]
      case Unscheduled => None
      case Pushing(n) =>
        if n < |t.ranges| then
          Some(s.(eh := s.eh[t.fname := s.eh[t.fname] + [t.ranges[n]]], phases := s.phases[k := Pushing(n + 1)]))
        else Some(s.(phases := s.phases[k := Inserting(0)]))
      case Inserting(n) =>
        if n < |t.vtables| then
          Some(s.(vt := s.vt[t.fname := InsertNew(s.vt[t.fname], t.vtables[n])],
                  phases := s.phases[k := Inserting(n + 1)]))
        else Some(s.(phases := s.phases[k := Finished], waitCount := s.waitCount - 1))
      case Finished => None
  }

  function Step(ms: seq<Task>, s: State, a: Actor): Option<State> {
    match a
    case Main => MainStep(ms, s)
    case Worker(k) => WorkerStep(ms, s, k)
  }

  /** The state a schedule leads to, if every one of its steps can be taken. */
  function Exec(ms: seq<Task>, schedule: seq<Actor>): Option<State>
    decreases |schedule|
  {
    if schedule == [] then Some(Init(ms))
    else
      var before := Exec(ms, schedule[..|schedule| - 1]);
      if before.None? then None else Step(ms, before.value, schedule[|schedule| - 1])
  }

  // ------------------------------------------------------------ sequential processing

  datatype Outcome = Outcome(cleaned: map<string, DataRange>, eh: map<string, seq<DataRange>>, vt: map<string, Vtables>)

  /** One module more: its slots, then what its worker puts there. */
  function Process(o: Outcome, t: Task): Outcome {
    var eh, vt := Slot(o.eh, t.fname, []), Slot(o.vt, t.fname, map[]);
    Outcome(Slot(o.cleaned, t.fname, t.modRange),
            eh[t.fname := eh[t.fname] + t.ranges],
            vt[t.fname := InsertAll(vt[t.fname], t.vtables)])
  }

  /** One module after another. */
  function Sequential(ms: seq<Task>): Outcome {
    if ms == [] then Outcome(map[], map[], map[])
    else Process(Sequential(ms[..|ms| - 1]), ms[|ms| - 1])
  }

  predicate UniqueNames(ms: seq<Task>) {
    forall i, j :: 0 <= i < j < |ms| ==> ms[i].fname != ms[j].fname
  }

  // ------------------------------------------------------------- shape of the states

  function Unfinished(ps: seq<Phase>): nat {
    if ps == [] then 0 else Unfinished(ps[..|ps| - 1]) + (if ps[|ps| - 1].Finished? then 0 else 1)
  }

  // number of modules whose range is recorded, whose slots exist, which are scheduled
  function Recorded(ms: seq<Task>, pc: MainPc): nat {
    match pc
    case Recording(i) => i
    case EhSlot(i) => i + 1
    case VtSlot(i) => i + 1
    case Scheduling(i) => i + 1
    case Waiting => |ms|
    case Caching => |ms|
  }

  function EhSlots(ms: seq<Task>, pc: MainPc): nat {
    if pc.EhSlot? then pc.i else Recorded(ms, pc)
  }

  function VtSlots(ms: seq<Task>, pc: MainPc): nat {
    if pc.VtSlot? then pc.i else EhSlots(ms, pc)
  }

  function Scheduled(ms: seq<Task>, pc: MainPc): nat {
    if pc.Scheduling? then pc.i else VtSlots(ms, pc)
  }

  predicate PhaseOk(t: Task, p: Phase) {
    match p
    case Pushing(n) => n <= |t.ranges|
    case Inserting(n) => n <= |t.vtables|
    case _ => true
  }

  ghost predicate PhasesOk(ms: seq<Task>, s: State) {
    && |s.phases| == |ms|
    && (!s.main.Waiting? && !s.main.Caching? ==> s.main.i < |ms|)
    && forall k :: 0 <= k < |ms| ==>
         (s.phases[k].Unscheduled? <==> k >= Scheduled(ms, s.main)) && PhaseOk(ms[k], s.phases[k])
  }

  /** One of the first `n` modules has base name `f`. */
  ghost predicate Named(ms: seq<Task>, n: nat, f: string) {
    exists k :: 0 <= k < n && k < |ms| && ms[k].fname == f
  }

  /** The keys are the names of the first `n` modules. */
  ghost predicate KeysAre<V>(ms: seq<Task>, n: nat, m: map<string, V>) {
    forall f :: f in m <==> Named(ms, n, f)
  }

  /** The first module of each name keeps its range. */
  function FirstRanges(ms: seq<Task>, n: nat): map<string, DataRange>
    requires n <= |ms|
  {
    if n == 0 then map[] else Slot(FirstRanges(ms, n - 1), ms[n - 1].fname, ms[n - 1].modRange)
  }

  /** What holds in every run, whatever the modules are called. */
  ghost predicate Shape(ms: seq<Task>, s: State) {
    && PhasesOk(ms, s)
    && KeysAre(ms, EhSlots(ms, s.main), s.eh)
    && KeysAre(ms, VtSlots(ms, s.main), s.vt)
    && s.cleaned == FirstRanges(ms, Recorded(ms, s.main))
    && s.waitCount == Unfinished(s.phases)
    && (s.main.Caching? ==> s.waitCount == 0)
  }

  lemma SlotKeys<V>(ms: seq<Task>, n: nat, m: map<string, V>, empty: V)
    requires n < |ms| && KeysAre(ms, n, m)
    ensures KeysAre(ms, n + 1, Slot(m, ms[n].fname, empty))
  {
    forall f ensures f in Slot(m, ms[n].fname, empty) <==> Named(ms, n + 1, f) {
      if Named(ms, n, f) {
        var k :| 0 <= k < n && k < |ms| && ms[k].fname == f;
        assert k < n + 1;
      }
      if f == ms[n].fname { assert n < n + 1; }
    }
  }

  lemma {:induction false} UnfinishedUpdate(ps: seq<Phase>, k: nat, p: Phase)
    requires k < |ps|
    ensures Unfinished(ps[k := p])
            == Unfinished(ps) - (if ps[k].Finished? then 0 else 1) + (if p.Finished? then 0 else 1)
    decreases |ps|
  {
    var n := |ps| - 1;
    if k == n {
      assert ps[k := p][..n] == ps[..n];
    } else {
      UnfinishedUpdate(ps[..n], k, p);
      assert ps[k := p][..n] == ps[..n][k := p];
    }
  }

  lemma {:induction false} UnfinishedZero(ps: seq<Phase>)
    ensures Unfinished(ps) <= |ps|
    ensures Unfinished(ps) == 0 <==> forall k :: 0 <= k < |ps| ==> ps[k].Finished?
    ensures (forall k :: 0 <= k < |ps| ==> !ps[k].Finished?) ==> Unfinished(ps) == |ps|
    decreases |ps|
  {
    if ps != [] {
      var most, last := ps[..|ps| - 1], ps[|ps| - 1];
      UnfinishedZero(most);
      assert forall k :: 0 <= k < |most| ==> most[k] == ps[k];
      assert last == ps[|ps| - 1];
    }
  }

  lemma InitShape(ms: seq<Task>)
    ensures Shape(ms, Init(ms))
  {
    UnfinishedZero(Init(ms).phases);
  }

  lemma InRange(ms: seq<Task>, s: State)
    requires Shape(ms, s)
    ensures |s.phases| == |ms| && (!s.main.Waiting? && !s.main.Caching? ==> s.main.i < |ms|)
    ensures VtSlots(ms, s.main) <= EhSlots(ms, s.main) <= Recorded(ms, s.main) <= |ms|
  {
  }

  lemma MainKeepsShape(ms: seq<Task>, s: State)
    requires Shape(ms, s) && MainStep(ms, s).Some?
    ensures Shape(ms, MainStep(ms, s).value)
  {
    hide Shape, Slot;
    InRange(ms, s);
    match s.main {
      case Recording(i) => RecordingKeepsShape(ms, s, i);
      case EhSlot(i) => EhSlotKeepsShape(ms, s, i);
      case VtSlot(i) => VtSlotKeepsShape(ms, s, i);
      case Scheduling(i) => SchedulingKeepsShape(ms, s, i);
      case _ => WaitKeepsShape(ms, s);
    }
  }

  lemma RecordingKeepsShape(ms: seq<Task>, s: State, i: nat)
    requires Shape(ms, s) && s.main == Recording(i) && i < |ms|
    ensures Shape(ms, s.(main := EhSlot(i), cleaned := Slot(s.cleaned, ms[i].fname, ms[i].modRange)))
  {
    hide Slot, Unfinished, KeysAre, PhaseOk;
  }

  lemma EhSlotKeepsShape(ms: seq<Task>, s: State, i: nat)
    requires Shape(ms, s) && s.main == EhSlot(i) && i < |ms|
    ensures Shape(ms, s.(main := VtSlot(i), eh := Slot(s.eh, ms[i].fname, [])))
  {
    hide Slot, Unfinished, KeysAre, PhaseOk, FirstRanges;
    SlotKeys(ms, i, s.eh, []);
  }

  lemma VtSlotKeepsShape(ms: seq<Task>, s: State, i: nat)
    requires Shape(ms, s) && s.main == VtSlot(i) && i < |ms|
    ensures Shape(ms, s.(main := Scheduling(i), vt := Slot(s.vt, ms[i].fname, map[])))
  {
    hide Slot, Unfinished, KeysAre, PhaseOk, FirstRanges;
    SlotKeys(ms, i, s.vt, map[]);
  }

  lemma WaitKeepsShape(ms: seq<Task>, s: State)
    requires Shape(ms, s) && s.main.Waiting? && s.waitCount == 0
    ensures Shape(ms, s.(main := Caching))
  {
    hide Unfinished, KeysAre, PhaseOk, FirstRanges;
  }

  lemma SchedulingKeepsShape(ms: seq<Task>, s: State, i: nat)
    requires Shape(ms, s) && s.main == Scheduling(i) && i < |ms|
    ensures Shape(ms, s.(main := if i + 1 < |ms| then Recording(i + 1) else Waiting,
                         phases := s.phases[i := Pushing(0)]))
  {
    hide Slot, Unfinished, KeysAre, FirstRanges;
    UnfinishedUpdate(s.phases, i, Pushing(0));
  }

  /** A worker that can step: its module, its phase before and after, and its slots. */
  lemma WorkerKnows(ms: seq<Task>, s: State, k: nat)
    requires WorkerStep(ms, s, k).Some?
    ensures var next := WorkerStep(ms, s, k).value;
            && k < |ms| == |s.phases| && ms[k].fname in s.eh && ms[k].fname in s.vt
            && !s.phases[k].Unscheduled? && !s.phases[k].Finished?
            && next == s.(eh := next.eh, vt := next.vt, phases := s.phases[k := next.phases[k]],
                          waitCount := s.waitCount - (if next.phases[k].Finished? then 1 else 0))
            && next.eh.Keys == s.eh.Keys && next.vt.Keys == s.vt.Keys
            && (PhaseOk(ms[k], s.phases[k]) ==> PhaseOk(ms[k], next.phases[k])) && !next.phases[k].Unscheduled?
  {
  }

  lemma SameKeys<V>(ms: seq<Task>, n: nat, m: map<string, V>, m': map<string, V>)
    requires KeysAre(ms, n, m) && m'.Keys == m.Keys
    ensures KeysAre(ms, n, m')
  {
    assert forall f :: f in m' <==> f in m'.Keys;
  }

  lemma WorkerKeepsShape(ms: seq<Task>, s: State, k: nat)
    requires Shape(ms, s) && WorkerStep(ms, s, k).Some?
    ensures Shape(ms, WorkerStep(ms, s, k).value)
  {
    hide WorkerStep, Unfinished, KeysAre, FirstRanges, PhaseOk;
    var next := WorkerStep(ms, s, k).value;
    WorkerKnows(ms, s, k);
    UnfinishedUpdate(s.phases, k, next.phases[k]);
    UnfinishedZero(s.phases);
    SameKeys(ms, EhSlots(ms, s.main), s.eh, next.eh);
    SameKeys(ms, VtSlots(ms, s.main), s.vt, next.vt);
  }

  lemma StepKeepsShape(ms: seq<Task>, s: State, a: Actor)
    requires Shape(ms, s) && Step(ms, s, a).Some?
    ensures Shape(ms, Step(ms, s, a).value)
  {
    hide Shape;
    match a
    case Main => MainKeepsShape(ms, s);
    case Worker(k) => WorkerKeepsShape(ms, s, k);
  }

  /** In every interleaving, whatever the modules are called: the wait count is the number of
      unfinished tasks, the slots are those of the modules the main thread has got to, and the
      recorded ranges are those of the first module of each name. */
  lemma {:induction false} EveryRunKeepsShape(ms: seq<Task>, schedule: seq<Actor>)
    requires Exec(ms, schedule).Some?
    ensures Shape(ms, Exec(ms, schedule).value)
    decreases |schedule|
  {
    hide Shape, Step;
    if schedule == [] {
      InitShape(ms);
    } else {
      var before := schedule[..|schedule| - 1];
      EveryRunKeepsShape(ms, before);
      StepKeepsShape(ms, Exec(ms, before).value, schedule[|schedule| - 1]);
    }
  }

  lemma ExecSnoc(ms: seq<Task>, schedule: seq<Actor>, a: Actor)
    requires Exec(ms, schedule).Some?
    ensures Exec(ms, schedule + [a]) == Step(ms, Exec(ms, schedule).value, a)
  {
    assert (schedule + [a])[..|schedule|] == schedule;
  }

  // ------------------------------------------------------------ every run gets there

  function PhaseWork(t: Task, p: Phase): nat {
    match p
    case Unscheduled => |t.ranges| + |t.vtables| + 3
    case Pushing(n) => (if n <= |t.ranges| then |t.ranges| - n else 0) + |t.vtables| + 2
    case Inserting(n) => (if n <= |t.vtables| then |t.vtables| - n else 0) + 1
    case Finished => 0
  }

  function WorkLeft(ms: seq<Task>, ps: seq<Phase>): nat
    requires |ms| == |ps|
  {
    if ms == [] then 0
    else WorkLeft(ms[..|ms| - 1], ps[..|ps| - 1]) + PhaseWork(ms[|ms| - 1], ps[|ps| - 1])
  }

  function MainLeft(ms: seq<Task>, pc: MainPc): int {
    match pc
    case Recording(i) => 4 * (|ms| - i) + 1
    case EhSlot(i) => 4 * (|ms| - i)
    case VtSlot(i) => 4 * (|ms| - i) - 1
    case Scheduling(i) => 4 * (|ms| - i) - 2
    case Waiting => 1
    case Caching => 0
  }

  /** Steps that remain in any run from `s`. */
  function StepsLeft(ms: seq<Task>, s: State): int
    requires |s.phases| == |ms|
  {
    MainLeft(ms, s.main) + WorkLeft(ms, s.phases)
  }

  lemma {:induction false} WorkUpdate(ms: seq<Task>, ps: seq<Phase>, k: nat, p: Phase)
    requires |ms| == |ps| && k < |ps|
    ensures WorkLeft(ms, ps[k := p]) == WorkLeft(ms, ps) - PhaseWork(ms[k], ps[k]) + PhaseWork(ms[k], p)
    decreases |ps|
  {
    var n := |ps| - 1;
    if k == n {
      assert ps[k := p][..n] == ps[..n];
    } else {
      WorkUpdate(ms[..n], ps[..n], k, p);
      assert ps[k := p][..n] == ps[..n][k := p];
    }
  }

  lemma StepBringsNearer(ms: seq<Task>, s: State, a: Actor)
    requires Shape(ms, s) && Step(ms, s, a).Some?
    ensures var next := Step(ms, s, a).value; |next.phases| == |ms| && StepsLeft(ms, next) < StepsLeft(ms, s)
  {
    if a.Worker? {
      WorkerBringsNearer(ms, s, a.k);
    } else {
      MainBringsNearer(ms, s);
    }
  }

  lemma WorkerBringsNearer(ms: seq<Task>, s: State, k: nat)
    requires Shape(ms, s) && WorkerStep(ms, s, k).Some?
    ensures var next := WorkerStep(ms, s, k).value; |next.phases| == |ms| && StepsLeft(ms, next) < StepsLeft(ms, s)
  {
    hide KeysAre, WorkLeft, Unfinished, FirstRanges;
    WorkerKnows(ms, s, k);
    WorkUpdate(ms, s.phases, k, WorkerStep(ms, s, k).value.phases[k]);
  }

  lemma MainBringsNearer(ms: seq<Task>, s: State)
    requires Shape(ms, s) && MainStep(ms, s).Some?
    ensures var next := MainStep(ms, s).value; |next.phases| == |ms| && StepsLeft(ms, next) < StepsLeft(ms, s)
  {
    hide KeysAre, WorkLeft, Slot, Unfinished, FirstRanges;
    if s.main.Scheduling? {
      WorkUpdate(ms, s.phases, s.main.i, Pushing(0));
    }
  }

  lemma SomeStep(ms: seq<Task>, s: State) returns (a: Actor)
    requires Shape(ms, s) && !s.main.Caching?
    ensures Step(ms, s, a).Some?
  {
    hide Shape, WorkerStep, Slot;
    InRange(ms, s);
    if s.main.Waiting? && s.waitCount != 0 {
      var k := BusyWorker(ms, s);
      a := Worker(k);
    } else {
      a := Main;
    }
  }

  lemma BusyWorker(ms: seq<Task>, s: State) returns (k: nat)
    requires Shape(ms, s) && s.main.Waiting? && s.waitCount != 0
    ensures WorkerStep(ms, s, k).Some?
  {
    hide WorkerStep, Unfinished, FirstRanges;
    UnfinishedZero(s.phases);
    k :| 0 <= k < |s.phases| && !s.phases[k].Finished?;
    assert Named(ms, |ms|, ms[k].fname);
    CanStep(ms, s, k);
  }

  lemma CanStep(ms: seq<Task>, s: State, k: nat)
    requires k < |ms| == |s.phases| && ms[k].fname in s.eh && ms[k].fname in s.vt
    requires !s.phases[k].Unscheduled? && !s.phases[k].Finished?
    ensures WorkerStep(ms, s, k).Some?
  {
  }

  lemma StepsNonNegative(ms: seq<Task>, s: State)
    requires Shape(ms, s)
    ensures StepsLeft(ms, s) >= 0
  {
    hide KeysAre, WorkLeft, Unfinished, FirstRanges;
  }

  /** A run that has not passed the wait group can go on, and no schedule is longer than the
      work there is at the start: `wait` returns in every run that keeps going. */
  lemma {:induction false} RunsProgress(ms: seq<Task>, schedule: seq<Actor>)
    requires Exec(ms, schedule).Some?
    ensures var s := Exec(ms, schedule).value;
            && |s.phases| == |ms|
            && 0 <= |schedule| <= |schedule| + StepsLeft(ms, s) <= StepsLeft(ms, Init(ms))
            && (!s.main.Caching? ==> exists a :: Step(ms, s, a).Some?)
    decreases |schedule|
  {
    hide Shape, StepsLeft, Step;
    var s := Exec(ms, schedule).value;
    EveryRunKeepsShape(ms, schedule);
    InRange(ms, s);
    StepsNonNegative(ms, s);
    if schedule != [] {
      var before := schedule[..|schedule| - 1];
      RunsProgress(ms, before);
      EveryRunKeepsShape(ms, before);
      StepBringsNearer(ms, Exec(ms, before).value, schedule[|schedule| - 1]);
    }
    if !s.main.Caching? {
      var a := SomeStep(ms, s);
    }
  }
}
