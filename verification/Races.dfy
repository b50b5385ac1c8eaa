/** Data races of the worker stage: the workers share no lock, so two of them at one container,
    one writing, leave the program without a meaning in C++. */
module Races {
  import opened Machine
  import opened Runs
  import opened InitOffsets
  import opened Interleavings

  /** What a worker's next step does to one container. */
  datatype Access = NoAccess | Reading | Writing

  // push_back, or handing the vector over as a span
  function EhAccess(t: Task, p: Phase): Access {
    match p
    case Pushing(n) => if n < |t.ranges| then Writing else Reading
    case _ => NoAccess
  }

  // insertion into the hash map
  function VtAccess(t: Task, p: Phase): Access {
    match p
    case Inserting(n) => if n < |t.vtables| then Writing else NoAccess
    case _ => NoAccess
  }

  predicate Conflict(a: Access, b: Access) {
    (a.Writing? && !b.NoAccess?) || (b.Writing? && !a.NoAccess?)
  }

  /** Two workers of one name can both step, and their steps touch one container, at least one
      of them writing.  The main thread does not touch the containers before the wait returns:
      a slot it creates or finds stays where it is. */
  ghost predicate RaceBetween(ms: seq<Task>, s: State, i: nat, j: nat) {
    && i < |ms| && j < |ms| && i != j && ms[i].fname == ms[j].fname && |s.phases| == |ms|
    && WorkerStep(ms, s, i).Some? && WorkerStep(ms, s, j).Some?
    && (Conflict(EhAccess(ms[i], s.phases[i]), EhAccess(ms[j], s.phases[j])) ||
        Conflict(VtAccess(ms[i], s.phases[i]), VtAccess(ms[j], s.phases[j])))
  }

  ghost predicate Races(ms: seq<Task>, s: State) {
    exists i, j :: RaceBetween(ms, s, i, j)
  }

  ghost predicate RaceFree(ms: seq<Task>) {
    forall schedule :: Exec(ms, schedule).Some? ==> !Races(ms, Exec(ms, schedule).value)
  }

  /** Neither pushes a range, and at most one of them inserts vtables. */
  predicate Apart(a: Task, b: Task) {
    a.ranges == [] && b.ranges == [] && (a.vtables == [] || b.vtables == [])
  }

  predicate KeptApart(ms: seq<Task>) {
    forall i, j :: 0 <= i < j < |ms| && ms[i].fname == ms[j].fname ==> Apart(ms[i], ms[j])
  }

  lemma ApartDoesNotRace(ms: seq<Task>, s: State, i: nat, j: nat)
    requires KeptApart(ms)
    ensures !RaceBetween(ms, s, i, j)
  {
    hide WorkerStep;
    if i < |ms| && j < |ms| && i != j && ms[i].fname == ms[j].fname {
      if i < j { assert Apart(ms[i], ms[j]); } else { assert Apart(ms[j], ms[i]); }
    }
  }

  lemma ApartCommutes(ms: seq<Task>)
    requires KeptApart(ms)
    ensures Commuting(ms)
  {
    forall i, j | 0 <= i < j < |ms| && ms[i].fname == ms[j].fname ensures Commute(ms[i], ms[j]) {
      assert Apart(ms[i], ms[j]);
      EmptyTable(ms[i]);
      EmptyTable(ms[j]);
    }
  }

  lemma EmptyTable(t: Task)
    ensures t.vtables == [] ==> Table(t) == map[]
  {
  }

  lemma BothCanStep(ms: seq<Task>, s: State, k: nat)
    requires AllScheduled(ms, s, |ms|) && k < |ms|
    ensures |s.phases| == |ms| && s.phases[k] == Pushing(0) && WorkerStep(ms, s, k).Some?
  {
    CanStep(ms, s, k);
  }

  /** A pair of one name that is not kept apart reaches a race. */
  lemma SharedContainerRaces(ms: seq<Task>, i: nat, j: nat) returns (schedule: seq<Actor>)
    requires i < j < |ms| && ms[i].fname == ms[j].fname && !Apart(ms[i], ms[j])
    ensures Exec(ms, schedule).Some? && RaceBetween(ms, Exec(ms, schedule).value, i, j)
  {
    hide Exec, WorkerStep, AllScheduled;
    schedule := ScheduleAll(ms, |ms|);
    var s := Exec(ms, schedule).value;
    BothCanStep(ms, s, i);
    BothCanStep(ms, s, j);
    if ms[i].ranges == [] && ms[j].ranges == [] {
      var a, b := HandOver(ms, s, i), HandOver(ms, HandOver(ms, s, i), j);
      ExecSnoc(ms, schedule, Worker(i));
      ExecSnoc(ms, schedule + [Worker(i)], Worker(j));
      schedule := schedule + [Worker(i)] + [Worker(j)];
      HandsOver(ms, s, i);
      CanStep(ms, a, j);
      HandsOver(ms, a, j);
      CanStep(ms, b, i);
      CanStep(ms, b, j);
    }
  }

  // the step from the ranges to the vtables
  function HandOver(ms: seq<Task>, s: State, k: nat): State
    requires k < |s.phases|
  {
    s.(phases := s.phases[k := Inserting(0)])
  }

  lemma HandsOver(ms: seq<Task>, s: State, k: nat)
    requires k < |ms| == |s.phases| && ms[k].ranges == [] && s.phases[k] == Pushing(0)
    requires WorkerStep(ms, s, k).Some?
    ensures WorkerStep(ms, s, k) == Some(HandOver(ms, s, k)) && ms[k].fname in s.eh && ms[k].fname in s.vt
  {
  }

  /** No run has a race if and only if modules of one name are kept apart; and exactly then no
      run has a race and every run that passes the wait has the sequential outcome. */
  lemma DefinedExactlyWhenApart(ms: seq<Task>)
    ensures RaceFree(ms) <==> KeptApart(ms)
    ensures RaceFree(ms) && AlwaysAgrees(ms) <==> KeptApart(ms)
  {
    hide Exec, RaceBetween, Sequential, Apart;
    if KeptApart(ms) {
      forall schedule | Exec(ms, schedule).Some? ensures !Races(ms, Exec(ms, schedule).value) {
        forall i, j ensures !RaceBetween(ms, Exec(ms, schedule).value, i, j) {
          ApartDoesNotRace(ms, Exec(ms, schedule).value, i, j);
        }
      }
      ApartCommutes(ms);
      AgreesExactlyWhenCommuting(ms);
    } else {
      var i, j :| 0 <= i < j < |ms| && ms[i].fname == ms[j].fname && !Apart(ms[i], ms[j]);
      var schedule := SharedContainerRaces(ms, i, j);
      assert Races(ms, Exec(ms, schedule).value);
    }
  }

  /** Modules with names of their own never race. */
  lemma UniqueNamesNeverRace(ms: seq<Task>, schedule: seq<Actor>)
    requires UniqueNames(ms) && Exec(ms, schedule).Some?
    ensures !Races(ms, Exec(ms, schedule).value)
  {
    DefinedExactlyWhenApart(ms);
  }

  /** Commuting alone is not enough: two workers of one name with a vtable each, under different
      names, agree step by step in every order, yet reach a race. */
  lemma CommutingCanRace(r: DataRange, v: Vtable, w: Vtable)
    requires v.0 != w.0
    ensures var ms := [Task("a", r, [], [v]), Task("a", r, [], [w])]; Commuting(ms) && !RaceFree(ms)
  {
    var ms := [Task("a", r, [], [v]), Task("a", r, [], [w])];
    OneVtable(ms[0], v);
    OneVtable(ms[1], w);
    assert !Apart(ms[0], ms[1]);
    DefinedExactlyWhenApart(ms);
  }

  lemma OneVtable(t: Task, v: Vtable)
    requires t.vtables == [v]
    ensures Table(t) == map[v.0 := v.1]
  {
    assert t.vtables[1..] == [] && t.vtables[0] == v;
    assert InsertAll(map[], t.vtables) == InsertAll(InsertNew(map[], v), []);
  }
}
