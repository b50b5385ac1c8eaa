/** What the worker stage leaves behind: exactly when every interleaving of the workers agrees
    with processing the modules one after another.  Each access to a container is one step here;
    module Races says when that is so of the program. */
module Interleavings {
  import opened Machine
  import opened Runs
  import opened InitOffsets

  // ------------------------------------------------------------- what workers have done

  function Pushed(t: Task, p: Phase): seq<DataRange> {
    match p
    case Unscheduled => []
    case Pushing(n) => if n <= |t.ranges| then t.ranges[..n] else []
    case Inserting(_) => t.ranges
    case Finished => t.ranges
  }

  function Inserted(t: Task, p: Phase): Vtables {
    match p
    case Unscheduled => map[]
    case Pushing(_) => map[]
    case Inserting(n) => if n <= |t.vtables| then InsertAll(map[], t.vtables[..n]) else map[]
    case Finished => Table(t)
  }

  /** A module's own table: the first vtable of each name. */
  function Table(t: Task): Vtables { InsertAll(map[], t.vtables) }

  /** The ranges pushed by the first `n` modules of name `f`, in module order. */
  function EhOf(ms: seq<Task>, ps: seq<Phase>, f: string, n: nat): seq<DataRange>
    requires n <= |ms| == |ps|
  {
    if n == 0 then []
    else EhOf(ms, ps, f, n - 1) + (if ms[n - 1].fname == f then Pushed(ms[n - 1], ps[n - 1]) else [])
  }

  /** The vtables inserted by the first `n` modules of name `f`, earlier modules' first. */
  function VtOf(ms: seq<Task>, ps: seq<Phase>, f: string, n: nat): Vtables
    requires n <= |ms| == |ps|
  {
    if n == 0 then map[]
    else Merge(VtOf(ms, ps, f, n - 1), if ms[n - 1].fname == f then Inserted(ms[n - 1], ps[n - 1]) else map[])
  }

  // a name in both keeps its value in `a`
  function Merge(a: Vtables, b: Vtables): Vtables { b + a }

  // -------------------------------------------------------------- which modules commute

  predicate AllEqual(rs: seq<DataRange>) {
    forall i, j :: 0 <= i < j < |rs| ==> rs[i] == rs[j]
  }

  predicate SameWhereCommon(a: Vtables, b: Vtables) {
    forall name :: name in a && name in b ==> a[name] == b[name]
  }

  /** The order of two workers cannot be seen in the slots they share: one of them pushes no
      range or both push one and the same, and no name has two different vtables. */
  predicate Commute(a: Task, b: Task) {
    && (a.ranges == [] || b.ranges == [] || AllEqual(a.ranges + b.ranges))
    && SameWhereCommon(Table(a), Table(b))
  }

  predicate Commuting(ms: seq<Task>) {
    forall i, j :: 0 <= i < j < |ms| && ms[i].fname == ms[j].fname ==> Commute(ms[i], ms[j])
  }

  ghost predicate AlwaysAgrees(ms: seq<Task>) {
    forall schedule :: Exec(ms, schedule).Some? && Exec(ms, schedule).value.main.Caching? ==>
      OutcomeOf(Exec(ms, schedule).value) == Sequential(ms)
  }

  function OutcomeOf(s: State): Outcome { Outcome(s.cleaned, s.eh, s.vt) }

  // ------------------------------------------------ commuting modules: slots stay in order

  /** Every slot holds what its modules have done so far, as if in module order. */
  ghost predicate InOrder(ms: seq<Task>, s: State) {
    && |s.phases| == |ms|
    && (forall f :: f in s.eh ==> s.eh[f] == EhOf(ms, s.phases, f, |ms|))
    && (forall f :: f in s.vt ==> s.vt[f] == VtOf(ms, s.phases, f, |ms|))
  }

  lemma {:induction false} NothingDone(ms: seq<Task>, ps: seq<Phase>, f: string, n: nat)
    requires n <= |ms| == |ps|
    requires forall k :: 0 <= k < n && ms[k].fname == f ==> ps[k].Unscheduled?
    ensures EhOf(ms, ps, f, n) == [] && VtOf(ms, ps, f, n) == map[]
  {
    if n > 0 { NothingDone(ms, ps, f, n - 1); }
  }

  /** A change of phase that does nothing, or happens under another name, changes nothing. */
  lemma {:induction false} SameContents(ms: seq<Task>, ps: seq<Phase>, k: nat, p: Phase, f: string, n: nat)
    requires n <= |ms| == |ps| && k < |ms|
    requires ms[k].fname == f ==> Pushed(ms[k], p) == Pushed(ms[k], ps[k]) || k >= n
    requires ms[k].fname == f ==> Inserted(ms[k], p) == Inserted(ms[k], ps[k]) || k >= n
    ensures EhOf(ms, ps[k := p], f, n) == EhOf(ms, ps, f, n)
    ensures VtOf(ms, ps[k := p], f, n) == VtOf(ms, ps, f, n)
  {
    if n > 0 { SameContents(ms, ps, k, p, f, n - 1); }
  }

  lemma {:induction false} SameRanges(ms: seq<Task>, ps: seq<Phase>, k: nat, p: Phase, f: string, n: nat)
    requires n <= |ms| == |ps| && k < |ms| && Pushed(ms[k], p) == Pushed(ms[k], ps[k])
    ensures EhOf(ms, ps[k := p], f, n) == EhOf(ms, ps, f, n)
  {
    if n > 0 { SameRanges(ms, ps, k, p, f, n - 1); }
  }

  lemma {:induction false} SameTables(ms: seq<Task>, ps: seq<Phase>, k: nat, p: Phase, f: string, n: nat)
    requires n <= |ms| == |ps| && k < |ms| && Inserted(ms[k], p) == Inserted(ms[k], ps[k])
    ensures VtOf(ms, ps[k := p], f, n) == VtOf(ms, ps, f, n)
  {
    if n > 0 { SameTables(ms, ps, k, p, f, n - 1); }
  }

  lemma PushedWithin(t: Task, p: Phase)
    ensures Pushed(t, p) <= t.ranges
  {
  }

  lemma SwapEqual(a: Task, b: Task, x: DataRange, p: Phase)
    requires Commute(a, b) && x in a.ranges
    ensures Pushed(b, p) + [x] == [x] + Pushed(b, p)
  {
    var y := Pushed(b, p);
    PushedWithin(b, p);
    if y != [] {
      var i :| 0 <= i < |a.ranges| && a.ranges[i] == x;
      forall q | 0 <= q < |y| ensures y[q] == x {
        assert (a.ranges + b.ranges)[i] == x && (a.ranges + b.ranges)[|a.ranges| + q] == y[q];
      }
    }
  }

  /** Pushing one more range appends it to the slot's contents in module order, although
      later modules have pushed before. */
  lemma {:induction false} PushAppends(ms: seq<Task>, ps: seq<Phase>, k: nat, p: Phase, x: DataRange, n: nat)
    requires Commuting(ms) && |ms| == |ps| && k < n <= |ms|
    requires Pushed(ms[k], p) == Pushed(ms[k], ps[k]) + [x] && x in ms[k].ranges
    ensures EhOf(ms, ps[k := p], ms[k].fname, n) == EhOf(ms, ps, ms[k].fname, n) + [x]
  {
    hide Pushed, Commute;
    var f := ms[k].fname;
    var before := EhOf(ms, ps, f, n - 1);
    if n == k + 1 {
      SameContents(ms, ps, k, p, f, k);
      AppendAssociates(before, Pushed(ms[k], ps[k]), [x]);
    } else {
      PushAppends(ms, ps, k, p, x, n - 1);
      if ms[n - 1].fname == f {
        var y := Pushed(ms[n - 1], ps[n - 1]);
        SwapEqual(ms[k], ms[n - 1], x, ps[n - 1]);
        AppendAssociates(before, [x], y);
        AppendAssociates(before, y, [x]);
      }
    }
  }

  // -------------------------------------------------------------------- tables

  lemma {:induction false} InsertAllSnoc(vs: Vtables, items: seq<Vtable>, n: nat)
    requires n < |items|
    ensures InsertAll(vs, items[..n + 1]) == InsertNew(InsertAll(vs, items[..n]), items[n])
    decreases n
  {
    if n == 0 {
      assert items[..1][1..] == [];
    } else {
      InsertAllSnoc(InsertNew(vs, items[0]), items[1..], n - 1);
      assert items[..n + 1][1..] == items[1..][..n] && items[..n][1..] == items[1..][..n - 1];
    }
  }

  predicate Within(a: Vtables, b: Vtables) {
    forall name :: name in a ==> name in b && b[name] == a[name]
  }

  lemma {:induction false} TableGrows(items: seq<Vtable>, n: nat)
    requires n <= |items|
    ensures Within(InsertAll(map[], items[..n]), InsertAll(map[], items))
    decreases |items| - n
  {
    hide InsertAll;
    if n == |items| {
      assert items[..n] == items;
    } else {
      InsertAllSnoc(map[], items, n);
      TableGrows(items, n + 1);
    }
  }

  lemma InsertedWithin(t: Task, p: Phase)
    ensures Within(Inserted(t, p), Table(t))
  {
    hide InsertAll;
    if p.Inserting? && p.n <= |t.vtables| { TableGrows(t.vtables, p.n); }
  }

  lemma {:induction false} InsertAllMerges(vs: Vtables, items: seq<Vtable>, n: nat)
    requires n <= |items|
    ensures InsertAll(vs, items[..n]) == Merge(vs, InsertAll(map[], items[..n]))
  {
    if n > 0 {
      hide InsertAll;
      InsertAllMerges(vs, items, n - 1);
      InsertAllSnoc(vs, items, n - 1);
      InsertAllSnoc(map[], items, n - 1);
    }
  }

  lemma {:induction false} VtOfContains(ms: seq<Task>, ps: seq<Phase>, k: nat, n: nat)
    requires |ms| == |ps| && k < n <= |ms|
    ensures Inserted(ms[k], ps[k]).Keys <= VtOf(ms, ps, ms[k].fname, n).Keys
  {
    hide Inserted;
    if n > k + 1 { VtOfContains(ms, ps, k, n - 1); }
  }

  /** What inserting does to a merge: nothing to a name either side has already, unless only
      the later side has it with another value. */
  lemma MergeInsert(a: Vtables, b: Vtables, v: Vtable)
    requires v.0 in a || v.0 !in b || b[v.0] == v.1
    ensures Merge(InsertNew(a, v), b) == InsertNew(Merge(a, b), v)
  {
  }

  lemma MergeInsertLater(a: Vtables, b: Vtables, v: Vtable)
    ensures Merge(a, InsertNew(b, v)) == InsertNew(Merge(a, b), v)
  {
  }

  /** Inserting one more vtable inserts it into the slot's contents in module order, although
      later modules have inserted before. */
  lemma {:induction false} InsertInserts(ms: seq<Task>, ps: seq<Phase>, k: nat, p: Phase, v: Vtable, n: nat)
    requires Commuting(ms) && |ms| == |ps| && k < n <= |ms|
    requires Inserted(ms[k], p) == InsertNew(Inserted(ms[k], ps[k]), v)
    requires v.0 !in Inserted(ms[k], ps[k]) ==> v.0 in Table(ms[k]) && Table(ms[k])[v.0] == v.1
    ensures VtOf(ms, ps[k := p], ms[k].fname, n) == InsertNew(VtOf(ms, ps, ms[k].fname, n), v)
  {
    hide Inserted, Table, InsertAll, Merge, InsertNew;
    var f := ms[k].fname;
    var before := VtOf(ms, ps, f, n - 1);
    if n == k + 1 {
      SameContents(ms, ps, k, p, f, k);
      MergeInsertLater(before, Inserted(ms[k], ps[k]), v);
    } else {
      InsertInserts(ms, ps, k, p, v, n - 1);
      VtOfContains(ms, ps, k, n - 1);
      if ms[n - 1].fname == f {
        var later := Inserted(ms[n - 1], ps[n - 1]);
        InsertedWithin(ms[n - 1], ps[n - 1]);
        assert SameWhereCommon(Table(ms[k]), Table(ms[n - 1]));
        MergeInsert(before, later, v);
      } else {
        MergeInsert(before, map[], v);
      }
    }
  }

  // ----------------------------------------------------------------- steps keep order

  lemma MainKeepsOrder(ms: seq<Task>, s: State)
    requires Shape(ms, s) && InOrder(ms, s) && MainStep(ms, s).Some?
    ensures InOrder(ms, MainStep(ms, s).value)
  {
    hide KeysAre, FirstRanges, Unfinished, EhOf, VtOf, Pushed, Inserted;
    match s.main {
      case EhSlot(i) =>
        if ms[i].fname !in s.eh { NotYetScheduled(ms, s, EhSlots(ms, s.main), s.eh, ms[i].fname); }
      case VtSlot(i) =>
        if ms[i].fname !in s.vt { NotYetScheduled(ms, s, VtSlots(ms, s.main), s.vt, ms[i].fname); }
      case Scheduling(i) =>
        assert s.phases[i].Unscheduled?;
        NothingOnScheduling(ms[i]);
        forall f ensures EhOf(ms, s.phases[i := Pushing(0)], f, |ms|) == EhOf(ms, s.phases, f, |ms|)
                         && VtOf(ms, s.phases[i := Pushing(0)], f, |ms|) == VtOf(ms, s.phases, f, |ms|) {
          SameContents(ms, s.phases, i, Pushing(0), f, |ms|);
        }
      case _ =>
    }
  }

  lemma NothingOnScheduling(t: Task)
    ensures Pushed(t, Pushing(0)) == Pushed(t, Unscheduled) && Inserted(t, Pushing(0)) == Inserted(t, Unscheduled)
  {
  }

  lemma NotYetScheduled<V>(ms: seq<Task>, s: State, n: nat, m: map<string, V>, f: string)
    requires PhasesOk(ms, s) && Scheduled(ms, s.main) <= n && KeysAre(ms, n, m) && f !in m
    ensures EhOf(ms, s.phases, f, |ms|) == [] && VtOf(ms, s.phases, f, |ms|) == map[]
  {
    forall k | 0 <= k < |ms| && ms[k].fname == f ensures s.phases[k].Unscheduled? {
      assert !Named(ms, n, f);
    }
    NothingDone(ms, s.phases, f, |ms|);
  }

  lemma WorkerKeepsOrder(ms: seq<Task>, s: State, k: nat)
    requires Commuting(ms) && Shape(ms, s) && InOrder(ms, s) && WorkerStep(ms, s, k).Some?
    ensures InOrder(ms, WorkerStep(ms, s, k).value)
  {
    hide Shape, Commuting, EhOf, VtOf, Pushed, Inserted;
    InRange(ms, s);
    WorkerKnows(ms, s, k);
    PhaseInRange(ms, s, k);
    var t, next := ms[k], WorkerStep(ms, s, k).value;
    var p := next.phases[k];
    PhaseEffects(t, s.phases[k], p);
    forall f | f != t.fname
      ensures EhOf(ms, next.phases, f, |ms|) == EhOf(ms, s.phases, f, |ms|)
      ensures VtOf(ms, next.phases, f, |ms|) == VtOf(ms, s.phases, f, |ms|)
    {
      SameContents(ms, s.phases, k, p, f, |ms|);
    }
    match s.phases[k] {
      case Pushing(n) =>
        SameTables(ms, s.phases, k, p, t.fname, |ms|);
        if n < |t.ranges| {
          PushAppends(ms, s.phases, k, p, t.ranges[n], |ms|);
        } else {
          SameRanges(ms, s.phases, k, p, t.fname, |ms|);
        }
      case Inserting(n) =>
        SameRanges(ms, s.phases, k, p, t.fname, |ms|);
        if n < |t.vtables| {
          InsertInserts(ms, s.phases, k, p, t.vtables[n], |ms|);
        } else {
          SameTables(ms, s.phases, k, p, t.fname, |ms|);
        }
    }
  }

  lemma PhaseInRange(ms: seq<Task>, s: State, k: nat)
    requires Shape(ms, s) && k < |ms|
    ensures PhaseOk(ms[k], s.phases[k])
  {
  }

  /** What one worker step adds to the module's own ranges and table. */
  lemma PhaseEffects(t: Task, p: Phase, p': Phase)
    requires PhaseOk(t, p)
    requires match p
             case Pushing(n) => p' == if n < |t.ranges| then Pushing(n + 1) else Inserting(0)
             case Inserting(n) => p' == if n < |t.vtables| then Inserting(n + 1) else Finished
             case _ => false
    ensures if p.Pushing? && p.n < |t.ranges| then
              t.ranges[p.n] in t.ranges && Pushed(t, p') == Pushed(t, p) + [t.ranges[p.n]]
            else Pushed(t, p') == Pushed(t, p)
    ensures if p.Inserting? && p.n < |t.vtables| then
              && Inserted(t, p') == InsertNew(Inserted(t, p), t.vtables[p.n])
              && var v := t.vtables[p.n]; v.0 !in Inserted(t, p) ==> v.0 in Table(t) && Table(t)[v.0] == v.1
            else Inserted(t, p') == Inserted(t, p)
  {
    if p.Inserting? && p.n < |t.vtables| {
      InsertAllSnoc(map[], t.vtables, p.n);
      TableGrows(t.vtables, p.n + 1);
    } else if p.Inserting? {
      assert t.vtables[..p.n] == t.vtables;
    } else if p.n < |t.ranges| {
      assert t.ranges[..p.n + 1] == t.ranges[..p.n] + [t.ranges[p.n]];
    } else {
      assert t.ranges[..p.n] == t.ranges;
      assert t.vtables[..0] == [];
    }
  }

  /** In every interleaving of modules that commute where they share a name, each slot holds
      what its modules have done so far, as if they had taken turns in module order. */
  lemma {:induction false} EveryRunInOrder(ms: seq<Task>, schedule: seq<Actor>)
    requires Commuting(ms) && Exec(ms, schedule).Some?
    ensures InOrder(ms, Exec(ms, schedule).value)
    decreases |schedule|
  {
    hide InOrder, Commuting, MainStep, WorkerStep;
    if schedule == [] {
      NothingAtFirst(ms);
    } else {
      var before := schedule[..|schedule| - 1];
      EveryRunInOrder(ms, before);
      EveryRunKeepsShape(ms, before);
      match schedule[|schedule| - 1]
      case Main => MainKeepsOrder(ms, Exec(ms, before).value);
      case Worker(k) => WorkerKeepsOrder(ms, Exec(ms, before).value, k);
    }
  }

  lemma NothingAtFirst(ms: seq<Task>)
    ensures InOrder(ms, Init(ms))
  {
  }

  // ------------------------------------------------------- agreement with one-by-one

  ghost predicate AllFinished(ms: seq<Task>, ps: seq<Phase>) {
    |ps| == |ms| && forall k :: 0 <= k < |ps| ==> ps[k].Finished?
  }

  lemma {:induction false} NothingUnnamed(ms: seq<Task>, ps: seq<Phase>, f: string, n: nat)
    requires n <= |ms| == |ps| && !Named(ms, n, f)
    ensures EhOf(ms, ps, f, n) == [] && VtOf(ms, ps, f, n) == map[]
  {
    if n > 0 {
      hide Pushed, Inserted, Named;
      NamedOneMore(ms, n, f);
      NothingUnnamed(ms, ps, f, n - 1);
    }
  }

  /** Sequential processing, slot by slot. */
  ghost predicate SlotsAsOf(ms: seq<Task>, ps: seq<Phase>, n: nat, f: string, o: Outcome)
    requires n <= |ms| == |ps|
  {
    && o.cleaned == FirstRanges(ms, n)
    && (f in o.eh <==> Named(ms, n, f)) && (f in o.vt <==> Named(ms, n, f))
    && (f in o.eh ==> o.eh[f] == EhOf(ms, ps, f, n))
    && (f in o.vt ==> o.vt[f] == VtOf(ms, ps, f, n))
  }

  lemma {:induction false} SequentialSlots(ms: seq<Task>, ps: seq<Phase>, n: nat, f: string)
    requires n <= |ms| && AllFinished(ms, ps)
    ensures SlotsAsOf(ms, ps, n, f, Sequential(ms[..n]))
  {
    if n > 0 {
      hide SlotsAsOf, Sequential;
      SequentialSlots(ms, ps, n - 1, f);
      SequentialSnoc(ms, n);
      OneMoreModule(ms, ps, n, f, Sequential(ms[..n - 1]));
    }
  }

  lemma SequentialSnoc(ms: seq<Task>, n: nat)
    requires 0 < n <= |ms|
    ensures Sequential(ms[..n]) == Process(Sequential(ms[..n - 1]), ms[n - 1])
  {
    assert ms[..n][..n - 1] == ms[..n - 1];
  }

  lemma OneMoreModule(ms: seq<Task>, ps: seq<Phase>, n: nat, f: string, o: Outcome)
    requires 0 < n <= |ms| && AllFinished(ms, ps) && SlotsAsOf(ms, ps, n - 1, f, o)
    ensures SlotsAsOf(ms, ps, n, f, Process(o, ms[n - 1]))
  {
    hide Named, InsertAll, Merge;
    var t := ms[n - 1];
    NamedOneMore(ms, n, f);
    if !Named(ms, n - 1, f) { NothingUnnamed(ms, ps, f, n - 1); }
    MergeNothing(VtOf(ms, ps, f, n - 1));
    assert t.vtables[..|t.vtables|] == t.vtables;
    InsertAllMerges(VtOf(ms, ps, f, n - 1), t.vtables, |t.vtables|);
  }

  lemma MergeNothing(a: Vtables)
    ensures Merge(a, map[]) == a && Merge(map[], a) == a
  {
  }

  lemma NamedOneMore(ms: seq<Task>, n: nat, f: string)
    requires 0 < n <= |ms|
    ensures Named(ms, n, f) <==> Named(ms, n - 1, f) || ms[n - 1].fname == f
  {
    if Named(ms, n - 1, f) {
      var k :| 0 <= k < n - 1 && k < |ms| && ms[k].fname == f;
      assert 0 <= k < n;
    }
    if ms[n - 1].fname == f { assert 0 <= n - 1 < n; }
  }

  lemma SameMaps<V>(m: map<string, V>, w: map<string, V>)
    requires forall f :: (f in m <==> f in w) && (f in m ==> m[f] == w[f])
    ensures m == w
  {
    assert m.Keys == w.Keys;
  }

  lemma CommutingAgrees(ms: seq<Task>, schedule: seq<Actor>)
    requires Commuting(ms) && Exec(ms, schedule).Some? && Exec(ms, schedule).value.main.Caching?
    ensures OutcomeOf(Exec(ms, schedule).value) == Sequential(ms)
  {
    hide Exec, Sequential, EhOf, VtOf, FirstRanges, Commuting, Named;
    var s, o := Exec(ms, schedule).value, Sequential(ms);
    EveryRunKeepsShape(ms, schedule);
    EveryRunInOrder(ms, schedule);
    UnfinishedZero(s.phases);
    assert ms[..|ms|] == ms;
    SequentialSlots(ms, s.phases, |ms|, "");
    forall f ensures (f in s.eh <==> f in o.eh) && (f in s.eh ==> s.eh[f] == o.eh[f])
                     && (f in s.vt <==> f in o.vt) && (f in s.vt ==> s.vt[f] == o.vt[f]) {
      SequentialSlots(ms, s.phases, |ms|, f);
    }
    SameMaps(s.eh, o.eh);
    SameMaps(s.vt, o.vt);
  }

  /** Whatever the interleaving, when the main thread gets past the wait group, before it
      caches any address, every range and every vtable is what processing the modules one
      after another yields. */
  lemma WaitReturnsSequentialOutcome(ms: seq<Task>, schedule: seq<Actor>)
    requires UniqueNames(ms) && Exec(ms, schedule).Some? && Exec(ms, schedule).value.main.Caching?
    ensures var s := Exec(ms, schedule).value; Outcome(s.cleaned, s.eh, s.vt) == Sequential(ms)
  {
    CommutingAgrees(ms, schedule);
  }

  /** A name of one module only: its slots hold that module's own progress. */
  lemma {:induction false} OwnSlots(ms: seq<Task>, ps: seq<Phase>, k: nat, n: nat)
    requires UniqueNames(ms) && |ms| == |ps| && k < |ms| && n <= |ms|
    ensures EhOf(ms, ps, ms[k].fname, n) == if k < n then Pushed(ms[k], ps[k]) else []
    ensures VtOf(ms, ps, ms[k].fname, n) == if k < n then Inserted(ms[k], ps[k]) else map[]
  {
    hide Pushed, Inserted, UniqueNames, Merge, EhOf, VtOf;
    SlotsUnfold(ms, ps, ms[k].fname, n);
    if n > 0 {
      OwnSlots(ms, ps, k, n - 1);
      NameOfOne(ms, k, n - 1);
      MergeNothing(Inserted(ms[k], ps[k]));
      MergeNothing(map[]);
    }
  }

  lemma SlotsUnfold(ms: seq<Task>, ps: seq<Phase>, f: string, n: nat)
    requires n <= |ms| == |ps|
    ensures n == 0 ==> EhOf(ms, ps, f, n) == [] && VtOf(ms, ps, f, n) == map[]
    ensures n > 0 && ms[n - 1].fname == f ==>
              && EhOf(ms, ps, f, n) == EhOf(ms, ps, f, n - 1) + Pushed(ms[n - 1], ps[n - 1])
              && VtOf(ms, ps, f, n) == Merge(VtOf(ms, ps, f, n - 1), Inserted(ms[n - 1], ps[n - 1]))
    ensures n > 0 && ms[n - 1].fname != f ==>
              && EhOf(ms, ps, f, n) == EhOf(ms, ps, f, n - 1)
              && VtOf(ms, ps, f, n) == Merge(VtOf(ms, ps, f, n - 1), map[])
  {
    hide Pushed, Inserted, Merge;
  }

  lemma NameOfOne(ms: seq<Task>, i: nat, j: nat)
    requires UniqueNames(ms) && i < |ms| && j < |ms|
    ensures ms[i].fname == ms[j].fname <==> i == j
  {
  }

  /** In every interleaving of modules with names of their own, each slot holds what its own
      worker has produced so far. */
  lemma EveryWorkerOwnsItsSlots(ms: seq<Task>, schedule: seq<Actor>, k: nat)
    requires UniqueNames(ms) && Exec(ms, schedule).Some? && k < |ms|
    ensures var s := Exec(ms, schedule).value;
            && |s.phases| == |ms|
            && (k < EhSlots(ms, s.main) ==> ms[k].fname in s.eh && s.eh[ms[k].fname] == Pushed(ms[k], s.phases[k]))
            && (k < VtSlots(ms, s.main) ==> ms[k].fname in s.vt && s.vt[ms[k].fname] == Inserted(ms[k], s.phases[k]))
  {
    hide Exec, EhOf, VtOf, Pushed, Inserted;
    var s := Exec(ms, schedule).value;
    EveryRunKeepsShape(ms, schedule);
    EveryRunInOrder(ms, schedule);
    OwnSlots(ms, s.phases, k, |ms|);
    assert k < EhSlots(ms, s.main) ==> Named(ms, EhSlots(ms, s.main), ms[k].fname);
    assert k < VtSlots(ms, s.main) ==> Named(ms, VtSlots(ms, s.main), ms[k].fname);
  }

  lemma {:induction false} FirstRangeKept(ms: seq<Task>, n: nat, k: nat)
    requires k < n <= |ms| && forall i :: 0 <= i < k ==> ms[i].fname != ms[k].fname
    ensures ms[k].fname in FirstRanges(ms, n) && FirstRanges(ms, n)[ms[k].fname] == ms[k].modRange
  {
    if n > k + 1 {
      FirstRangeKept(ms, n - 1, k);
    } else {
      NoRangeYet(ms, k, ms[k].fname);
    }
  }

  lemma {:induction false} NoRangeYet(ms: seq<Task>, n: nat, f: string)
    requires n <= |ms| && forall i :: 0 <= i < n ==> ms[i].fname != f
    ensures f !in FirstRanges(ms, n)
  {
    if n > 0 { NoRangeYet(ms, n - 1, f); }
  }

  /** What one-by-one processing of modules with names of their own leaves behind: the names as
      keys, each module's range, all its ranges, and the first of its vtables under each name. */
  lemma SequentialMeaning(ms: seq<Task>, k: nat)
    requires UniqueNames(ms) && k < |ms|
    ensures var o, t := Sequential(ms), ms[k];
            && t.fname in o.cleaned && o.cleaned[t.fname] == t.modRange
            && t.fname in o.eh && o.eh[t.fname] == t.ranges
            && t.fname in o.vt
            && (forall name :: name in o.vt[t.fname] <==> exists i :: 0 <= i < |t.vtables| && t.vtables[i].0 == name)
            && forall i :: 0 <= i < |t.vtables| && (forall j :: 0 <= j < i ==> t.vtables[j].0 != t.vtables[i].0) ==>
                 o.vt[t.fname][t.vtables[i].0] == t.vtables[i].1
  {
    hide Sequential, EhOf, VtOf, InsertAll;
    var t, ps := ms[k], seq(|ms|, _ => Finished);
    SequentialSlots(ms, ps, |ms|, t.fname);
    assert ms[..|ms|] == ms;
    assert Named(ms, |ms|, t.fname);
    OwnSlots(ms, ps, k, |ms|);
    FirstRangeKept(ms, |ms|, k);
    FirstInsertWins(map[], t.vtables);
  }

  /** Nothing but the modules' names is a key. */
  lemma SequentialKeys(ms: seq<Task>, f: string)
    requires forall k :: 0 <= k < |ms| ==> ms[k].fname != f
    ensures f !in Sequential(ms).cleaned && f !in Sequential(ms).eh && f !in Sequential(ms).vt
  {
    hide Sequential;
    SequentialSlots(ms, seq(|ms|, _ => Finished), |ms|, f);
    assert ms[..|ms|] == ms;
    NoRangeYet(ms, |ms|, f);
  }

  // --------------------------------------- modules that do not commute: two runs that differ

  /** Two states at the same point of the program, whatever their slots hold. */
  ghost predicate Twins(s: State, t: State) {
    s.main == t.main && s.phases == t.phases && s.waitCount == t.waitCount
    && s.eh.Keys == t.eh.Keys && s.vt.Keys == t.vt.Keys
  }

  /** The slots of name `f` differ in a way nothing appended later can undo. */
  ghost predicate RangesApart(s: State, t: State, f: string) {
    && f in s.eh && f in t.eh
    && exists p :: 0 <= p < |s.eh[f]| && p < |t.eh[f]| && s.eh[f][p] != t.eh[f][p]
  }

  ghost predicate TablesApart(s: State, t: State, f: string) {
    && f in s.vt && f in t.vt
    && exists name :: name in s.vt[f] && name in t.vt[f] && s.vt[f][name] != t.vt[f][name]
  }

  /** A step only adds to the slots. */
  ghost predicate OnlyAdds(s: State, next: State) {
    && (forall f :: f in s.eh ==> f in next.eh && s.eh[f] <= next.eh[f])
    && (forall f :: f in s.vt ==> f in next.vt && Within(s.vt[f], next.vt[f]))
  }

  lemma StepOnlyAdds(ms: seq<Task>, s: State, a: Actor)
    requires Step(ms, s, a).Some?
    ensures OnlyAdds(s, Step(ms, s, a).value)
  {
    hide MainStep, WorkerStep, OnlyAdds;
    match a
    case Main => MainOnlyAdds(ms, s);
    case Worker(k) => WorkerOnlyAdds(ms, s, k);
  }

  lemma MainOnlyAdds(ms: seq<Task>, s: State)
    requires MainStep(ms, s).Some?
    ensures OnlyAdds(s, MainStep(ms, s).value)
  {
    hide Slot;
    if s.main.EhSlot? && s.main.i < |ms| { SlotAdds(s.eh, ms[s.main.i].fname, []); }
    if s.main.VtSlot? && s.main.i < |ms| { SlotAdds(s.vt, ms[s.main.i].fname, map[]); }
  }

  lemma SlotAdds<V>(m: map<string, V>, f: string, empty: V)
    ensures forall g :: g in m ==> g in Slot(m, f, empty) && Slot(m, f, empty)[g] == m[g]
  {
  }

  lemma WorkerOnlyAdds(ms: seq<Task>, s: State, k: nat)
    requires WorkerStep(ms, s, k).Some?
    ensures OnlyAdds(s, WorkerStep(ms, s, k).value)
  {
  }

  lemma ApartStaysApart(s: State, t: State, s': State, t': State, f: string)
    requires OnlyAdds(s, s') && OnlyAdds(t, t')
    ensures RangesApart(s, t, f) ==> RangesApart(s', t', f)
    ensures TablesApart(s, t, f) ==> TablesApart(s', t', f)
  {
    if RangesApart(s, t, f) {
      var p :| 0 <= p < |s.eh[f]| && p < |t.eh[f]| && s.eh[f][p] != t.eh[f][p];
      assert s'.eh[f][p] == s.eh[f][p] && t'.eh[f][p] == t.eh[f][p];
    }
  }

  lemma TwinsStep(ms: seq<Task>, s: State, t: State, a: Actor)
    requires Twins(s, t) && Step(ms, s, a).Some?
    ensures Step(ms, t, a).Some? && Twins(Step(ms, s, a).value, Step(ms, t, a).value)
  {
    hide Twins, MainStep, WorkerStep;
    match a
    case Main => TwinsMainStep(ms, s, t);
    case Worker(k) => TwinsWorkerStep(ms, s, t, k);
  }

  lemma SameKeysSlot<V>(m: map<string, V>, w: map<string, V>, f: string, empty: V)
    requires m.Keys == w.Keys
    ensures Slot(m, f, empty).Keys == Slot(w, f, empty).Keys
    ensures f in m <==> f in w
  {
    assert f in m <==> f in m.Keys;
    assert f in w <==> f in w.Keys;
  }

  lemma TwinsMainStep(ms: seq<Task>, s: State, t: State)
    requires Twins(s, t) && MainStep(ms, s).Some?
    ensures MainStep(ms, t).Some? && Twins(MainStep(ms, s).value, MainStep(ms, t).value)
  {
    hide Slot;
    if s.main.EhSlot? && s.main.i < |ms| { SameKeysSlot(s.eh, t.eh, ms[s.main.i].fname, []); }
    if s.main.VtSlot? && s.main.i < |ms| { SameKeysSlot(s.vt, t.vt, ms[s.main.i].fname, map[]); }
  }

  lemma TwinsWorkerStep(ms: seq<Task>, s: State, t: State, k: nat)
    requires Twins(s, t) && WorkerStep(ms, s, k).Some?
    ensures WorkerStep(ms, t, k).Some? && Twins(WorkerStep(ms, s, k).value, WorkerStep(ms, t, k).value)
  {
    hide InsertNew;
    SameKeysSlot(s.eh, t.eh, ms[k].fname, []);
    SameKeysSlot(s.vt, t.vt, ms[k].fname, map[]);
  }

  /** Twin runs can be carried on by the same steps until the wait returns in both, and what
      was apart stays apart. */
  lemma {:induction false} Complete(ms: seq<Task>, one: seq<Actor>, other: seq<Actor>, f: string)
    returns (one': seq<Actor>, other': seq<Actor>)
    requires Exec(ms, one).Some? && Exec(ms, other).Some? && Twins(Exec(ms, one).value, Exec(ms, other).value)
    ensures Exec(ms, one').Some? && Exec(ms, one').value.main.Caching?
    ensures Exec(ms, other').Some? && Exec(ms, other').value.main.Caching?
    ensures RangesApart(Exec(ms, one).value, Exec(ms, other).value, f) ==>
              RangesApart(Exec(ms, one').value, Exec(ms, other').value, f)
    ensures TablesApart(Exec(ms, one).value, Exec(ms, other).value, f) ==>
              TablesApart(Exec(ms, one').value, Exec(ms, other').value, f)
    decreases StepsLeft(ms, Init(ms)) - |one|
  {
    hide Exec, Step, StepsLeft, Shape, RangesApart, TablesApart, OnlyAdds;
    var s, t := Exec(ms, one).value, Exec(ms, other).value;
    RunsProgress(ms, one);
    if s.main.Caching? {
      one', other' := one, other;
    } else {
      EveryRunKeepsShape(ms, one);
      var a := SomeStep(ms, s);
      TwinsStep(ms, s, t, a);
      ExecSnoc(ms, one, a);
      ExecSnoc(ms, other, a);
      StepOnlyAdds(ms, s, a);
      StepOnlyAdds(ms, t, a);
      ApartStaysApart(s, t, Step(ms, s, a).value, Step(ms, t, a).value, f);
      RunsProgress(ms, one + [a]);
      one', other' := Complete(ms, one + [a], other + [a], f);
    }
  }

  // ------------------------------------------------------------------ building such runs

  /** All slots exist and are empty, all workers are about to start. */
  ghost predicate AllScheduled(ms: seq<Task>, s: State, n: nat) {
    && |s.phases| == |ms|
    && s.main == (if n < |ms| then Recording(n) else Waiting)
    && (forall k :: 0 <= k < n && k < |ms| ==>
          ms[k].fname in s.eh && ms[k].fname in s.vt && s.phases[k] == Pushing(0))
    && (forall f :: f in s.eh ==> s.eh[f] == [])
    && (forall f :: f in s.vt ==> s.vt[f] == map[])
  }

  /** The main thread can schedule every worker before any of them runs. */
  lemma {:induction false} ScheduleAll(ms: seq<Task>, n: nat) returns (schedule: seq<Actor>)
    requires n <= |ms|
    ensures Exec(ms, schedule).Some? && AllScheduled(ms, Exec(ms, schedule).value, n)
  {
    hide Exec, AllScheduled, Step;
    if n == 0 {
      schedule := [];
      NothingScheduled(ms);
    } else {
      schedule := ScheduleAll(ms, n - 1);
      var s := Exec(ms, schedule).value;
      var a := ScheduleOne(ms, s, n - 1);
      var b := Step(ms, a, Main).value;
      var c := Step(ms, b, Main).value;
      ExecSnoc(ms, schedule, Main);
      ExecSnoc(ms, schedule + [Main], Main);
      ExecSnoc(ms, schedule + [Main] + [Main], Main);
      ExecSnoc(ms, schedule + [Main] + [Main] + [Main], Main);
      schedule := schedule + [Main] + [Main] + [Main] + [Main];
    }
  }

  lemma NothingScheduled(ms: seq<Task>)
    ensures Exec(ms, []).Some? && AllScheduled(ms, Exec(ms, []).value, 0)
  {
  }

  lemma ScheduleOne(ms: seq<Task>, s: State, n: nat) returns (a: State)
    requires n < |ms| && AllScheduled(ms, s, n)
    ensures Step(ms, s, Main) == Some(a) && Step(ms, a, Main).Some?
    ensures Step(ms, Step(ms, a, Main).value, Main).Some?
    ensures var c := Step(ms, Step(ms, a, Main).value, Main).value;
            Step(ms, c, Main).Some? && AllScheduled(ms, Step(ms, c, Main).value, n + 1)
  {
    a := Step(ms, s, Main).value;
  }

  /** A worker pushes its ranges from its current one before `end`. */
  lemma {:induction false} PushUpTo(ms: seq<Task>, schedule: seq<Actor>, k: nat, from: nat, end: nat)
    returns (longer: seq<Actor>)
    requires Exec(ms, schedule).Some? && k < |ms| == |Exec(ms, schedule).value.phases|
    requires var s := Exec(ms, schedule).value;
             ms[k].fname in s.eh && ms[k].fname in s.vt && s.phases[k] == Pushing(from)
    requires from <= end <= |ms[k].ranges|
    ensures var s, f := Exec(ms, schedule).value, ms[k].fname;
            Exec(ms, longer) == Some(s.(eh := s.eh[f := s.eh[f] + ms[k].ranges[from..end]],
                                        phases := s.phases[k := Pushing(end)]))
    decreases end - from
  {
    hide Exec;
    var s, t := Exec(ms, schedule).value, ms[k];
    if from == end {
      longer := schedule;
      NoUpdate(s.eh, t.fname);
      assert s.phases[k := Pushing(end)] == s.phases;
      assert s.(eh := s.eh, phases := s.phases) == s;
      assert s.eh[t.fname] + t.ranges[from..end] == s.eh[t.fname];
    } else {
      ExecSnoc(ms, schedule, Worker(k));
      var next := s.(eh := s.eh[t.fname := s.eh[t.fname] + [t.ranges[from]]],
                     phases := s.phases[k := Pushing(from + 1)]);
      assert Exec(ms, schedule + [Worker(k)]) == Some(next);
      longer := PushUpTo(ms, schedule + [Worker(k)], k, from + 1, end);
      assert t.ranges[from..end] == [t.ranges[from]] + t.ranges[from + 1..end];
      AppendAssociates(s.eh[t.fname], [t.ranges[from]], t.ranges[from + 1..end]);
      UpdateTwice(s.eh, t.fname, s.eh[t.fname] + [t.ranges[from]], s.eh[t.fname] + t.ranges[from..end]);
      assert next.phases[k := Pushing(end)] == s.phases[k := Pushing(end)];
    }
  }

  lemma NoUpdate<V>(m: map<string, V>, f: string)
    requires f in m
    ensures m[f := m[f]] == m
  {
  }

  lemma UpdateTwice<V>(m: map<string, V>, f: string, v: V, w: V)
    ensures m[f := v][f := w] == m[f := w]
  {
  }

  /** A worker that has pushed its ranges inserts its vtables from its current one on. */
  lemma {:induction false} InsertRest(ms: seq<Task>, schedule: seq<Actor>, k: nat, n: nat)
    returns (longer: seq<Actor>)
    requires Exec(ms, schedule).Some? && k < |ms| == |Exec(ms, schedule).value.phases|
    requires var s := Exec(ms, schedule).value;
             ms[k].fname in s.eh && ms[k].fname in s.vt && s.phases[k] == Inserting(n)
    requires n <= |ms[k].vtables|
    ensures var s, f := Exec(ms, schedule).value, ms[k].fname;
            Exec(ms, longer) == Some(s.(vt := s.vt[f := InsertAll(s.vt[f], ms[k].vtables[n..])],
                                        phases := s.phases[k := Inserting(|ms[k].vtables|)]))
    decreases |ms[k].vtables| - n
  {
    hide Exec;
    var s, t := Exec(ms, schedule).value, ms[k];
    if n == |t.vtables| {
      longer := schedule;
      NoUpdate(s.vt, t.fname);
      assert s.phases[k := Inserting(n)] == s.phases;
      assert t.vtables[n..] == [];
      assert s.(vt := s.vt, phases := s.phases) == s;
    } else {
      ExecSnoc(ms, schedule, Worker(k));
      var grown := InsertNew(s.vt[t.fname], t.vtables[n]);
      var next := s.(vt := s.vt[t.fname := grown], phases := s.phases[k := Inserting(n + 1)]);
      assert Exec(ms, schedule + [Worker(k)]) == Some(next);
      longer := InsertRest(ms, schedule + [Worker(k)], k, n + 1);
      assert t.vtables[n..][0] == t.vtables[n] && t.vtables[n..][1..] == t.vtables[n + 1..];
      UpdateTwice(s.vt, t.fname, grown, InsertAll(s.vt[t.fname], t.vtables[n..]));
      assert next.phases[k := Inserting(|t.vtables|)] == s.phases[k := Inserting(|t.vtables|)];
    }
  }

  /** A worker that has just started does all its work but report. */
  lemma DoAllWork(ms: seq<Task>, schedule: seq<Actor>, k: nat) returns (longer: seq<Actor>)
    requires Exec(ms, schedule).Some? && k < |ms| == |Exec(ms, schedule).value.phases|
    requires var s := Exec(ms, schedule).value;
             ms[k].fname in s.eh && ms[k].fname in s.vt && s.phases[k] == Pushing(0)
    ensures var s, f := Exec(ms, schedule).value, ms[k].fname;
            Exec(ms, longer) == Some(s.(eh := s.eh[f := s.eh[f] + ms[k].ranges],
                                        vt := s.vt[f := InsertAll(s.vt[f], ms[k].vtables)],
                                        phases := s.phases[k := Inserting(|ms[k].vtables|)]))
  {
    hide Exec;
    var s, t := Exec(ms, schedule).value, ms[k];
    longer := PushUpTo(ms, schedule, k, 0, |t.ranges|);
    assert t.ranges[0..|t.ranges|] == t.ranges;
    var pushed := Exec(ms, longer).value;
    ExecSnoc(ms, longer, Worker(k));
    longer := longer + [Worker(k)];
    assert pushed.phases[k := Inserting(0)] == s.phases[k := Inserting(0)];
    assert Exec(ms, longer) == Some(pushed.(phases := s.phases[k := Inserting(0)]));
    longer := InsertRest(ms, longer, k, 0);
    assert s.phases[k := Inserting(0)][k := Inserting(|t.vtables|)] == s.phases[k := Inserting(|t.vtables|)];
    assert t.vtables[0..] == t.vtables;
  }

  /** Two workers of one name push in four turns: `a` ranges of the first, `b` of the second,
      then the rest of either. */
  lemma FourTurns(ms: seq<Task>, start: seq<Actor>, i: nat, j: nat, a: nat, b: nat) returns (schedule: seq<Actor>)
    requires i < |ms| && j < |ms| && i != j && ms[i].fname == ms[j].fname
    requires a <= |ms[i].ranges| && b <= |ms[j].ranges|
    requires Exec(ms, start).Some? && AllScheduled(ms, Exec(ms, start).value, |ms|)
    ensures var s, f, q, r := Exec(ms, start).value, ms[i].fname, ms[i].ranges, ms[j].ranges;
            Exec(ms, schedule) == Some(s.(eh := s.eh[f := q[..a] + r[..b] + q[a..] + r[b..]],
                                          phases := s.phases[i := Pushing(|q|)][j := Pushing(|r|)]))
  {
    hide Exec;
    var s, f, q, r := Exec(ms, start).value, ms[i].fname, ms[i].ranges, ms[j].ranges;
    schedule := PushUpTo(ms, start, i, 0, a);
    assert [] + q[0..a] == q[..a];
    var s1 := s.(eh := s.eh[f := q[..a]], phases := s.phases[i := Pushing(a)]);
    assert Exec(ms, schedule) == Some(s1);
    schedule := PushUpTo(ms, schedule, j, 0, b);
    UpdateTwice(s.eh, f, q[..a], q[..a] + r[..b]);
    var s2 := s.(eh := s.eh[f := q[..a] + r[..b]], phases := s.phases[i := Pushing(a)][j := Pushing(b)]);
    assert r[0..b] == r[..b];
    assert Exec(ms, schedule) == Some(s2);
    schedule := PushUpTo(ms, schedule, i, a, |q|);
    UpdateTwice(s.eh, f, q[..a] + r[..b], q[..a] + r[..b] + q[a..]);
    var s3 := s.(eh := s.eh[f := q[..a] + r[..b] + q[a..]], phases := s.phases[i := Pushing(|q|)][j := Pushing(b)]);
    assert q[a..|q|] == q[a..];
    assert s2.phases[i := Pushing(|q|)] == s3.phases;
    assert Exec(ms, schedule) == Some(s3);
    schedule := PushUpTo(ms, schedule, j, b, |r|);
    UpdateTwice(s.eh, f, q[..a] + r[..b] + q[a..], q[..a] + r[..b] + q[a..] + r[b..]);
    assert r[b..|r|] == r[b..];
    assert s3.phases[j := Pushing(|r|)] == s.phases[i := Pushing(|q|)][j := Pushing(|r|)];
  }

  /** Two nonempty lists that are not one and the same element throughout have a merge in
      four turns that differs from one after the other. */
  lemma DifferentTurns(q: seq<DataRange>, r: seq<DataRange>) returns (a: nat, b: nat, p: nat)
    requires q != [] && r != [] && !AllEqual(q + r)
    ensures a <= |q| && b <= |r| && p < |q| + |r|
    ensures (q[..a] + r[..b] + q[a..] + r[b..])[p] != (q + r)[p]
  {
    var x := r[0];
    if k :| 0 <= k < |q| && q[k] != x {
      a, b, p := k, 1, k;
    } else {
      var i, j :| 0 <= i < j < |q + r| && (q + r)[i] != (q + r)[j];
      var other := if (q + r)[j] != x then j else i;
      assert r[other - |q|] == (q + r)[other];
      var k := FirstOther(r, x);
      a, b, p := 0, k + 1, k;
      assert (q[..a] + r[..b] + q[a..] + r[b..])[k] == r[k];
      if k >= |q| { assert (q + r)[k] == r[k - |q|]; }
    }
  }

  lemma {:induction false} FirstOther(r: seq<DataRange>, x: DataRange) returns (k: nat)
    requires exists k :: 0 <= k < |r| && r[k] != x
    ensures k < |r| && r[k] != x && forall m :: 0 <= m < k ==> r[m] == x
  {
    if r[0] != x {
      k := 0;
    } else {
      var n :| 0 <= n < |r| && r[n] != x;
      assert r[1..][n - 1] == r[n];
      k := FirstOther(r[1..], x);
      k := k + 1;
      assert forall m :: 1 <= m < k ==> r[m] == r[1..][m - 1];
    }
  }

  /** Modules of one name whose ranges do not commute: two runs end with different ranges. */
  lemma RangesCanDiffer(ms: seq<Task>, i: nat, j: nat) returns (one: seq<Actor>, other: seq<Actor>)
    requires i < j < |ms| && ms[i].fname == ms[j].fname
    requires ms[i].ranges != [] && ms[j].ranges != [] && !AllEqual(ms[i].ranges + ms[j].ranges)
    ensures Exec(ms, one).Some? && Exec(ms, one).value.main.Caching?
    ensures Exec(ms, other).Some? && Exec(ms, other).value.main.Caching?
    ensures Exec(ms, one).value.eh != Exec(ms, other).value.eh
  {
    hide Exec, AllEqual;
    var f, q, r := ms[i].fname, ms[i].ranges, ms[j].ranges;
    var start := ScheduleAll(ms, |ms|);
    var a, b, p := DifferentTurns(q, r);
    one := FourTurns(ms, start, i, j, a, b);
    other := FourTurns(ms, start, i, j, |q|, 0);
    assert q[..|q|] + r[..0] + q[|q|..] + r[0..] == q + r;
    assert RangesApart(Exec(ms, one).value, Exec(ms, other).value, f);
    one, other := Complete(ms, one, other, f);
  }

  /** Modules of one name whose tables do not commute: two runs end with different tables. */
  lemma TablesCanDiffer(ms: seq<Task>, i: nat, j: nat) returns (one: seq<Actor>, other: seq<Actor>)
    requires i < j < |ms| && ms[i].fname == ms[j].fname && !SameWhereCommon(Table(ms[i]), Table(ms[j]))
    ensures Exec(ms, one).Some? && Exec(ms, one).value.main.Caching?
    ensures Exec(ms, other).Some? && Exec(ms, other).value.main.Caching?
    ensures Exec(ms, one).value.vt != Exec(ms, other).value.vt
  {
    hide Exec, InsertAll;
    var f := ms[i].fname;
    var start := ScheduleAll(ms, |ms|);
    one := BothInOrder(ms, start, i, j);
    other := BothInOrder(ms, start, j, i);
    var s, t := Exec(ms, one).value, Exec(ms, other).value;
    var name :| name in Table(ms[i]) && name in Table(ms[j]) && Table(ms[i])[name] != Table(ms[j])[name];
    FirstInsertWins(Table(ms[i]), ms[j].vtables);
    FirstInsertWins(Table(ms[j]), ms[i].vtables);
    assert s.vt[f][name] != t.vt[f][name];
    assert s.phases == t.phases;
    one, other := Complete(ms, one, other, f);
  }

  lemma BothInOrder(ms: seq<Task>, start: seq<Actor>, i: nat, j: nat) returns (schedule: seq<Actor>)
    requires i < |ms| && j < |ms| && i != j && ms[i].fname == ms[j].fname
    requires Exec(ms, start).Some? && AllScheduled(ms, Exec(ms, start).value, |ms|)
    ensures var s, f := Exec(ms, start).value, ms[i].fname;
            Exec(ms, schedule) == Some(s.(eh := s.eh[f := ms[i].ranges + ms[j].ranges],
                                          vt := s.vt[f := InsertAll(Table(ms[i]), ms[j].vtables)],
                                          phases := s.phases[i := Inserting(|ms[i].vtables|)]
                                                            [j := Inserting(|ms[j].vtables|)]))
  {
    hide Exec, InsertAll;
    var s, f := Exec(ms, start).value, ms[i].fname;
    schedule := DoAllWork(ms, start, i);
    assert [] + ms[i].ranges == ms[i].ranges;
    schedule := DoAllWork(ms, schedule, j);
    UpdateTwice(s.eh, f, ms[i].ranges, ms[i].ranges + ms[j].ranges);
    UpdateTwice(s.vt, f, Table(ms[i]), InsertAll(Table(ms[i]), ms[j].vtables));
  }

  lemma DisagreementShows(ms: seq<Task>, i: nat, j: nat)
    requires i < j < |ms| && ms[i].fname == ms[j].fname && !Commute(ms[i], ms[j])
    ensures !AlwaysAgrees(ms)
  {
    hide Exec, Sequential, SameWhereCommon, Table;
    var one, other: seq<Actor>;
    if SameWhereCommon(Table(ms[i]), Table(ms[j])) {
      one, other := RangesCanDiffer(ms, i, j);
    } else {
      one, other := TablesCanDiffer(ms, i, j);
    }
    assert OutcomeOf(Exec(ms, one).value) != OutcomeOf(Exec(ms, other).value);
  }

  /** With each access to a container taken as one step, every interleaving agrees with
      one-by-one processing if and only if the modules that share a base name commute in pairs. */
  lemma AgreesExactlyWhenCommuting(ms: seq<Task>)
    ensures AlwaysAgrees(ms) <==> Commuting(ms)
  {
    hide Exec, Sequential, Commute;
    if Commuting(ms) {
      forall schedule | Exec(ms, schedule).Some? && Exec(ms, schedule).value.main.Caching?
        ensures OutcomeOf(Exec(ms, schedule).value) == Sequential(ms)
      {
        CommutingAgrees(ms, schedule);
      }
    } else {
      var i, j :| 0 <= i < j < |ms| && ms[i].fname == ms[j].fname && !Commute(ms[i], ms[j]);
      DisagreementShows(ms, i, j);
    }
  }

  /** Two modules of one name with a different range each: some run ends with other ranges
      than one-by-one processing. */
  lemma SharedNameCanDisagree(q: DataRange, r: DataRange)
    requires q != r
    ensures var ms := [Task("a", q, [q], []), Task("a", r, [r], [])];
            exists schedule :: Exec(ms, schedule).Some? && Exec(ms, schedule).value.main.Caching?
                               && Exec(ms, schedule).value.eh != Sequential(ms).eh
  {
    hide Exec, Sequential;
    var ms := [Task("a", q, [q], []), Task("a", r, [r], [])];
    assert (ms[0].ranges + ms[1].ranges)[0] != (ms[0].ranges + ms[1].ranges)[1];
    var one, other := RangesCanDiffer(ms, 0, 1);
  }
}
