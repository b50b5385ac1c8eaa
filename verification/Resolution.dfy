/** From the start of the worker stage to a resolved offset: the scan of each module and the
    interleaving of the workers taken together. */
module Resolution {
  import opened Machine
  import opened EhFrame
  import opened Runs
  import opened VtableScan
  import opened Offsets
  import opened InitOffsets
  import opened Interleavings

  /** What the worker on module `g` pushes and inserts when its scan meets no exception. */
  ghost predicate Scans(g: LoadedModule, t: Task) {
    && EhFrameRanges(g.mem, g.ehSections) == Yields(t.ranges, None)
    && YieldsVtables(g, Yields(t.vtables, None))
  }

  /** In every interleaving that gets past the wait, each module of its own name has in its
      slots the ranges and the table that its own scan yields. */
  lemma SlotsHoldTheScan(ms: seq<Task>, schedule: seq<Actor>, k: nat, g: LoadedModule)
    requires UniqueNames(ms) && k < |ms| && Scans(g, ms[k])
    requires Exec(ms, schedule).Some? && Exec(ms, schedule).value.main.Caching?
    ensures var s, f := Exec(ms, schedule).value, ms[k].fname;
            && f in s.eh && s.eh[f] == EhFrameRanges(g.mem, g.ehSections).items
            && f in s.vt && exists r :: YieldsVtables(g, r) && r.error.None? && s.vt[f] == InsertAll(map[], r.items)
  {
    hide Exec, InsertAll, YieldsVtables;
    var s := Exec(ms, schedule).value;
    EveryRunKeepsShape(ms, schedule);
    UnfinishedZero(s.phases);
    EveryWorkerOwnsItsSlots(ms, schedule, k);
    assert s.vt[ms[k].fname] == InsertAll(map[], Yields(ms[k].vtables, None).items);
  }

  /** In every interleaving, an offset cached after the wait is resolved through the module's own
      candidates: to the slot of its entry of the class's first chunk, or out of range past it. */
  lemma EveryRunResolves(ms: seq<Task>, schedule: seq<Actor>, k: nat, g: LoadedModule, es: seq<Entry>,
                         name: string, slot: Addr, vftable: Uint16, i: nat, j: nat)
    requires UniqueNames(ms) && k < |ms| && Scans(g, ms[k])
    requires Exec(ms, schedule).Some? && Exec(ms, schedule).value.main.Caching?
    requires ModuleCandidates(g).Ok? && AllHaveTypeinfo(g.mem, ModuleCandidates(g).value)
    requires es == Entries(g.mem, ModuleCandidates(g).value) && FirstClaim(g.mem, es, i, j, VtableKey(name))
    ensures var chunk, o := FirstChunk(es, i, j), NewVtableOffset(ms[k].fname, name, slot, vftable);
            GetVtableAddress(g.mem, Exec(ms, schedule).value.vt, o)
            == if vftable < |chunk| then SlotOf(g.mem, chunk[vftable].vftable, slot % 0x1_0000) else Err(OutOfRange)
    ensures i + vftable < j ==> FirstChunk(es, i, j)[vftable] == es[i + vftable]
    ensures forall target: Addr :: SlotStored(g.mem, FirstChunk(es, i, j), vftable, slot, target) ==>
              GetVtableAddress(g.mem, Exec(ms, schedule).value.vt, NewVtableOffset(ms[k].fname, name, slot, vftable))
              == Ok(target)
  {
    hide Exec, InsertAll, YieldsVtables, NameOf, Flushed, GetVtableAddress, SlotOf, FirstChunk, SlotStored;
    SlotsHoldTheScan(ms, schedule, k, g);
    var s, f := Exec(ms, schedule).value, ms[k].fname;
    var r :| YieldsVtables(g, r) && r.error.None? && s.vt[f] == InsertAll(map[], r.items);
    ModuleOffsetResolves(g, r, es, s.vt, f, name, slot, vftable, i, j);
  }

  /** From the bytes: with different names for different typeinfos, an offset made for a class,
      a vftable of its first run and a slot resolves, in every interleaving, to the word stored
      at that slot, if the class's typeinfo holds its name and something of another typeinfo
      survives after it. */
  lemma EveryRunReadsTheSlot(ms: seq<Task>, schedule: seq<Actor>, k: nat, g: LoadedModule, es: seq<Entry>,
                             name: string, p: Addr, slot: Addr, vftable: Uint16, target: Addr, i: nat, j: nat)
    requires UniqueNames(ms) && k < |ms| && Scans(g, ms[k])
    requires Exec(ms, schedule).Some? && Exec(ms, schedule).value.main.Caching?
    requires ModuleCandidates(g).Ok? && AllHaveTypeinfo(g.mem, ModuleCandidates(g).value)
    requires es == Entries(g.mem, ModuleCandidates(g).value) && DistinctNames(g.mem, es)
    requires FirstRun(es, i, j) && Flushed(es, i) && HoldsName(g.mem, es[i].typeinfo, p, VtableKey(name))
    requires i + vftable < j
    requires Stored(g.mem, es[i + vftable].vftable + 4 * (slot % 0x1_0000), LE(target, 4))
    ensures GetVtableAddress(g.mem, Exec(ms, schedule).value.vt, NewVtableOffset(ms[k].fname, name, slot, vftable))
            == Ok(target)
  {
    hide Exec, NameOf, Flushed, DistinctNames, GetVtableAddress, FirstChunk, FirstRun, HoldsName, VtableKey, Stored,
         SlotStored, ModuleCandidates, AllHaveTypeinfo, Scans, UniqueNames;
    InFirstChunk(g.mem, es, i, j, vftable, slot, target);
    NameReads(g.mem, es[i].typeinfo, p, VtableKey(name));
    DistinctNamesClaim(g.mem, es, i, j, VtableKey(name));
    EveryRunResolves(ms, schedule, k, g, es, name, slot, vftable, i, j);
  }

  lemma InFirstChunk(m: Memory, es: seq<Entry>, i: nat, j: nat, vftable: nat, slot: Addr, target: Addr)
    requires FirstRun(es, i, j) && i + vftable < j
    requires Stored(m, es[i + vftable].vftable + 4 * (slot % 0x1_0000), LE(target, 4))
    ensures i < j <= |es| && SlotStored(m, FirstChunk(es, i, j), vftable, slot, target)
  {
    hide Stored, LE, Leading, FilteredFrom;
    assert es[i..j][vftable] == es[i + vftable];
  }
}
