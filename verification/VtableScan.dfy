/** From a loaded module to its vtables: filter the candidates, split them into chunks of one
    typeinfo and name each chunk. */
module VtableScan {
  import opened Machine
  import opened EhFrame
  import opened RangeChecker
  import opened Rtti
  import opened Runs

  // ------------------------------------------------------------ typeinfo of a vftable

  /** The word before a vftable can be read. */
  predicate HasTypeinfo(m: Memory, vftable: Addr) {
    Load32(m, Sub32(vftable, 4)).Ok?
  }

  function TypeinfoOf(m: Memory, vftable: Addr): Addr
    requires HasTypeinfo(m, vftable)
  {
    Load32(m, Sub32(vftable, 4)).value.0
  }

  ghost predicate AllHaveTypeinfo(m: Memory, vs: seq<Addr>) {
    forall i :: 0 <= i < |vs| ==> HasTypeinfo(m, vs[i])
  }

  ghost function Entries(m: Memory, vs: seq<Addr>): (es: seq<Entry>)
    requires AllHaveTypeinfo(m, vs)
    ensures |es| == |vs|
    ensures forall i :: 0 <= i < |vs| ==> es[i] == Entry(vs[i], TypeinfoOf(m, vs[i]))
  {
    seq(|vs|, i requires 0 <= i < |vs| => Entry(vs[i], TypeinfoOf(m, vs[i])))
  }

  ghost function Vftables(es: seq<Entry>): (vs: seq<Addr>)
    ensures |vs| == |es| && forall i :: 0 <= i < |es| ==> vs[i] == es[i].vftable
  {
    seq(|es|, i requires 0 <= i < |es| => es[i].vftable)
  }

  /** The name in a typeinfo: the string its second word points to. */
  function NameOf(m: Memory, typeinfo: Addr): (r: Result<string>) {
    var (p, _) :- Load32(m, Add32(typeinfo, 4));
    var (s, _) :- StringAt(m, p);
    Ok(s)
  }

  /** A typeinfo whose second word points to the characters of `name` and a NUL, at `p`
      (Itanium C++ ABI, section 2.9.5). */
  ghost predicate HoldsName(m: Memory, typeinfo: Addr, p: Addr, name: string) {
    Narrow(name) && Stored(m, typeinfo + 4, LE(p, 4)) && Stored(m, p, Chars(name) + [0])
  }

  /** The name is read from there. */
  lemma NameReads(m: Memory, typeinfo: Addr, p: Addr, name: string)
    requires HoldsName(m, typeinfo, p, name)
    ensures NameOf(m, typeinfo) == Ok(name)
  {
    hide Stored, LE, Load32, StringAt;
    StoredNotEmpty(m, typeinfo + 4, LE(p, 4));
    WordReads(m, typeinfo + 4, p);
    StringUndoesStore(m, p, name);
  }

  /** The typeinfo of a vftable is the word before it (Itanium C++ ABI, section 2.5.2). */
  lemma TypeinfoReads(m: Memory, vftable: Addr, typeinfo: Addr)
    requires vftable >= 4 && Stored(m, vftable - 4, LE(typeinfo, 4))
    ensures HasTypeinfo(m, vftable) && TypeinfoOf(m, vftable) == typeinfo
  {
    WordReads(m, vftable - 4, typeinfo);
  }

  // ------------------------------------------------------------------ run filter

  method FilterRuns(m: Memory, candidates: seq<Addr>) returns (kept: seq<Addr>)
    requires AllHaveTypeinfo(m, candidates)
    ensures AllHaveTypeinfo(m, kept)
    ensures Entries(m, kept) == Filtered(Entries(m, candidates))
  {
    ghost var es := Entries(m, candidates);
    var prevTypeinfo: Addr := 0;
    var seenTypeinfo: set<Addr> := {};
    kept := [];
    for i := 0 to |candidates|
      invariant AllHaveTypeinfo(m, kept) && Entries(m, kept) == Filtered(es[..i])
      invariant i > 0 ==> prevTypeinfo == es[i - 1].typeinfo
      invariant SeenSoFar(es, i, seenTypeinfo)
    {
      var typeinfoAddr := TypeinfoOf(m, candidates[i]);
      FilteredSnoc(es, i);
      KeptTest(es, i, prevTypeinfo, seenTypeinfo);
      if !(typeinfoAddr != prevTypeinfo && typeinfoAddr in seenTypeinfo) {
        EntriesSnoc(m, kept, candidates[i]);
        kept := kept + [candidates[i]];
      }
      prevTypeinfo := typeinfoAddr;
      seenTypeinfo := seenTypeinfo + {typeinfoAddr};
    }
    assert es[..|candidates|] == es;
  }

  ghost predicate SeenSoFar(es: seq<Entry>, i: nat, seen: set<Addr>)
    requires i <= |es|
  {
    forall t :: t in seen <==> exists j :: 0 <= j < i && es[j].typeinfo == t
  }

  lemma KeptTest(es: seq<Entry>, i: nat, prev: Addr, seen: set<Addr>)
    requires i < |es| && SeenSoFar(es, i, seen) && (i > 0 ==> prev == es[i - 1].typeinfo)
    ensures Kept(es, i) <==> !(es[i].typeinfo != prev && es[i].typeinfo in seen)
    ensures SeenSoFar(es, i + 1, seen + {es[i].typeinfo})
  {
  }

  lemma EntriesSnoc(m: Memory, vs: seq<Addr>, v: Addr)
    requires AllHaveTypeinfo(m, vs) && HasTypeinfo(m, v)
    ensures AllHaveTypeinfo(m, vs + [v])
    ensures Entries(m, vs + [v]) == Entries(m, vs) + [Entry(v, TypeinfoOf(m, v))]
  {
  }

  // -------------------------------------------------------------------- chunker

  /** The named chunks yielded, up to the first whose name cannot be read. */
  ghost function Emit(m: Memory, chunks: seq<seq<Entry>>): (r: Yields<Vtable>)
    requires AreRuns(chunks)
  {
    if chunks == [] then Yields([], None)
    else
      var last := chunks[|chunks| - 1];
      var r := Emit(m, chunks[..|chunks| - 1]);
      if r.error.Some? then r
      else match NameOf(m, last[0].typeinfo)
        case Err(e) => Yields(r.items, Some(e))
        case Ok(name) => Yields(r.items + [(name, Vftables(last))], None)
  }

  lemma {:induction false} EmitPrefixFails(m: Memory, chunks: seq<seq<Entry>>, k: nat)
    requires AreRuns(chunks) && k <= |chunks| && AreRuns(chunks[..k]) && Emit(m, chunks[..k]).error.Some?
    ensures Emit(m, chunks) == Emit(m, chunks[..k])
    decreases |chunks|
  {
    if k == |chunks| {
      assert chunks[..k] == chunks;
    } else {
      var most := chunks[..|chunks| - 1];
      assert most[..k] == chunks[..k];
      EmitPrefixFails(m, most, k);
    }
  }

  /** Chunks emitted so far stay. */
  lemma {:induction false} ChunksPrefix(es: seq<Entry>, k: nat)
    requires k <= |es|
    ensures Chunks(es[..k]) <= Chunks(es)
    decreases |es|
  {
    hide RunsOf, AddToRuns;
    if k == |es| {
      assert es[..k] == es;
    } else {
      var most := es[..|es| - 1];
      assert most[..k] == es[..k];
      ChunksPrefix(most, k);
      assert es == most + [es[|es| - 1]];
      RunsSnoc(most, es[|es| - 1]);
      if most != [] { ChunksGrow(RunsOf(most), es[|es| - 1]); }
    }
  }

  lemma ChunksGrow(rs: seq<seq<Entry>>, x: Entry)
    requires rs != []
    ensures var next := AddToRuns(rs, x); rs[..|rs| - 1] <= next[..|next| - 1]
  {
  }

  /** One more entry: either the last run grows and nothing is emitted, or it is emitted. */
  lemma NextEntry(es: seq<Entry>, k: nat)
    requires 0 < k < |es|
    ensures AreRuns(RunsOf(es[..k])) && AreRuns(RunsOf(es[..k + 1]))
    ensures var last := RunsOf(es[..k])[|RunsOf(es[..k])| - 1];
            && last != [] && last[0].typeinfo == es[k - 1].typeinfo
            && if es[k].typeinfo == es[k - 1].typeinfo then
                 && Chunks(es[..k + 1]) == Chunks(es[..k])
                 && RunsOf(es[..k + 1])[|RunsOf(es[..k + 1])| - 1] == last + [es[k]]
               else
                 && Chunks(es[..k + 1]) == Chunks(es[..k]) + [last]
                 && RunsOf(es[..k + 1])[|RunsOf(es[..k + 1])| - 1] == [es[k]]
  {
    assert es[..k + 1] == es[..k] + [es[k]];
    RunsPartition(es[..k]);
    RunsPartition(es[..k + 1]);
    LastRun(es[..k]);
    RunsSnoc(es[..k], es[k]);
    var rs := RunsOf(es[..k]);
    assert rs == rs[..|rs| - 1] + [rs[|rs| - 1]];
  }

  /** The chunker after `i` entries: the chunks yielded, the run in progress, its last entry. */
  ghost predicate ChunkState(m: Memory, entries: seq<Addr>, i: nat, items: seq<Vtable>,
                             currentChunk: seq<Addr>, prevEntry: Addr)
    requires AllHaveTypeinfo(m, entries) && i <= |entries|
  {
    var es := Entries(m, entries);
    && AreRuns(Chunks(es[..i])) && Emit(m, Chunks(es[..i])) == Yields(items, None)
    && if i == 0 then prevEntry == 0 && currentChunk == []
       else
         && prevEntry == entries[i - 1] && prevEntry != 0
         && currentChunk == Vftables(RunsOf(es[..i])[|RunsOf(es[..i])| - 1])
  }

  method BuildChunks(m: Memory, entries: seq<Addr>) returns (r: Yields<Vtable>)
    requires AllHaveTypeinfo(m, entries)
    ensures AreRuns(Chunks(Entries(m, entries))) && r == Emit(m, Chunks(Entries(m, entries)))
  {
    hide AreRuns, Emit, NameOf, Chunks, ChunkState, Entries, HasTypeinfo;
    ChunksStart(m, entries);
    var items: seq<Vtable> := [];
    var currentChunk: seq<Addr> := [];
    var prevEntry: Addr := 0;
    for i := 0 to |entries|
      invariant ChunkState(m, entries, i, items, currentChunk, prevEntry)
    {
      var entry := entries[i];
      ChunkStep(m, entries, i, items, currentChunk, prevEntry);
      if prevEntry != 0 && TypeinfoOf(m, entry) != TypeinfoOf(m, prevEntry) {
        var name := NameOf(m, TypeinfoOf(m, currentChunk[0]));
        if name.Err? { return Yields(items, Some(name.error)); }
        items := items + [(name.value, currentChunk)];
        currentChunk := [];
        assert currentChunk + [entry] == [entry];
      }
      currentChunk := currentChunk + [entry];
      prevEntry := entry;
    }
    ChunksDone(m, entries, items, currentChunk, prevEntry);
    return Yields(items, None);
  }

  lemma ChunksStart(m: Memory, entries: seq<Addr>)
    requires AllHaveTypeinfo(m, entries)
    ensures ChunkState(m, entries, 0, [], [], 0)
  {
    hide AreRuns, Emit, Chunks;
    NothingYielded(m, Entries(m, entries));
  }

  lemma ChunksDone(m: Memory, entries: seq<Addr>, items: seq<Vtable>, currentChunk: seq<Addr>, prevEntry: Addr)
    requires AllHaveTypeinfo(m, entries) && ChunkState(m, entries, |entries|, items, currentChunk, prevEntry)
    ensures AreRuns(Chunks(Entries(m, entries))) && Emit(m, Chunks(Entries(m, entries))) == Yields(items, None)
  {
    hide AreRuns, Emit, Chunks;
    assert Entries(m, entries)[..|entries|] == Entries(m, entries);
  }

  /** One iteration of the chunker. */
  lemma ChunkStep(m: Memory, entries: seq<Addr>, i: nat, items: seq<Vtable>,
                  currentChunk: seq<Addr>, prevEntry: Addr)
    requires AllHaveTypeinfo(m, entries) && i < |entries|
    requires ChunkState(m, entries, i, items, currentChunk, prevEntry)
    ensures prevEntry != 0 ==> i > 0 && HasTypeinfo(m, prevEntry)
    ensures if prevEntry != 0 && TypeinfoOf(m, entries[i]) != TypeinfoOf(m, prevEntry) then
              && currentChunk != [] && HasTypeinfo(m, currentChunk[0])
              && match NameOf(m, TypeinfoOf(m, currentChunk[0]))
                 case Err(e) =>
                   AreRuns(Chunks(Entries(m, entries))) &&
                   Emit(m, Chunks(Entries(m, entries))) == Yields(items, Some(e))
                 case Ok(name) =>
                   ChunkState(m, entries, i + 1, items + [(name, currentChunk)], [entries[i]], entries[i])
            else ChunkState(m, entries, i + 1, items, currentChunk + [entries[i]], entries[i])
  {
    hide RunsOf, AreRuns, Emit, NameOf, Chunks, HasTypeinfo, ChunkState, Entries;
    if i == 0 {
      FirstStep(m, entries, items, currentChunk, prevEntry);
    } else if TypeinfoOf(m, entries[i]) == TypeinfoOf(m, entries[i - 1]) {
      SameRunStep(m, entries, i, items, currentChunk, prevEntry);
    } else {
      NewRunStep(m, entries, i, items, currentChunk, prevEntry);
    }
  }

  lemma FirstStep(m: Memory, entries: seq<Addr>, items: seq<Vtable>, currentChunk: seq<Addr>, prevEntry: Addr)
    requires AllHaveTypeinfo(m, entries) && entries != []
    requires ChunkState(m, entries, 0, items, currentChunk, prevEntry)
    ensures prevEntry == 0 && ChunkState(m, entries, 1, items, currentChunk + [entries[0]], entries[0])
  {
    hide RunsOf, AreRuns, Emit, NameOf, Chunks, HasTypeinfo;
    var es := Entries(m, entries);
    NonNull(m, entries[0]);
    FirstEntry(es);
    NothingYielded(m, es);
    VftablesSnoc([], es[0]);
  }

  lemma SameRunStep(m: Memory, entries: seq<Addr>, i: nat, items: seq<Vtable>,
                    currentChunk: seq<Addr>, prevEntry: Addr)
    requires AllHaveTypeinfo(m, entries) && 0 < i < |entries|
    requires TypeinfoOf(m, entries[i]) == TypeinfoOf(m, entries[i - 1])
    requires ChunkState(m, entries, i, items, currentChunk, prevEntry)
    ensures prevEntry == entries[i - 1]
    ensures ChunkState(m, entries, i + 1, items, currentChunk + [entries[i]], entries[i])
  {
    hide RunsOf, AreRuns, Emit, NameOf, Chunks, HasTypeinfo;
    var es := Entries(m, entries);
    NonNull(m, entries[i]);
    NextEntry(es, i);
    VftablesSnoc(RunsOf(es[..i])[|RunsOf(es[..i])| - 1], es[i]);
  }

  lemma NewRunStep(m: Memory, entries: seq<Addr>, i: nat, items: seq<Vtable>,
                   currentChunk: seq<Addr>, prevEntry: Addr)
    requires AllHaveTypeinfo(m, entries) && 0 < i < |entries|
    requires TypeinfoOf(m, entries[i]) != TypeinfoOf(m, entries[i - 1])
    requires ChunkState(m, entries, i, items, currentChunk, prevEntry)
    ensures prevEntry == entries[i - 1] && prevEntry != 0
    ensures currentChunk != [] && HasTypeinfo(m, currentChunk[0])
    ensures match NameOf(m, TypeinfoOf(m, currentChunk[0]))
            case Err(e) =>
              AreRuns(Chunks(Entries(m, entries))) &&
              Emit(m, Chunks(Entries(m, entries))) == Yields(items, Some(e))
            case Ok(name) =>
              ChunkState(m, entries, i + 1, items + [(name, currentChunk)], [entries[i]], entries[i])
  {
    hide RunsOf, AreRuns, Emit, NameOf, Chunks, HasTypeinfo, Entries, Vftables;
    var es := Entries(m, entries);
    NonNull(m, entries[i]);
    NextEntry(es, i);
    var last := RunsOf(es[..i])[|RunsOf(es[..i])| - 1];
    LastOfEntries(m, entries, i);
    VftablesSnoc([], es[i]);
    NewChunk(m, es, i, last, items);
  }

  lemma NothingYielded(m: Memory, es: seq<Entry>)
    ensures AreRuns([]) && Emit(m, []) == Yields([], None)
    ensures Chunks(es[..0]) == []
  {
  }

  lemma ChunksAreRuns(es: seq<Entry>)
    ensures AreRuns(Chunks(es))
  {
    RunsPartition(es);
  }

  lemma VftablesSnoc(r: seq<Entry>, x: Entry)
    ensures Vftables(r + [x]) == Vftables(r) + [x.vftable]
    ensures Vftables([x]) == [x.vftable]
  {
  }

  lemma NewChunk(m: Memory, es: seq<Entry>, i: nat, last: seq<Entry>, items: seq<Vtable>)
    requires 0 < i < |es| && es[i].typeinfo != es[i - 1].typeinfo
    requires AreRuns(Chunks(es[..i])) && Emit(m, Chunks(es[..i])) == Yields(items, None)
    requires last == RunsOf(es[..i])[|RunsOf(es[..i])| - 1]
    ensures last != [] && AreRuns(Chunks(es)) && AreRuns(Chunks(es[..i + 1]))
    ensures match NameOf(m, last[0].typeinfo)
            case Err(e) => Emit(m, Chunks(es)) == Yields(items, Some(e))
            case Ok(name) => Emit(m, Chunks(es[..i + 1])) == Yields(items + [(name, Vftables(last))], None)
  {
    hide RunsOf, AreRuns, Emit, NameOf, Chunks;
    NextEntry(es, i);
    ChunksAreRuns(es);
    ChunksAreRuns(es[..i + 1]);
    EmitSnoc(m, Chunks(es[..i]), last);
    if NameOf(m, last[0].typeinfo).Err? {
      ChunksPrefix(es, i + 1);
      assert Chunks(es)[..|Chunks(es[..i + 1])|] == Chunks(es[..i + 1]);
      EmitPrefixFails(m, Chunks(es), |Chunks(es[..i + 1])|);
    }
  }

  lemma NonNull(m: Memory, v: Addr)
    requires HasTypeinfo(m, v)
    ensures v != 0
  {
    assert Load32(m, Sub32(v, 4)).value.1 < ADDRESS_SPACE;
  }

  lemma FirstEntry(es: seq<Entry>)
    requires es != []
    ensures Chunks(es[..1]) == [] && RunsOf(es[..1]) == [[es[0]]]
  {
    assert es[..1] == [] + [es[0]];
    RunsSnoc([], es[0]);
  }

  lemma EmitSnoc(m: Memory, chunks: seq<seq<Entry>>, last: seq<Entry>)
    requires AreRuns(chunks) && AreRuns(chunks + [last]) && Emit(m, chunks).error.None?
    ensures Emit(m, chunks + [last]) ==
            match NameOf(m, last[0].typeinfo)
            case Err(e) => Yields(Emit(m, chunks).items, Some(e))
            case Ok(name) => Yields(Emit(m, chunks).items + [(name, Vftables(last))], None)
  {
    assert (chunks + [last])[..|chunks|] == chunks;
  }

  /** The first entry of the last run carries its own typeinfo. */
  lemma LastOfEntries(m: Memory, vs: seq<Addr>, k: nat)
    requires AllHaveTypeinfo(m, vs) && 0 < k <= |vs|
    ensures var last := RunsOf(Entries(m, vs)[..k])[|RunsOf(Entries(m, vs)[..k])| - 1];
            last != [] && HasTypeinfo(m, last[0].vftable) && TypeinfoOf(m, last[0].vftable) == last[0].typeinfo
  {
    hide RunsOf, Flatten, HasTypeinfo, TypeinfoOf;
    var es := Entries(m, vs)[..k];
    RunsPartition(es);
    LastRun(es);
    var rs := RunsOf(es);
    FlattenSnoc(rs[..|rs| - 1], rs[|rs| - 1]);
    assert rs == rs[..|rs| - 1] + [rs[|rs| - 1]];
    var n := |Flatten(rs[..|rs| - 1])|;
    assert es[n] == rs[|rs| - 1][0];
  }

  // ------------------------------------------------------------------ a whole module

  /** What is known of a loaded module: its memory and base address, its sections, those
      named `.eh_frame`, and its relocations as address and symbol name. */
  datatype LoadedModule = LoadedModule(mem: Memory, base: Addr, sections: seq<DataRange>,
                                       ehSections: seq<DataRange>, relocations: seq<(Addr, string)>)

  /** The relocations against a typeinfo's vtable; the first at an address counts. */
  function TypeinfoRelocs(rs: seq<(Addr, string)>): map<Addr, string> {
    if rs == [] then map[]
    else
      var before, (at, name) := TypeinfoRelocs(rs[..|rs| - 1]), rs[|rs| - 1];
      if EndsWith(name, "_class_type_infoE") && at !in before then before[at := name] else before
  }

  /** Position `i` holds the first typeinfo relocation at its address. */
  predicate FirstTypeinfoReloc(rs: seq<(Addr, string)>, i: int) {
    && 0 <= i < |rs| && EndsWith(rs[i].1, "_class_type_infoE")
    && forall j :: 0 <= j < i && rs[j].0 == rs[i].0 ==> !EndsWith(rs[j].1, "_class_type_infoE")
  }

  lemma {:induction false} TypeinfoRelocsDomain(rs: seq<(Addr, string)>, a: Addr)
    ensures a in TypeinfoRelocs(rs) <==>
            exists i :: 0 <= i < |rs| && rs[i].0 == a && EndsWith(rs[i].1, "_class_type_infoE")
    decreases |rs|
  {
    hide EndsWith;
    if rs != [] {
      var most, n := rs[..|rs| - 1], |rs| - 1;
      TypeinfoRelocsDomain(most, a);
      if i :| 0 <= i < n && rs[i].0 == a && EndsWith(rs[i].1, "_class_type_infoE") {
        assert most[i] == rs[i];
      }
    }
  }

  lemma FirstRelocBefore(rs: seq<(Addr, string)>, n: nat, i: int)
    requires i < n <= |rs|
    ensures FirstTypeinfoReloc(rs[..n], i) == FirstTypeinfoReloc(rs, i)
  {
    hide EndsWith;
    assert forall j :: 0 <= j <= i ==> rs[..n][j] == rs[j];
  }

  lemma LastRelocIsFirst(rs: seq<(Addr, string)>)
    requires rs != []
    ensures var n := |rs| - 1;
            FirstTypeinfoReloc(rs, n) <==>
            EndsWith(rs[n].1, "_class_type_infoE") && rs[n].0 !in TypeinfoRelocs(rs[..n])
  {
    hide EndsWith, TypeinfoRelocs;
    TypeinfoRelocsDomain(rs[..|rs| - 1], rs[|rs| - 1].0);
  }

  /** The map holds, at each address, the symbol of the first typeinfo relocation there. */
  lemma {:induction false} TypeinfoRelocsFirst(rs: seq<(Addr, string)>, a: Addr, name: string)
    ensures (a in TypeinfoRelocs(rs) && TypeinfoRelocs(rs)[a] == name) <==>
            exists i :: FirstTypeinfoReloc(rs, i) && 0 <= i < |rs| && rs[i] == (a, name)
    decreases |rs|
  {
    hide EndsWith, FirstTypeinfoReloc;
    if rs == [] {
    } else {
      var most, n := rs[..|rs| - 1], |rs| - 1;
      TypeinfoRelocsFirst(most, a, name);
      LastRelocIsFirst(rs);
      forall i | 0 <= i < n ensures FirstTypeinfoReloc(most, i) == FirstTypeinfoReloc(rs, i) {
        FirstRelocBefore(rs, n, i);
      }
      if i :| FirstTypeinfoReloc(most, i) && 0 <= i < n && most[i] == (a, name) {
        assert FirstTypeinfoReloc(rs, i) && rs[i] == (a, name);
      }
      if i :| FirstTypeinfoReloc(rs, i) && 0 <= i < n && rs[i] == (a, name) {
        assert FirstTypeinfoReloc(most, i) && most[i] == (a, name);
      }
    }
  }

  method CollectTypeinfoRelocs(rs: seq<(Addr, string)>) returns (typeinfoRelocs: map<Addr, string>)
    ensures typeinfoRelocs == TypeinfoRelocs(rs)
  {
    typeinfoRelocs := map[];
    for i := 0 to |rs|
      invariant typeinfoRelocs == TypeinfoRelocs(rs[..i])
    {
      assert rs[..i + 1][..i] == rs[..i];
      if EndsWith(rs[i].1, "_class_type_infoE") {
        if rs[i].0 !in typeinfoRelocs { typeinfoRelocs := typeinfoRelocs[rs[i].0 := rs[i].1]; }
      }
    }
    assert rs[..|rs|] == rs;
  }

  function ScannedModule(g: LoadedModule): Module {
    Module(g.mem, g.base, g.sections, TypeinfoRelocs(g.relocations))
  }

  /** A module's sorted candidates, or the exception that ends the scan. */
  ghost function ModuleCandidates(g: LoadedModule): (r: Result<seq<Addr>>) {
    var functions := EhFrameRanges(g.mem, g.ehSections);
    if !(forall r :: r in functions.items ==> Fits(g.base, r)) then Err(OutOfRange)
    else if functions.error.Some? then Err(functions.error.value)
    else Candidates(ScannedModule(g), functions.items)
  }

  /** The entries that survive the run filter. */
  ghost function Survivors(g: LoadedModule): seq<Entry>
    requires ModuleCandidates(g).Ok? && AllHaveTypeinfo(g.mem, ModuleCandidates(g).value)
  {
    Filtered(Entries(g.mem, ModuleCandidates(g).value))
  }

  ghost predicate YieldsVtables(g: LoadedModule, r: Yields<Vtable>) {
    match ModuleCandidates(g)
    case Err(e) => r == Yields([], Some(e))
    case Ok(candidates) =>
      && AllHaveTypeinfo(g.mem, candidates)
      && AreRuns(Chunks(Survivors(g)))
      && r == Emit(g.mem, Chunks(Survivors(g)))
  }

  method GetVtablesFromModule(g: LoadedModule) returns (r: Yields<Vtable>)
    ensures YieldsVtables(g, r)
  {
    var functionRangeChecker := new DataRangeChecker(g.base);
    var functions := GetEhFrameRanges(g.mem, g.ehSections);
    var added := AddRanges(functionRangeChecker, functions.items);
    if added.Err? { return Yields([], Some(added.error)); }
    if functions.error.Some? { return Yields([], functions.error); }
    var typeinfoRelocs := CollectTypeinfoRelocs(g.relocations);
    var scanned := Module(g.mem, g.base, g.sections, typeinfoRelocs);
    var candidates := LocateCandidates(scanned, functionRangeChecker, functions.items);
    if candidates.Err? { return Yields([], Some(candidates.error)); }
    CandidatesHaveTypeinfo(scanned, functions.items);
    var entries := FilterRuns(g.mem, candidates.value);
    r := BuildChunks(g.mem, entries);
  }

  // ------------------------------------------------ candidates come from scanned words

  lemma {:induction false} UncoveredMembers(words: seq<Addr>, extents: seq<DataRange>, a: Addr)
    ensures multiset(Uncovered(words, extents))[a] == if Covered(extents, a) then 0 else multiset(words)[a]
    decreases |words|
  {
    if words != [] {
      var most, last := words[..|words| - 1], words[|words| - 1];
      assert words == most + [last];
      UncoveredMembers(most, extents, a);
    }
  }

  lemma {:induction false} InsertMembers(x: Addr, s: seq<Addr>)
    ensures multiset(Insert(x, s)) == multiset(s) + multiset{x}
  {
    if s != [] && x > s[0] {
      assert s == [s[0]] + s[1..];
      InsertMembers(x, s[1..]);
    }
  }

  lemma {:induction false} SortMembers(s: seq<Addr>)
    ensures multiset(Sort(s)) == multiset(s)
  {
    if s != [] {
      assert s == [s[0]] + s[1..];
      SortMembers(s[1..]);
      InsertMembers(s[0], Sort(s[1..]));
    }
  }

  lemma CandidatesHaveTypeinfo(g: Module, functions: seq<DataRange>)
    requires Candidates(g, functions).Ok?
    ensures AllHaveTypeinfo(g.mem, Candidates(g, functions).value)
  {
    var h := Scan(g, functions, Scanned(g.sections)).value;
    var kept := Uncovered(h.words, h.extents);
    var cs := Candidates(g, functions).value;
    SortMembers(PlusWord(kept));
    forall i | 0 <= i < |cs| ensures HasTypeinfo(g.mem, cs[i]) {
      assert cs[i] in multiset(cs);
      assert cs[i] in multiset(PlusWord(kept));
      var k :| 0 <= k < |kept| && PlusWord(kept)[k] == cs[i];
      assert kept[k] in multiset(kept);
      UncoveredMembers(h.words, h.extents, kept[k]);
      assert kept[k] in multiset(h.words);
      HitInWindow(g, functions, Scanned(g.sections), kept[k]);
    }
  }
}
