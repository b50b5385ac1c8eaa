/** Resolving named offsets: vtable slots through the module's vtable table, and byte
    signatures through masked search. */
module Offsets {
  import opened Machine
  import opened Bits
  import opened Runs
  import opened VtableScan

  // ------------------------------------------------------ the table of a whole module

  /** Chunk by chunk, the yields are the chunks under their typeinfos' names. */
  lemma {:induction false} EmitItems(m: Memory, chunks: seq<seq<Entry>>)
    requires AreRuns(chunks) && Emit(m, chunks).error.None?
    ensures |Emit(m, chunks).items| == |chunks|
    ensures forall k :: 0 <= k < |chunks| ==>
              NameOf(m, chunks[k][0].typeinfo) == Ok(Emit(m, chunks).items[k].0) &&
              Emit(m, chunks).items[k].1 == Vftables(chunks[k])
    decreases |chunks|
  {
    hide NameOf, Vftables;
    if chunks != [] {
      EmitItems(m, chunks[..|chunks| - 1]);
    }
  }

  /** The first chunk whose name cannot be read ends the yields with its exception, behind the
      chunks before it. */
  lemma {:induction false} EmitStops(m: Memory, chunks: seq<seq<Entry>>, k: nat)
    requires AreRuns(chunks) && k < |chunks| && NameOf(m, chunks[k][0].typeinfo).Err?
    requires forall n :: 0 <= n < k ==> NameOf(m, chunks[n][0].typeinfo).Ok?
    ensures var r := Emit(m, chunks);
            && r.error == Some(NameOf(m, chunks[k][0].typeinfo).error) && |r.items| == k
            && forall n :: 0 <= n < k ==>
                 NameOf(m, chunks[n][0].typeinfo) == Ok(r.items[n].0) && r.items[n].1 == Vftables(chunks[n])
    decreases |chunks|
  {
    hide NameOf, Vftables;
    var most := chunks[..|chunks| - 1];
    if k == |chunks| - 1 {
      AllNamed(m, most);
      EmitItems(m, most);
    } else {
      EmitStops(m, most, k);
    }
  }

  lemma {:induction false} AllNamed(m: Memory, chunks: seq<seq<Entry>>)
    requires AreRuns(chunks) && forall n :: 0 <= n < |chunks| ==> NameOf(m, chunks[n][0].typeinfo).Ok?
    ensures Emit(m, chunks).error.None?
    decreases |chunks|
  {
    hide NameOf, Vftables;
    if chunks != [] { AllNamed(m, chunks[..|chunks| - 1]); }
  }

  /** What a module yields: nothing but the exception if its scan throws, else its named chunks, all
      of them if and only if every name can be read. */
  lemma YieldsExactly(g: LoadedModule, r: Yields<Vtable>)
    requires YieldsVtables(g, r)
    ensures ModuleCandidates(g).Err? ==> r.items == [] && r.error == Some(ModuleCandidates(g).error)
    ensures ModuleCandidates(g).Ok? ==>
              && AllHaveTypeinfo(g.mem, ModuleCandidates(g).value) && AreRuns(Chunks(Survivors(g)))
              && (r.error.None? <==>
                  forall n :: 0 <= n < |Chunks(Survivors(g))| ==>
                    NameOf(g.mem, Chunks(Survivors(g))[n][0].typeinfo).Ok?)
  {
    hide ModuleCandidates, Survivors, Chunks, Emit, NameOf;
    if ModuleCandidates(g).Ok? {
      var chunks: seq<seq<Entry>> := Chunks(Survivors(g));
      if forall n :: 0 <= n < |chunks| ==> NameOf(g.mem, chunks[n][0].typeinfo).Ok? {
        AllNamed(g.mem, chunks);
      }
      if r.error.None? { EmitItems(g.mem, chunks); }
    }
  }

  /** Different typeinfos among the candidates have different names. */
  ghost predicate DistinctNames(m: Memory, es: seq<Entry>) {
    forall i, j :: 0 <= i < |es| && 0 <= j < |es| && es[i].typeinfo != es[j].typeinfo &&
                   NameOf(m, es[i].typeinfo).Ok? ==>
                     NameOf(m, es[i].typeinfo) != NameOf(m, es[j].typeinfo)
  }

  /** Some candidate after `i` of another typeinfo survives the run filter. */
  ghost predicate Flushed(es: seq<Entry>, i: nat)
    requires i < |es|
  {
    exists k :: i < k < |es| && Kept(es, k) && es[k].typeinfo != es[i].typeinfo
  }

  lemma SkipOrTake(es: seq<Entry>, k: nat)
    requires k < |es|
    ensures FilteredFrom(es, k) == (if Kept(es, k) then [es[k]] else []) + FilteredFrom(es, k + 1)
  {
    hide Kept;
  }

  lemma NoneLeft(es: seq<Entry>)
    ensures FilteredFrom(es, |es|) == []
  {
  }

  lemma {:induction false} FilteredFromMembers(es: seq<Entry>, n: nat, x: Entry)
    requires n <= |es|
    ensures x in FilteredFrom(es, n) <==> exists k :: n <= k < |es| && Kept(es, k) && es[k] == x
    decreases |es| - n
  {
    hide Kept, FilteredFrom;
    if n == |es| {
      NoneLeft(es);
    } else {
      SkipOrTake(es, n);
      FilteredFromMembers(es, n + 1, x);
    }
  }

  lemma NotFlushedIsUniform(es: seq<Entry>, i: nat, j: nat)
    requires FirstRun(es, i, j)
    ensures Uniform(es[i..j] + FilteredFrom(es, j)) <==> !Flushed(es, i)
  {
    var r, rest := es[i..j], FilteredFrom(es, j);
    if Flushed(es, i) {
      var k :| i < k < |es| && Kept(es, k) && es[k].typeinfo != es[i].typeinfo;
      FilteredFromMembers(es, j, es[k]);
      var n :| 0 <= n < |rest| && rest[n] == es[k];
      assert (r + rest)[|r| + n] == es[k] && (r + rest)[0] == es[i];
    } else {
      forall n | 0 <= n < |rest| ensures rest[n].typeinfo == es[i].typeinfo {
        FilteredFromMembers(es, j, rest[n]);
      }
    }
  }

  lemma {:induction false} FlattenContains(rs: seq<seq<Entry>>, k: nat, x: Entry)
    requires k < |rs| && x in rs[k]
    ensures x in Flatten(rs)
    decreases |rs|
  {
    if k < |rs| - 1 { FlattenContains(rs[..|rs| - 1], k, x); }
  }

  /** The survivors before a typeinfo's first run carry other typeinfos. */
  lemma EarlierRunsDiffer(es: seq<Entry>, i: nat)
    requires i < |es| && forall k :: 0 <= k < i ==> es[k].typeinfo != es[i].typeinfo
    ensures forall x :: x in Filtered(es[..i]) ==> x.typeinfo != es[i].typeinfo && x in es[..i]
    ensures AreRuns(RunsOf(Filtered(es[..i])))
    ensures forall k :: 0 <= k < |RunsOf(Filtered(es[..i]))| ==>
              RunsOf(Filtered(es[..i]))[k][0].typeinfo != es[i].typeinfo && RunsOf(Filtered(es[..i]))[k][0] in es[..i]
  {
    var before := Filtered(es[..i]);
    FilteredMembers(es[..i]);
    RunsPartition(before);
    forall k | 0 <= k < |RunsOf(before)|
      ensures RunsOf(before)[k][0].typeinfo != es[i].typeinfo && RunsOf(before)[k][0] in es[..i]
    {
      var r := RunsOf(before)[k];
      assert IsRun(r);
      assert r[0] in r;
      FlattenContains(RunsOf(before), k, r[0]);
    }
  }

  /** The run that a typeinfo's first run `[i, j)` becomes: extended by the survivors right
      after it that carry the same typeinfo. */
  ghost function FirstChunk(es: seq<Entry>, i: nat, j: nat): (r: seq<Entry>)
    requires i < j <= |es|
    ensures es[i..j] <= r
  {
    es[i..j] + Leading(FilteredFrom(es, j), es[i].typeinfo)
  }

  /** How the survivors split at a typeinfo's first run `[i, j)`: earlier runs of other
      typeinfos, then the run it becomes; that run is the last one exactly when nothing of
      another typeinfo survives later. */
  lemma SplitAtFirstRun(es: seq<Entry>, i: nat, j: nat)
    requires FirstRun(es, i, j)
    ensures var before, after := RunsOf(Filtered(es[..i])), RunsOf(es[i..j] + FilteredFrom(es, j));
            && after != [] && RunsOf(Filtered(es)) == before + after && after[0] == FirstChunk(es, i, j)
            && (|after| == 1 <==> !Flushed(es, i))
  {
    hide Filtered, FilteredFrom, RunsOf, Kept, Leading;
    var a, r, rest := Filtered(es[..i]), es[i..j], FilteredFrom(es, j);
    FilteredSplit(es, i);
    FirstRunSurvives(es, i, j, i);
    EarlierRunsDiffer(es, i);
    assert r[0] == es[i] && (r + rest)[0] == es[i];
    if a != [] { assert a[|a| - 1] in a; }
    RunsSplit(a, r + rest);
    assert IsRun(r);
    FirstRunContains(r, rest);
    NotFlushedIsUniform(es, i, j);
  }

  /** The typeinfo of the first run `[i, j)` has the name, and its first chunk is flushed. */
  ghost predicate Claims(m: Memory, es: seq<Entry>, i: nat, j: nat, name: string) {
    FirstRun(es, i, j) && Flushed(es, i) && NameOf(m, es[i].typeinfo) == Ok(name)
  }

  /** No earlier run claims the name. */
  ghost predicate FirstClaim(m: Memory, es: seq<Entry>, i: nat, j: nat, name: string) {
    Claims(m, es, i, j, name) && forall x: nat, y: nat :: x < i ==> !Claims(m, es, x, y, name)
  }

  /** The first run of an entry's typeinfo. */
  lemma RunOf(es: seq<Entry>, k: nat) returns (i: nat, j: nat)
    requires k < |es|
    ensures i <= k && FirstRun(es, i, j) && es[i].typeinfo == es[k].typeinfo
  {
    i := FirstWith(es, es[k].typeinfo, k);
    j := i + 1;
    while j < |es| && es[j].typeinfo == es[i].typeinfo
      invariant i < j <= |es|
      invariant forall n :: i <= n < j ==> es[n].typeinfo == es[i].typeinfo
    {
      j := j + 1;
    }
  }

  lemma {:induction false} FirstWith(es: seq<Entry>, t: Addr, k: nat) returns (i: nat)
    requires k < |es| && es[k].typeinfo == t
    ensures i <= k && es[i].typeinfo == t && forall n :: 0 <= n < i ==> es[n].typeinfo != t
  {
    if n: nat :| n < k && es[n].typeinfo == t {
      i := FirstWith(es, t, n);
    } else {
      i := k;
    }
  }

  /** An entry of another typeinfo before a first run starts is flushed by it. */
  lemma EarlierRunIsFlushed(es: seq<Entry>, x: nat, i: nat)
    requires x < i < |es| && es[x].typeinfo != es[i].typeinfo
    requires forall k :: 0 <= k < i ==> es[k].typeinfo != es[i].typeinfo
    ensures Flushed(es, x)
  {
    assert Kept(es, i);
  }

  /** The chunks of the table at a first run: those before it belong to typeinfos that came
      before, then comes its first chunk, unless nothing flushes it. */
  lemma ChunksAtFirstRun(es: seq<Entry>, i: nat, j: nat)
    requires FirstRun(es, i, j)
    ensures var chunks, n := Chunks(Filtered(es)), |RunsOf(Filtered(es[..i]))|;
            && n <= |chunks| && AreRuns(chunks)
            && (forall k :: 0 <= k < n ==> chunks[k][0] in es[..i] && chunks[k][0].typeinfo != es[i].typeinfo)
            && (if Flushed(es, i) then n < |chunks| && chunks[n] == FirstChunk(es, i, j) else n == |chunks|)
  {
    hide Filtered, FilteredFrom, RunsOf, Kept, FirstChunk;
    SplitAtFirstRun(es, i, j);
    EarlierRunsDiffer(es, i);
    ChunksOfSplit(Filtered(es), RunsOf(Filtered(es[..i])), RunsOf(es[i..j] + FilteredFrom(es, j)));
    RunsPartition(Filtered(es));
  }

  /** A chunk in front of a first run is claimed by an earlier first run. */
  lemma EarlierChunkIsClaimed(m: Memory, es: seq<Entry>, i: nat, e: Entry, name: string)
    requires i < |es| && e in es[..i] && e.typeinfo != es[i].typeinfo && NameOf(m, e.typeinfo) == Ok(name)
    requires forall k :: 0 <= k < i ==> es[k].typeinfo != es[i].typeinfo
    ensures exists x: nat, y: nat :: x < i && Claims(m, es, x, y, name)
  {
    hide NameOf, Kept;
    var k :| 0 <= k < i && es[k] == e;
    var x, y := RunOf(es, k);
    EarlierRunIsFlushed(es, x, i);
    assert Claims(m, es, x, y, name);
  }

  /** The items the chunks become, as a table. */
  lemma TableOfChunks(m: Memory, chunks: seq<seq<Entry>>, name: string)
    requires AreRuns(chunks) && Emit(m, chunks).error.None?
    ensures var table := InsertAll(map[], Emit(m, chunks).items);
            && (name in table <==> exists k :: 0 <= k < |chunks| && NameOf(m, chunks[k][0].typeinfo) == Ok(name))
            && forall k :: 0 <= k < |chunks| && NameOf(m, chunks[k][0].typeinfo) == Ok(name) &&
                           (forall n :: 0 <= n < k ==> NameOf(m, chunks[n][0].typeinfo) != Ok(name)) ==>
                 table[name] == Vftables(chunks[k])
  {
    hide Emit, InsertAll, NameOf, Vftables;
    EmitItems(m, chunks);
    FirstInsertWins(map[], Emit(m, chunks).items);
  }

  /** End to end over filter, chunker and table: a name is found if and only if some flushed
      first run claims it, and the entry is exactly the first chunk of the first one, in address
      order, that does. */
  lemma FirstClaimInTable(m: Memory, es: seq<Entry>, name: string)
    requires AreRuns(Chunks(Filtered(es))) && Emit(m, Chunks(Filtered(es))).error.None?
    ensures var table := InsertAll(map[], Emit(m, Chunks(Filtered(es))).items);
            && (name in table <==> exists i, j :: Claims(m, es, i, j, name))
            && forall i, j :: FirstClaim(m, es, i, j, name) ==>
                 name in table && table[name] == Vftables(FirstChunk(es, i, j))
  {
    hide Filtered, Emit, InsertAll, NameOf, Chunks, FirstChunk, Vftables;
    var chunks := Chunks(Filtered(es));
    TableOfChunks(m, chunks, name);
    if k :| 0 <= k < |chunks| && NameOf(m, chunks[k][0].typeinfo) == Ok(name) {
      ChunkIsClaimed(m, es, k, name);
    }
    forall i, j | Claims(m, es, i, j, name) ensures name in InsertAll(map[], Emit(m, chunks).items) {
      var n := ClaimedChunk(m, es, i, j, name);
    }
    forall i, j | FirstClaim(m, es, i, j, name)
      ensures InsertAll(map[], Emit(m, chunks).items)[name] == Vftables(FirstChunk(es, i, j))
    {
      var n := ClaimedChunk(m, es, i, j, name);
    }
  }

  /** A claim's chunk, and, for the first claim, no chunk of that name before it. */
  lemma ClaimedChunk(m: Memory, es: seq<Entry>, i: nat, j: nat, name: string) returns (n: nat)
    requires Claims(m, es, i, j, name)
    ensures var chunks := Chunks(Filtered(es));
            && AreRuns(chunks) && n < |chunks| && chunks[n] == FirstChunk(es, i, j)
            && NameOf(m, chunks[n][0].typeinfo) == Ok(name)
            && (FirstClaim(m, es, i, j, name) ==>
                  forall k :: 0 <= k < n ==> NameOf(m, chunks[k][0].typeinfo) != Ok(name))
  {
    hide Filtered, NameOf, Chunks, Flushed, RunsOf, FilteredFrom, Leading;
    var chunks := Chunks(Filtered(es));
    ChunksAtFirstRun(es, i, j);
    n := |RunsOf(Filtered(es[..i]))|;
    assert chunks[n][0] == es[i..j][0] == es[i];
    if FirstClaim(m, es, i, j, name) {
      forall k | 0 <= k < n ensures NameOf(m, chunks[k][0].typeinfo) != Ok(name) {
        if NameOf(m, chunks[k][0].typeinfo) == Ok(name) {
          EarlierChunkIsClaimed(m, es, i, chunks[k][0], name);
        }
      }
    }
  }

  lemma ChunkIsClaimed(m: Memory, es: seq<Entry>, k: nat, name: string)
    requires k < |Chunks(Filtered(es))| && AreRuns(Chunks(Filtered(es)))
    requires NameOf(m, Chunks(Filtered(es))[k][0].typeinfo) == Ok(name)
    ensures exists i, j :: Claims(m, es, i, j, name)
  {
    hide NameOf, FilteredFrom, FirstChunk, Flushed, Filtered, Chunks;
    var e := Chunks(Filtered(es))[k][0];
    var x := ChunkHeads(es, k);
    var i, j := RunOf(es, x);
    ChunksAtFirstRun(es, i, j);
    assert Claims(m, es, i, j, name);
  }

  lemma ChunkHeads(es: seq<Entry>, k: nat) returns (x: nat)
    requires k < |Chunks(Filtered(es))| && AreRuns(Chunks(Filtered(es)))
    ensures x < |es| && es[x] == Chunks(Filtered(es))[k][0]
  {
    hide Filtered, Flatten, Kept, RunsOf;
    var runs := RunsOf(Filtered(es));
    assert IsRun(Chunks(Filtered(es))[k]);
    RunsPartition(Filtered(es));
    FlattenContains(runs, k, runs[k][0]);
    FilteredMembers(es);
    x :| 0 <= x < |es| && es[x] == runs[k][0];
  }

  /** From the bytes: a typeinfo that holds a name claims it with its flushed first run, its
      first chunk is yielded under exactly that name, and the table holds it there unless an
      earlier run claimed the name. */
  lemma StoredNameInTable(m: Memory, es: seq<Entry>, i: nat, j: nat, p: Addr, name: string)
    requires FirstRun(es, i, j) && Flushed(es, i) && HoldsName(m, es[i].typeinfo, p, name)
    requires AreRuns(Chunks(Filtered(es))) && Emit(m, Chunks(Filtered(es))).error.None?
    ensures var items := Emit(m, Chunks(Filtered(es))).items;
            && Claims(m, es, i, j, name)
            && (exists n :: 0 <= n < |items| && items[n] == (name, Vftables(FirstChunk(es, i, j))))
            && name in InsertAll(map[], items)
            && (FirstClaim(m, es, i, j, name) ==> InsertAll(map[], items)[name] == Vftables(FirstChunk(es, i, j)))
  {
    hide Filtered, Emit, InsertAll, NameOf, Chunks, FirstChunk, Vftables, Flushed, HoldsName;
    NameReads(m, es[i].typeinfo, p, name);
    assert Claims(m, es, i, j, name);
    FirstClaimInTable(m, es, name);
    var n := ClaimedChunk(m, es, i, j, name);
    EmitItems(m, Chunks(Filtered(es)));
    var items := Emit(m, Chunks(Filtered(es))).items;
    assert items[n] == (name, Vftables(FirstChunk(es, i, j)));
  }

  /** With different names for different typeinfos, every flushed first run is the first to
      claim its name, and no other can. */
  lemma DistinctNamesClaim(m: Memory, es: seq<Entry>, i: nat, j: nat, name: string)
    requires DistinctNames(m, es) && FirstRun(es, i, j) && NameOf(m, es[i].typeinfo) == Ok(name)
    ensures Flushed(es, i) ==> FirstClaim(m, es, i, j, name)
    ensures forall x: nat, y: nat :: Claims(m, es, x, y, name) ==> x == i
  {
    hide NameOf, Flushed;
    forall x: nat, y: nat | Claims(m, es, x, y, name) ensures x == i {
      assert es[x].typeinfo == es[i].typeinfo;
    }
  }

  /** With different names for different typeinfos: a typeinfo whose first chunk is flushed is
      found under its name with exactly that chunk, and a typeinfo whose first chunk is not
      flushed is not found at all. */
  lemma FirstRunInTable(m: Memory, es: seq<Entry>, i: nat, j: nat)
    requires FirstRun(es, i, j) && DistinctNames(m, es)
    requires AreRuns(Chunks(Filtered(es))) && Emit(m, Chunks(Filtered(es))).error.None?
    ensures var table, name := InsertAll(map[], Emit(m, Chunks(Filtered(es))).items), NameOf(m, es[i].typeinfo);
            if Flushed(es, i) then
              name.Ok? && name.value in table && table[name.value] == Vftables(FirstChunk(es, i, j))
            else name.Ok? ==> name.value !in table
  {
    hide Filtered, Emit, InsertAll, NameOf, Chunks, FirstChunk, DistinctNames, Flushed;
    if Flushed(es, i) { FlushedHasName(m, es, i, j); }
    if NameOf(m, es[i].typeinfo).Ok? {
      var name := NameOf(m, es[i].typeinfo).value;
      DistinctNamesClaim(m, es, i, j, name);
      FirstClaimInTable(m, es, name);
    }
  }

  lemma FlushedHasName(m: Memory, es: seq<Entry>, i: nat, j: nat)
    requires FirstRun(es, i, j) && Flushed(es, i)
    requires AreRuns(Chunks(Filtered(es))) && Emit(m, Chunks(Filtered(es))).error.None?
    ensures NameOf(m, es[i].typeinfo).Ok?
  {
    hide Filtered, Emit, NameOf, Chunks, Flushed, RunsOf;
    ChunksAtFirstRun(es, i, j);
    EmitItems(m, Chunks(Filtered(es)));
    assert FirstChunk(es, i, j)[0] == es[i..j][0] == es[i];
  }

  /** The entry is the first run alone if and only if the next survivor carries another
      typeinfo; otherwise vftables from later in the module join it. */
  lemma FirstRunAlone(es: seq<Entry>, i: nat, j: nat)
    requires FirstRun(es, i, j) && Flushed(es, i)
    ensures var rest := FilteredFrom(es, j);
            rest != [] && (FirstChunk(es, i, j) == es[i..j] <==> rest[0].typeinfo != es[i].typeinfo)
  {
    hide FilteredFrom, Kept;
    var rest := FilteredFrom(es, j);
    var k :| i < k < |es| && Kept(es, k) && es[k].typeinfo != es[i].typeinfo;
    FilteredFromMembers(es, j, es[k]);
    var joined := Leading(rest, es[i].typeinfo);
    assert joined != [] ==> FirstChunk(es, i, j)[j - i] == joined[0];
  }

  // six vftables with typeinfos 2, 1, 2, 1, 1, 3
  function Interleaved(v: Addr): seq<Entry>
    requires v + 20 < ADDRESS_SPACE
  {
    [Entry(v, 2), Entry(v + 4, 1), Entry(v + 8, 2), Entry(v + 12, 1), Entry(v + 16, 1), Entry(v + 20, 3)]
  }

  /** It does happen: the filter drops the second 2 and the second 1, and the third 1 joins the
      first, although it belongs to a later run. */
  lemma LaterVftableCanJoin(v: Addr)
    requires v + 20 < ADDRESS_SPACE
    ensures var es := Interleaved(v);
            FirstRun(es, 1, 2) && Flushed(es, 1) && FirstChunk(es, 1, 2) == [es[1], es[4]]
  {
    hide FilteredFrom, Kept;
    var es := Interleaved(v);
    InterleavedKept(v);
    SkipOrTake(es, 5);
    SkipOrTake(es, 4);
    SkipOrTake(es, 3);
    SkipOrTake(es, 2);
    NoneLeft(es);
    assert FilteredFrom(es, 2) == [es[4], es[5]];
    JoinOne(es[4], es[5]);
    assert es[1..2] == [es[1]];
    assert es[5].typeinfo != es[1].typeinfo;
  }

  lemma InterleavedKept(v: Addr)
    requires v + 20 < ADDRESS_SPACE
    ensures var es := Interleaved(v); !Kept(es, 2) && !Kept(es, 3) && Kept(es, 4) && Kept(es, 5)
  {
    var es := Interleaved(v);
    assert es[0].typeinfo == es[2].typeinfo && es[1].typeinfo == es[3].typeinfo;
  }

  lemma JoinOne(x: Entry, y: Entry)
    requires x.typeinfo != y.typeinfo
    ensures Leading([x, y], x.typeinfo) == [x]
  {
    assert [x, y][..1] == [x] && [x][..0] == [];
    assert Leading([x], x.typeinfo) == [x];
  }

  lemma ChunksOfSplit(es: seq<Entry>, before: seq<seq<Entry>>, after: seq<seq<Entry>>)
    requires RunsOf(es) == before + after && after != []
    ensures Chunks(es) == before + after[..|after| - 1]
  {
  }

  // ------------------------------------------------------------------- vtable offsets

  function Digit(d: nat): char
    requires d < 10
  {
    ['0', '1', '2', '3', '4', '5', '6', '7', '8', '9'][d]
  }

  // the number a decimal string denotes
  function Denoted(s: string): nat
    requires forall k :: 0 <= k < |s| ==> '0' <= s[k] <= '9'
  {
    if s == "" then 0 else 10 * Denoted(s[..|s| - 1]) + (s[|s| - 1] as int - '0' as int)
  }

  // std::to_string
  function Decimal(n: nat): string {
    if n < 10 then [Digit(n)] else Decimal(n / 10) + [Digit(n % 10)]
  }

  /** Decimal digits without leading zeros that denote the number. */
  lemma {:induction false} DecimalDenotes(n: nat)
    ensures var s := Decimal(n);
            && s != "" && (forall k :: 0 <= k < |s| ==> '0' <= s[k] <= '9')
            && Denoted(s) == n && (s[0] == '0' ==> n == 0)
  {
    if n < 10 {
      assert [Digit(n)][..0] == "";
    } else {
      DecimalDenotes(n / 10);
      var s := Decimal(n / 10);
      assert (s + [Digit(n % 10)])[..|s|] == s;
    }
  }

  /** A slot of the `vftable`-th vftable of a class; the slot number is kept in 16 bits. */
  datatype VtableOffset = VtableOffset(modname: string, name: string, slot: Uint16, vftable: Uint16)

  type Uint16 = n: int | 0 <= n < 0x1_0000

  function NewVtableOffset(modname: string, name: string, slot: Addr, vftable: Uint16): VtableOffset {
    VtableOffset(modname, name, slot % 0x1_0000, vftable)
  }

  function VtableKey(name: string): string { Decimal(|name|) + name }

  // the pointer in slot `slot` of the vftable at `vftable`
  function SlotOf(m: Memory, vftable: Addr, slot: Uint16): (r: Result<Addr>) {
    var (address, _) :- Load32(m, Add32(vftable, 4 * slot));
    Ok(address)
  }

  /** The slot is the `slot`-th word from the vftable on. */
  lemma SlotReads(m: Memory, vftable: Addr, slot: Uint16, target: Addr)
    requires Stored(m, vftable + 4 * slot, LE(target, 4))
    ensures SlotOf(m, vftable, slot) == Ok(target)
  {
    hide Stored, LE, Load32;
    StoredNotEmpty(m, vftable + 4 * slot, LE(target, 4));
    WordReads(m, vftable + 4 * slot, target);
  }

  /** The key is the length of the class name in decimal, then the name. */
  lemma VtableKeyParts(name: string)
    ensures var key := VtableKey(name); var n := |key| - |name|;
            && n > 0 && key[n..] == name
            && (forall k :: 0 <= k < n ==> '0' <= key[..n][k] <= '9')
            && Denoted(key[..n]) == |name| && (key[0] == '0' ==> name == "")
  {
    DecimalDenotes(|name|);
    var key := VtableKey(name);
    assert key[..|key| - |name|] == Decimal(|name|);
    assert key[|key| - |name|..] == name;
  }

  function GetVtableAddress(m: Memory, modules: map<string, Vtables>, o: VtableOffset): (r: Result<Addr>) {
    if o.modname !in modules || VtableKey(o.name) !in modules[o.modname] then Err(OutOfRange)
    else
      var vftables := modules[o.modname][VtableKey(o.name)];
      if o.vftable >= |vftables| then Err(OutOfRange)
      else SlotOf(m, vftables[o.vftable], o.slot)
  }

  /** What an offset made for vftable `vftable` and slot `slot` of class `name` resolves to: the
      slot, modulo 2^16, of that entry of the class's first chunk, or out of range past it. */
  lemma VtableOffsetResolves(m: Memory, es: seq<Entry>, modules: map<string, Vtables>,
                             modname: string, name: string, slot: Addr, vftable: Uint16, i: nat, j: nat)
    requires AreRuns(Chunks(Filtered(es))) && Emit(m, Chunks(Filtered(es))).error.None?
    requires modname in modules && modules[modname] == InsertAll(map[], Emit(m, Chunks(Filtered(es))).items)
    requires FirstClaim(m, es, i, j, VtableKey(name))
    ensures var chunk := FirstChunk(es, i, j);
            GetVtableAddress(m, modules, NewVtableOffset(modname, name, slot, vftable))
            == if vftable < |chunk| then SlotOf(m, chunk[vftable].vftable, slot % 0x1_0000) else Err(OutOfRange)
    ensures i + vftable < j ==> FirstChunk(es, i, j)[vftable] == es[i + vftable]
    ensures forall target: Addr :: SlotStored(m, FirstChunk(es, i, j), vftable, slot, target) ==>
              GetVtableAddress(m, modules, NewVtableOffset(modname, name, slot, vftable)) == Ok(target)
  {
    hide Emit, InsertAll, NameOf, Flushed, Filtered, SlotOf, FirstChunk, SlotStored;
    FirstClaimInTable(m, es, VtableKey(name));
    assert es[i..j] <= FirstChunk(es, i, j);
    forall target: Addr | SlotStored(m, FirstChunk(es, i, j), vftable, slot, target)
      ensures vftable < |FirstChunk(es, i, j)|
      ensures SlotOf(m, FirstChunk(es, i, j)[vftable].vftable, slot % 0x1_0000) == Ok(target)
    {
      StoredSlotReads(m, FirstChunk(es, i, j), vftable, slot, target);
    }
  }

  /** The word at the slot, taken modulo 2^16, of the chunk's `vftable`-th vftable is `target`. */
  ghost predicate SlotStored(m: Memory, chunk: seq<Entry>, vftable: nat, slot: Addr, target: Addr) {
    vftable < |chunk| && Stored(m, chunk[vftable].vftable + 4 * (slot % 0x1_0000), LE(target, 4))
  }

  lemma StoredSlotReads(m: Memory, chunk: seq<Entry>, vftable: nat, slot: Addr, target: Addr)
    requires SlotStored(m, chunk, vftable, slot, target)
    ensures vftable < |chunk| && SlotOf(m, chunk[vftable].vftable, slot % 0x1_0000) == Ok(target)
  {
    SlotReads(m, chunk[vftable].vftable, slot % 0x1_0000, target);
  }

  /** A module that was not scanned, or a class no flushed run claims, is out of range. */
  lemma UnclaimedIsOutOfRange(m: Memory, es: seq<Entry>, modules: map<string, Vtables>, o: VtableOffset)
    requires AreRuns(Chunks(Filtered(es))) && Emit(m, Chunks(Filtered(es))).error.None?
    requires o.modname in modules ==> modules[o.modname] == InsertAll(map[], Emit(m, Chunks(Filtered(es))).items)
    requires o.modname !in modules || forall i, j :: !Claims(m, es, i, j, VtableKey(o.name))
    ensures GetVtableAddress(m, modules, o) == Err(OutOfRange)
  {
    hide Emit, InsertAll, Claims, SlotOf, VtableKey;
    FirstClaimInTable(m, es, VtableKey(o.name));
  }

  /** `es` are the candidates of module `g`, and `table` is what its scan yields, `r`,
      inserted in order. */
  ghost predicate ModuleTable(g: LoadedModule, r: Yields<Vtable>, es: seq<Entry>, table: Vtables) {
    && ModuleCandidates(g).Ok? && AllHaveTypeinfo(g.mem, ModuleCandidates(g).value)
    && es == Entries(g.mem, ModuleCandidates(g).value)
    && YieldsVtables(g, r) && r.error.None? && table == InsertAll(map[], r.items)
  }

  /** The same for a whole module, from its sorted candidates on. */
  lemma ModuleOffsetResolves(g: LoadedModule, r: Yields<Vtable>, es: seq<Entry>, modules: map<string, Vtables>,
                             modname: string, name: string, slot: Addr, vftable: Uint16, i: nat, j: nat)
    requires modname in modules && ModuleTable(g, r, es, modules[modname])
    requires FirstClaim(g.mem, es, i, j, VtableKey(name))
    ensures var chunk := FirstChunk(es, i, j);
            GetVtableAddress(g.mem, modules, NewVtableOffset(modname, name, slot, vftable))
            == if vftable < |chunk| then SlotOf(g.mem, chunk[vftable].vftable, slot % 0x1_0000) else Err(OutOfRange)
    ensures i + vftable < j ==> FirstChunk(es, i, j)[vftable] == es[i + vftable]
    ensures forall target: Addr :: SlotStored(g.mem, FirstChunk(es, i, j), vftable, slot, target) ==>
              GetVtableAddress(g.mem, modules, NewVtableOffset(modname, name, slot, vftable)) == Ok(target)
  {
    hide Emit, InsertAll, NameOf, Flushed, Filtered, Chunks, AreRuns, SlotOf, FirstChunk, SlotStored;
    VtableOffsetResolves(g.mem, es, modules, modname, name, slot, vftable, i, j);
  }

  // ---------------------------------------------------------------- byte signatures

  datatype Signature = Signature(bytes: seq<Byte>, mask: seq<Byte>)

  /** The constructor refuses an empty signature and a mask of another length. */
  predicate IsSignature(s: Signature) {
    |s.bytes| == |s.mask| && |s.bytes| > 0
  }

  /** At position `at` the data agree with the signature on every bit of the mask. */
  ghost predicate Matches(data: seq<Byte>, at: nat, s: Signature)
    requires IsSignature(s)
  {
    && at + |s.bytes| <= |data|
    && forall k, bit: nat :: 0 <= k < |s.bytes| && Bit(s.mask[k], bit) ==>
         Bit(data[at + k], bit) == Bit(s.bytes[k], bit)
  }

  /** The least matching position wins; the search throws only when there is none. */
  method FindSignature(data: seq<Byte>, begin: Addr, s: Signature) returns (r: Result<Addr>)
    requires IsSignature(s)
    ensures r.Ok? ==> exists at: nat :: Matches(data, at, s) && r.value == (begin + at) % ADDRESS_SPACE
                                        && forall p: nat :: p < at ==> !Matches(data, p, s)
    ensures r.Err? ==> r.error == NotFound && forall p: nat :: !Matches(data, p, s)
  {
    var n := |s.bytes|;
    var idx := 0;
    while idx + n <= |data|
      invariant forall p: nat :: p < idx ==> !Matches(data, p, s)
    {
      var all := true;
      for k := 0 to n
        invariant all <==> forall q :: 0 <= q < k ==> BitAnd(data[idx + q], s.mask[q]) == BitAnd(s.bytes[q], s.mask[q])
      {
        all := all && BitAnd(data[idx + k], s.mask[k]) == BitAnd(s.bytes[k], s.mask[k]);
      }
      MatchesByMask(data, idx, s);
      if all { return Ok((begin + idx) % ADDRESS_SPACE); }
      idx := idx + 1;
    }
    return Err(NotFound);
  }

  lemma MatchesByMask(data: seq<Byte>, at: nat, s: Signature)
    requires IsSignature(s) && at + |s.bytes| <= |data|
    ensures Matches(data, at, s) <==>
            forall k :: 0 <= k < |s.bytes| ==> BitAnd(data[at + k], s.mask[k]) == BitAnd(s.bytes[k], s.mask[k])
  {
    forall k | 0 <= k < |s.bytes|
      ensures BitAnd(data[at + k], s.mask[k]) == BitAnd(s.bytes[k], s.mask[k]) <==>
              forall bit: nat :: Bit(s.mask[k], bit) ==> Bit(data[at + k], bit) == Bit(s.bytes[k], bit)
    {
      AndAgrees(data[at + k], s.bytes[k], s.mask[k]);
    }
  }

  /** Every bit of mask `t` is a bit of mask `s`. */
  ghost predicate MaskWithin(t: seq<Byte>, s: seq<Byte>)
    requires |t| == |s|
  {
    forall k, bit: nat :: 0 <= k < |t| && Bit(t[k], bit) ==> Bit(s[k], bit)
  }

  ghost predicate FirstMatch(data: seq<Byte>, at: nat, s: Signature)
    requires IsSignature(s)
  {
    Matches(data, at, s) && forall p: nat :: p < at ==> !Matches(data, p, s)
  }

  /** Clearing mask bits never loses the hit and never moves it to a later position. */
  lemma LooserMaskHitsEarlier(data: seq<Byte>, at: nat, s: Signature, mask: seq<Byte>)
    requires IsSignature(s) && |mask| == |s.mask| && MaskWithin(mask, s.mask)
    requires FirstMatch(data, at, s)
    ensures exists p: nat :: p <= at && FirstMatch(data, p, s.(mask := mask))
  {
    var t := s.(mask := mask);
    assert Matches(data, at, t);
    var p := LeastMatch(data, at, t);
  }

  lemma {:induction false} LeastMatch(data: seq<Byte>, at: nat, s: Signature) returns (p: nat)
    requires IsSignature(s) && Matches(data, at, s)
    ensures p <= at && FirstMatch(data, p, s)
  {
    if q: nat :| q < at && Matches(data, q, s) {
      p := LeastMatch(data, q, s);
    } else {
      p := at;
    }
  }
}
