/** Sequences of vftable candidates: the run filter, the split into runs of one typeinfo,
    and the table of first runs by name. */
module Runs {
  import opened Machine

  /** A vftable and the typeinfo stored in the word before it. */
  datatype Entry = Entry(vftable: Addr, typeinfo: Addr)

  // ----------------------------------------------------------------- the run filter

  /** Candidate `i` survives unless its typeinfo differs from its predecessor's and
      occurred before. */
  ghost predicate Kept(es: seq<Entry>, i: nat)
    requires i < |es|
  {
    || i == 0
    || es[i].typeinfo == es[i - 1].typeinfo
    || forall j :: 0 <= j < i ==> es[j].typeinfo != es[i].typeinfo
  }

  /** The typeinfo differs from the immediate predecessor's and occurred before. */
  ghost predicate Returns(es: seq<Entry>, k: nat)
    requires k < |es|
  {
    k > 0 && es[k].typeinfo != es[k - 1].typeinfo && es[k].typeinfo in Typeinfos(es[..k])
  }

  function Typeinfos(es: seq<Entry>): (ts: seq<Addr>)
    ensures |ts| == |es| && forall k :: 0 <= k < |es| ==> ts[k] == es[k].typeinfo
  {
    seq(|es|, k requires 0 <= k < |es| => es[k].typeinfo)
  }

  ghost function Filtered(es: seq<Entry>): seq<Entry> {
    if es == [] then []
    else
      var k := |es| - 1;
      Filtered(es[..k]) + (if Kept(es, k) then [es[k]] else [])
  }

  lemma KeptPrefix(es: seq<Entry>, n: nat, i: nat)
    requires i < n <= |es|
    ensures Kept(es[..n], i) == Kept(es, i)
  {
    assert forall j :: 0 <= j <= i ==> es[..n][j] == es[j];
  }

  /** `kept` lists the kept candidates, which stand at `positions`, each once and in order. */
  ghost predicate KeptAt(es: seq<Entry>, kept: seq<Entry>, positions: seq<nat>) {
    && |positions| == |kept|
    && (forall n :: 0 <= n < |positions| ==> positions[n] < |es| && kept[n] == es[positions[n]])
    && (forall i, j :: 0 <= i < j < |positions| ==> positions[i] < positions[j])
    && (forall k: nat :: k in positions <==> k < |es| && Kept(es, k))
  }

  lemma {:induction false} FilteredPositions(es: seq<Entry>) returns (positions: seq<nat>)
    ensures KeptAt(es, Filtered(es), positions)
    decreases |es|
  {
    hide Kept, KeptAt;
    if es == [] {
      positions := [];
      NothingKept();
    } else {
      var most := es[..|es| - 1];
      positions := FilteredPositions(most);
      KeptOneMore(es, Filtered(most), positions);
      if Kept(es, |es| - 1) { positions := positions + [|es| - 1]; }
    }
  }

  lemma NothingKept()
    ensures KeptAt([], [], [])
  {
  }

  lemma KeptOneMore(es: seq<Entry>, kept: seq<Entry>, positions: seq<nat>)
    requires es != [] && KeptAt(es[..|es| - 1], kept, positions)
    ensures var k := |es| - 1;
            if Kept(es, k) then KeptAt(es, kept + [es[k]], positions + [k]) else KeptAt(es, kept + [], positions)
  {
    hide Kept;
    var k := |es| - 1;
    assert kept + [] == kept;
    assert forall n :: 0 <= n < |positions| ==> positions[n] in positions;
    forall i | 0 <= i < k ensures Kept(es[..k], i) == Kept(es, i) { KeptPrefix(es, k, i); }
  }

  /** The survivors are exactly the kept candidates, each once and in order. */
  lemma FilteredExact(es: seq<Entry>) returns (positions: seq<nat>)
    ensures KeptAt(es, Filtered(es), positions)
    ensures forall k: nat :: k < |es| ==> (k in positions <==> !Returns(es, k))
  {
    positions := FilteredPositions(es);
  }

  /** An entry survives if and only if it stands at a kept position. */
  lemma FilteredMembers(es: seq<Entry>)
    ensures forall x :: x in Filtered(es) <==> exists i :: 0 <= i < |es| && Kept(es, i) && es[i] == x
  {
    hide Kept, Filtered;
    var positions := FilteredExact(es);
    forall i: nat | i < |es| && Kept(es, i) ensures es[i] in Filtered(es) {
      var n :| 0 <= n < |positions| && positions[n] == i;
      assert Filtered(es)[n] == es[i];
    }
    forall n | 0 <= n < |positions| ensures Kept(es, positions[n]) {
      assert positions[n] in positions;
    }
  }

  lemma FilteredSnoc(es: seq<Entry>, n: nat)
    requires n < |es|
    ensures Filtered(es[..n + 1]) == Filtered(es[..n]) + (if Kept(es, n) then [es[n]] else [])
  {
    assert es[..n + 1][..n] == es[..n];
    KeptPrefix(es, n + 1, n);
  }

  /** Filtering from candidate `i` on only appends. */
  ghost function FilteredFrom(es: seq<Entry>, i: nat): seq<Entry>
    requires i <= |es|
    decreases |es| - i
  {
    if i == |es| then [] else (if Kept(es, i) then [es[i]] else []) + FilteredFrom(es, i + 1)
  }

  lemma {:induction false} FilteredSplit(es: seq<Entry>, i: nat)
    requires i <= |es|
    ensures Filtered(es) == Filtered(es[..i]) + FilteredFrom(es, i)
    decreases |es| - i
  {
    hide Kept;
    if i == |es| {
      assert es[..i] == es;
    } else {
      FilteredSplit(es, i + 1);
      FilteredSnoc(es, i);
      AppendAssociates(Filtered(es[..i]), if Kept(es, i) then [es[i]] else [], FilteredFrom(es, i + 1));
    }
  }

  /** `[i, j)` is the first maximal run of its typeinfo. */
  ghost predicate FirstRun(es: seq<Entry>, i: nat, j: nat) {
    && i < j <= |es|
    && (forall k :: 0 <= k < i ==> es[k].typeinfo != es[i].typeinfo)
    && (forall k :: i <= k < j ==> es[k].typeinfo == es[i].typeinfo)
    && (j == |es| || es[j].typeinfo != es[i].typeinfo)
  }

  /** A typeinfo's first run survives the filter whole. */
  lemma {:induction false} FirstRunSurvives(es: seq<Entry>, i: nat, j: nat, n: nat)
    requires FirstRun(es, i, j) && i <= n <= j
    ensures FilteredFrom(es, n) == es[n..j] + FilteredFrom(es, j)
    decreases j - n
  {
    hide FirstRun, Kept;
    FirstRunKept(es, i, j, n);
    if n < j {
      FirstRunSurvives(es, i, j, n + 1);
      assert es[n..j] == [es[n]] + es[n + 1..j];
      AppendAssociates([es[n]], es[n + 1..j], FilteredFrom(es, j));
    }
  }

  lemma FirstRunKept(es: seq<Entry>, i: nat, j: nat, n: nat)
    requires FirstRun(es, i, j) && i <= n <= j
    ensures j <= |es| && (n < j ==> Kept(es, n))
  {
  }

  // ------------------------------------------------------------------- runs

  /** The last run grows, or a new one starts. */
  function AddToRuns(rs: seq<seq<Entry>>, x: Entry): (r: seq<seq<Entry>>)
    ensures r != []
  {
    if rs == [] || rs[|rs| - 1] == [] || rs[|rs| - 1][0].typeinfo != x.typeinfo then rs + [[x]]
    else rs[..|rs| - 1] + [rs[|rs| - 1] + [x]]
  }

  /** The maximal runs of equal typeinfo, in order. */
  function RunsOf(es: seq<Entry>): (rs: seq<seq<Entry>>)
    ensures es != [] ==> rs != []
  {
    if es == [] then [] else AddToRuns(RunsOf(es[..|es| - 1]), es[|es| - 1])
  }

  function Flatten(rs: seq<seq<Entry>>): seq<Entry> {
    if rs == [] then [] else Flatten(rs[..|rs| - 1]) + rs[|rs| - 1]
  }

  ghost predicate Uniform(r: seq<Entry>) {
    forall k :: 0 <= k < |r| ==> r[k].typeinfo == r[0].typeinfo
  }

  ghost predicate IsRun(r: seq<Entry>) {
    r != [] && Uniform(r)
  }

  ghost predicate Differ(r: seq<Entry>, s: seq<Entry>)
    requires r != [] && s != []
  {
    r[0].typeinfo != s[0].typeinfo
  }

  /** Nonempty, each of one typeinfo, neighbours of different ones. */
  ghost predicate AreRuns(rs: seq<seq<Entry>>) {
    && (forall i :: 0 <= i < |rs| ==> IsRun(rs[i]))
    && (forall i, j :: 0 <= i && j == i + 1 < |rs| ==> Differ(rs[i], rs[j]))
  }

  lemma FlattenSnoc(rs: seq<seq<Entry>>, r: seq<Entry>)
    ensures Flatten(rs + [r]) == Flatten(rs) + r
  {
    assert (rs + [r])[..|rs|] == rs;
  }

  lemma AddKeepsRuns(rs: seq<seq<Entry>>, x: Entry)
    requires AreRuns(rs)
    ensures AreRuns(AddToRuns(rs, x)) && Flatten(AddToRuns(rs, x)) == Flatten(rs) + [x]
  {
    hide Flatten;
    if rs == [] || rs[|rs| - 1][0].typeinfo != x.typeinfo {
      FlattenSnoc(rs, [x]);
    } else {
      var most, last := rs[..|rs| - 1], rs[|rs| - 1];
      assert IsRun(last);
      assert rs == most + [last];
      FlattenSnoc(most, last);
      FlattenSnoc(most, last + [x]);
      AppendAssociates(Flatten(most), last, [x]);
      assert IsRun(last + [x]);
    }
  }

  lemma {:induction false} RunsPartition(es: seq<Entry>)
    ensures AreRuns(RunsOf(es)) && Flatten(RunsOf(es)) == es
    decreases |es|
  {
    if es != [] {
      hide AddToRuns, Flatten, AreRuns;
      var before, x := es[..|es| - 1], es[|es| - 1];
      RunsPartition(before);
      AddKeepsRuns(RunsOf(before), x);
      assert es == before + [x];
    } else {
      assert Flatten([]) == [];
    }
  }

  lemma RunsSnoc(es: seq<Entry>, x: Entry)
    ensures RunsOf(es + [x]) == AddToRuns(RunsOf(es), x)
  {
    assert (es + [x])[..|es|] == es;
  }

  lemma AddOnTheRight(a: seq<seq<Entry>>, b: seq<seq<Entry>>, x: Entry)
    requires b != []
    ensures AddToRuns(a + b, x) == a + AddToRuns(b, x)
  {
    assert (a + b)[..|a + b| - 1] == a + b[..|b| - 1];
  }

  lemma {:induction false} LastRun(es: seq<Entry>)
    requires es != []
    ensures var r := RunsOf(es)[|RunsOf(es)| - 1]; r != [] && r[0].typeinfo == es[|es| - 1].typeinfo
  {
    RunsPartition(es[..|es| - 1]);
    AddKeepsRuns(RunsOf(es[..|es| - 1]), es[|es| - 1]);
  }

  lemma NewRun(a: seq<Entry>, x: Entry)
    requires a == [] || a[|a| - 1].typeinfo != x.typeinfo
    ensures AddToRuns(RunsOf(a), x) == RunsOf(a) + [[x]] && AddToRuns(RunsOf([]), x) == RunsOf([]) + [[x]]
    ensures RunsOf([]) == []
  {
    if a != [] { LastRun(a); }
  }

  /** Runs do not reach across a change of typeinfo. */
  lemma {:induction false} RunsSplit(a: seq<Entry>, b: seq<Entry>)
    requires b != [] && (a == [] || a[|a| - 1].typeinfo != b[0].typeinfo)
    ensures RunsOf(a + b) == RunsOf(a) + RunsOf(b)
    decreases |b|
  {
    hide AddToRuns, RunsOf;
    var before, x := b[..|b| - 1], b[|b| - 1];
    assert a + b == (a + before) + [x] && b == before + [x];
    RunsSnoc(a + before, x);
    RunsSnoc(before, x);
    if before == [] {
      assert a + before == a;
      NewRun(a, x);
    } else {
      RunsSplit(a, before);
      AddOnTheRight(RunsOf(a), RunsOf(before), x);
    }
  }

  /** The longest part at the start that carries typeinfo `t`. */
  function Leading(es: seq<Entry>, t: Addr): (r: seq<Entry>)
    ensures r <= es && (forall k :: 0 <= k < |r| ==> r[k].typeinfo == t)
    ensures |r| < |es| ==> es[|r|].typeinfo != t
    decreases |es|
  {
    if es == [] then []
    else
      var n := |es| - 1;
      var before := Leading(es[..n], t);
      if |before| == n && es[n].typeinfo == t then es else before
  }

  /** The first run of a sequence that starts with a uniform part contains that part, and
      is the only run exactly when the whole sequence is uniform. */
  lemma {:induction false} FirstRunContains(r: seq<Entry>, rest: seq<Entry>)
    requires IsRun(r)
    ensures RunsOf(r + rest)[0] == r + Leading(rest, r[0].typeinfo)
    ensures |RunsOf(r + rest)| == 1 <==> Uniform(r + rest)
    decreases |rest|
  {
    hide RunsOf, Leading, Uniform, AddToRuns;
    if rest == [] {
      assert r + rest == r;
      UniformIsOneRun(r);
    } else {
      var before, x := rest[..|rest| - 1], rest[|rest| - 1];
      FirstRunContains(r, before);
      assert rest == before + [x];
      AppendAssociates(r, before, [x]);
      RunsSnoc(r + before, x);
      UniformSnoc(r + before, x);
      LeadingWhole(r, before);
      LeadingSnoc(before, x, r[0].typeinfo);
      LastRun(r + before);
      FirstOfGrown(RunsOf(r + before), x);
    }
  }

  lemma LeadingSnoc(es: seq<Entry>, x: Entry, t: Addr)
    ensures Leading(es + [x], t) == if |Leading(es, t)| == |es| && x.typeinfo == t then es + [x] else Leading(es, t)
  {
    assert (es + [x])[..|es|] == es;
  }

  /** Adding an entry touches the first run only while it is the last one. */
  lemma FirstOfGrown(rs: seq<seq<Entry>>, x: Entry)
    requires rs != [] && rs[|rs| - 1] != []
    ensures AddToRuns(rs, x)[0] ==
            if |rs| == 1 && rs[0][0].typeinfo == x.typeinfo then rs[0] + [x] else rs[0]
    ensures |AddToRuns(rs, x)| == 1 <==> |rs| == 1 && rs[0][0].typeinfo == x.typeinfo
  {
  }

  lemma LeadingWhole(r: seq<Entry>, rest: seq<Entry>)
    requires IsRun(r)
    ensures Uniform(r + rest) <==> |Leading(rest, r[0].typeinfo)| == |rest|
  {
    var n := |Leading(rest, r[0].typeinfo)|;
    if n < |rest| {
      assert (r + rest)[|r| + n] == rest[n];
    }
  }

  lemma UniformSnoc(es: seq<Entry>, x: Entry)
    requires es != []
    ensures Uniform(es + [x]) <==> Uniform(es) && x.typeinfo == es[0].typeinfo
    ensures |RunsOf(es)| == 1 ==> RunsOf(es)[0] == es
  {
    if Uniform(es + [x]) {
      assert (es + [x])[|es|] == x;
      assert forall k :: 0 <= k < |es| ==> (es + [x])[k] == es[k];
    }
    RunsPartition(es);
    if |RunsOf(es)| == 1 {
      FlattenSnoc([], RunsOf(es)[0]);
      assert [] + [RunsOf(es)[0]] == RunsOf(es);
    }
  }

  lemma {:induction false} UniformIsOneRun(r: seq<Entry>)
    requires IsRun(r)
    ensures RunsOf(r) == [r]
    decreases |r|
  {
    if |r| == 1 {
      assert r == [r[0]] && r[..0] == [];
      assert RunsOf(r[..0]) == [];
    } else {
      hide AddToRuns;
      var most, x := r[..|r| - 1], r[|r| - 1];
      UniformIsOneRun(most);
      GrowOnlyRun(most, x);
      assert r == most + [x];
    }
  }

  lemma GrowOnlyRun(r: seq<Entry>, x: Entry)
    requires r != [] && r[0].typeinfo == x.typeinfo
    ensures AddToRuns([r], x) == [r + [x]]
  {
  }

  /** The chunker never emits the last run. */
  function Chunks(es: seq<Entry>): seq<seq<Entry>> {
    if es == [] then [] else RunsOf(es)[..|RunsOf(es)| - 1]
  }

  /** Chunks are nonempty, of one typeinfo each, neighbours differ, and together they are
      the entries minus their last run. */
  lemma ChunksPartition(es: seq<Entry>)
    requires es != []
    ensures AreRuns(Chunks(es))
    ensures var last := RunsOf(es)[|RunsOf(es)| - 1];
            && es == Flatten(Chunks(es)) + last && IsRun(last)
            && (Chunks(es) != [] ==> Differ(Chunks(es)[|Chunks(es)| - 1], last))
  {
    RunsPartition(es);
    var rs := RunsOf(es);
    FlattenSnoc(rs[..|rs| - 1], rs[|rs| - 1]);
    assert rs == rs[..|rs| - 1] + [rs[|rs| - 1]];
  }

  // ------------------------------------------------------------ first insertion wins

  type Vtables = map<string, seq<Addr>>
  type Vtable = (string, seq<Addr>)

  /** `flat_hash_map::insert`: an existing key keeps its value. */
  function InsertNew(vs: Vtables, v: Vtable): Vtables {
    if v.0 in vs then vs else vs[v.0 := v.1]
  }

  function InsertAll(vs: Vtables, items: seq<Vtable>): Vtables
    decreases |items|
  {
    if items == [] then vs else InsertAll(InsertNew(vs, items[0]), items[1..])
  }

  lemma {:induction false} FirstInsertWins(vs: Vtables, items: seq<Vtable>)
    ensures forall s :: s in InsertAll(vs, items) <==> s in vs || exists i :: 0 <= i < |items| && items[i].0 == s
    ensures forall s :: s in vs ==> InsertAll(vs, items)[s] == vs[s]
    ensures forall i :: 0 <= i < |items| && items[i].0 !in vs && (forall j :: 0 <= j < i ==> items[j].0 != items[i].0)
              ==> InsertAll(vs, items)[items[i].0] == items[i].1
    decreases |items|
  {
    if items != [] {
      var next := InsertNew(vs, items[0]);
      var rest := items[1..];
      FirstInsertWins(next, rest);
      forall s ensures s in InsertAll(vs, items) <==> s in vs || exists i :: 0 <= i < |items| && items[i].0 == s {
        if i :| 0 <= i < |rest| && rest[i].0 == s { assert items[i + 1].0 == s; }
        if i :| 0 <= i < |items| && items[i].0 == s {
          if i > 0 { assert rest[i - 1].0 == s; } else { assert s in next; }
        }
      }
      forall i | 0 <= i < |items| && items[i].0 !in vs && (forall j :: 0 <= j < i ==> items[j].0 != items[i].0)
        ensures InsertAll(vs, items)[items[i].0] == items[i].1
      {
        if i > 0 {
          assert items[0].0 != items[i].0;
          assert forall j :: 0 <= j < i - 1 ==> rest[j].0 == items[j + 1].0;
          assert rest[i - 1].0 == items[i].0;
        }
      }
    }
  }
}
