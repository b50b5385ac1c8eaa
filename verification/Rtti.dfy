/** Finding a module's vftables by their type information (Itanium C++ ABI, sections 2.5.2
    and 2.9.5): candidate search, run filter and chunker. */
module Rtti {
  import opened Machine
  import opened RangeChecker

  predicate EndsWith(s: string, suffix: string) {
    |suffix| <= |s| && s[|s| - |suffix|..] == suffix
  }

  /** What the scan of one module looks at: its memory and base address, the ranges of its
      sections, and its typeinfo relocations. */
  datatype Module = Module(mem: Memory, base: Addr, sections: seq<DataRange>, relocs: map<Addr, string>)

  // ------------------------------------------------------------- size of a typeinfo

  /** A plain class, a single base, or `baseCount` bases; the size wraps at 32 bits. */
  function TypeinfoSize(m: Memory, relocs: map<Addr, string>, addr: Addr): (r: Result<Addr>) {
    if addr !in relocs then Err(OutOfRange)
    else if EndsWith(relocs[addr], "__si_class_type_infoE") then Ok(12)
    else if EndsWith(relocs[addr], "__vmi_class_type_infoE") then
      var (baseCount, _) :- Load32(m, Add32(addr, 12));
      Ok((16 + 8 * baseCount) % ADDRESS_SPACE)
    else if EndsWith(relocs[addr], "__class_type_infoE") then Ok(8)
    else Err(UnknownRttiType)
  }

  method GetTypeinfoSize(m: Memory, relocs: map<Addr, string>, addr: Addr) returns (r: Result<Addr>)
    ensures r == TypeinfoSize(m, relocs, addr)
  {
    hide EndsWith, Load32, Add32;
    if addr !in relocs { return Err(OutOfRange); }
    var vtableType := relocs[addr];
    var size: Addr := 8;
    if EndsWith(vtableType, "__si_class_type_infoE") {
      size := size + 4;
    } else if EndsWith(vtableType, "__vmi_class_type_infoE") {
      size := size + 4;
      var read :- Load32(m, Add32(addr, size));
      size := size + 4;
      for base := 0 to read.0
        invariant size == (16 + 8 * base) % ADDRESS_SPACE
      {
        AddBase(size, base);
        size := Add32(Add32(size, 4), 4);
      }
    } else if EndsWith(vtableType, "__class_type_infoE") {
    } else {
      return Err(UnknownRttiType);
    }
    return Ok(size);
  }

  lemma AddBase(size: Addr, base: nat)
    requires size == (16 + 8 * base) % ADDRESS_SPACE
    ensures Add32(Add32(size, 4), 4) == (16 + 8 * (base + 1)) % ADDRESS_SPACE
  {
  }

  // ------------------------------------------------------------- candidate search

  /** The outcome at one word: the extent of the typeinfo it refers to, if it is outside
      all functions and refers to one. */
  ghost function ScanWord(g: Module, functions: seq<DataRange>, a: Addr): (r: Result<Option<DataRange>>) {
    var (word, _) :- Load32(g.mem, a);
    if !InWindow(g.base, a) then Err(OutOfRange)
    else if Covered(functions, a) || word !in g.relocs then Ok(None)
    else
      var size :- TypeinfoSize(g.mem, g.relocs, word);
      if Fits(g.base, DataRange(word, size)) then Ok(Some(DataRange(word, size))) else Err(OutOfRange)
  }

  /** The words that refer to typeinfos, and the typeinfos' extents. */
  datatype Hits = Hits(words: seq<Addr>, extents: seq<DataRange>)

  ghost function Scan(g: Module, functions: seq<DataRange>, addrs: seq<Addr>): (r: Result<Hits>) {
    if addrs == [] then Ok(Hits([], []))
    else
      var last := addrs[|addrs| - 1];
      var h :- Scan(g, functions, addrs[..|addrs| - 1]);
      var extent :- ScanWord(g, functions, last);
      Ok(if extent.None? then h else Hits(h.words + [last], h.extents + [extent.value]))
  }

  /** Every fourth address of `[begin, end)`. */
  function WordAddresses(begin: int, end: Addr): (r: seq<Addr>)
    requires begin >= 0
    decreases end - begin
  {
    if begin >= end then [] else [begin] + WordAddresses(begin + 4, end)
  }

  function Scanned(sections: seq<DataRange>): seq<Addr> {
    if sections == [] then []
    else Scanned(sections[..|sections| - 1]) + SectionWords(sections[|sections| - 1])
  }

  function SectionWords(r: DataRange): seq<Addr> { WordAddresses(r.begin, r.End()) }

  ghost function Uncovered(words: seq<Addr>, extents: seq<DataRange>): seq<Addr> {
    if words == [] then []
    else
      var rest := Uncovered(words[..|words| - 1], extents);
      if Covered(extents, words[|words| - 1]) then rest else rest + [words[|words| - 1]]
  }

  // `candidate + sizeof(void*)` for each of them
  function PlusWord(words: seq<Addr>): (r: seq<Addr>)
    ensures |r| == |words| && forall i :: 0 <= i < |r| ==> r[i] == Add32(words[i], 4)
  {
    seq(|words|, i requires 0 <= i < |words| => Add32(words[i], 4))
  }

  function Insert(x: Addr, s: seq<Addr>): seq<Addr> {
    if s == [] || x <= s[0] then [x] + s else [s[0]] + Insert(x, s[1..])
  }

  // what `ranges::actions::sort` leaves
  function Sort(s: seq<Addr>): seq<Addr> {
    if s == [] then [] else Insert(s[0], Sort(s[1..]))
  }

  /** The sorted vftable candidates of a module. */
  ghost function Candidates(g: Module, functions: seq<DataRange>): (r: Result<seq<Addr>>) {
    var h :- Scan(g, functions, Scanned(g.sections));
    Ok(Sort(PlusWord(Uncovered(h.words, h.extents))))
  }

  lemma {:induction false} ScanPrefixFails(g: Module, functions: seq<DataRange>, addrs: seq<Addr>, k: nat)
    requires k <= |addrs| && Scan(g, functions, addrs[..k]).Err?
    ensures Scan(g, functions, addrs) == Scan(g, functions, addrs[..k])
    decreases |addrs|
  {
    if k == |addrs| {
      assert addrs[..k] == addrs;
    } else {
      var most := addrs[..|addrs| - 1];
      assert most[..k] == addrs[..k];
      ScanPrefixFails(g, functions, most, k);
    }
  }

  /** One iteration of the search loop, at address `addr`. */
  method ScanOne(g: Module, functionRanges: DataRangeChecker, typeinfoRanges: DataRangeChecker,
                 addr: Addr, ghost functions: seq<DataRange>, ghost seen: seq<Addr>, hits: Hits)
    returns (r: Result<Hits>)
    requires functionRanges.Valid() && functionRanges.base == g.base && functionRanges.Represents(functions)
    requires typeinfoRanges.Valid() && typeinfoRanges.base == g.base && typeinfoRanges.Represents(hits.extents)
    requires typeinfoRanges.range != functionRanges.range
    requires Scan(g, functions, seen) == Ok(hits)
    modifies typeinfoRanges.range
    ensures r == Scan(g, functions, seen + [addr])
    ensures r.Ok? ==> typeinfoRanges.Represents(r.value.extents)
    ensures r.Ok? ==> addr + 4 < ADDRESS_SPACE
  {
    assert (seen + [addr])[..|seen|] == seen;
    var read :- Load32(g.mem, addr);
    var inFunction :- functionRanges.IsPositionInRange(addr);
    if inFunction || read.0 !in g.relocs { return Ok(hits); }
    var size :- GetTypeinfoSize(g.mem, g.relocs, read.0);
    var extent := DataRange(read.0, size);
    var _ :- typeinfoRanges.AddRange(extent);
    forall p: Addr ensures Covered(hits.extents + [extent], p) <==> Covered(hits.extents, p) || extent.Contains(p) {
      CoveredSnoc(hits.extents, extent, p);
    }
    return Ok(Hits(hits.words + [addr], hits.extents + [extent]));
  }

  lemma WordsFrom(begin: nat, end: Addr)
    ensures begin < end ==> WordAddresses(begin, end) == [begin] + WordAddresses(begin + 4, end)
    ensures begin >= end ==> WordAddresses(begin, end) == []
  {
  }

  method ScanSection(g: Module, functionRanges: DataRangeChecker, typeinfoRanges: DataRangeChecker,
                     range: DataRange, ghost functions: seq<DataRange>, ghost seen: seq<Addr>, before: Hits)
    returns (r: Result<Hits>)
    requires functionRanges.Valid() && functionRanges.base == g.base && functionRanges.Represents(functions)
    requires typeinfoRanges.Valid() && typeinfoRanges.base == g.base && typeinfoRanges.Represents(before.extents)
    requires typeinfoRanges.range != functionRanges.range
    requires Scan(g, functions, seen) == Ok(before)
    modifies typeinfoRanges.range
    ensures r == Scan(g, functions, seen + SectionWords(range))
    ensures r.Ok? ==> typeinfoRanges.Represents(r.value.extents)
  {
    var hits := before;
    var addr, end := range.begin, range.End();
    ghost var now := seen;
    ghost var all := seen + SectionWords(range);
    while addr < end
      invariant functionRanges.Represents(functions) && typeinfoRanges.Represents(hits.extents)
      invariant Scan(g, functions, now) == Ok(hits)
      invariant all == now + WordAddresses(addr, end)
      decreases ADDRESS_SPACE - addr
    {
      WordsFrom(addr, end);
      assert all == (now + [addr]) + WordAddresses(addr as int + 4, end);
      var next := ScanOne(g, functionRanges, typeinfoRanges, addr, functions, now, hits);
      now := now + [addr];
      if next.Err? {
        assert all[..|now|] == now;
        ScanPrefixFails(g, functions, all, |now|);
        return next;
      }
      hits := next.value;
      addr := Add32(addr, 4);
    }
    WordsFrom(addr, end);
    assert all == now;
    return Ok(hits);
  }

  lemma {:induction false} ScannedPrefix(sections: seq<DataRange>, k: nat)
    requires k <= |sections|
    ensures |Scanned(sections[..k])| <= |Scanned(sections)|
    ensures Scanned(sections)[..|Scanned(sections[..k])|] == Scanned(sections[..k])
    decreases |sections|
  {
    if k == |sections| {
      assert sections[..k] == sections;
    } else {
      var most := sections[..|sections| - 1];
      assert most[..k] == sections[..k];
      ScannedPrefix(most, k);
    }
  }

  lemma NothingScanned(g: Module, functions: seq<DataRange>)
    ensures Scan(g, functions, []) == Ok(Hits([], []))
  {
  }

  /** Both passes, the transformation and the sort. */
  method LocateCandidates(g: Module, functionRanges: DataRangeChecker, ghost functions: seq<DataRange>)
    returns (r: Result<seq<Addr>>)
    requires functionRanges.Valid() && functionRanges.base == g.base && functionRanges.Represents(functions)
    ensures r == Candidates(g, functions)
  {
    hide Scan, Covered, InWindow, Load32;
    NothingScanned(g, functions);
    var typeinfoRanges := new DataRangeChecker(g.base);
    var hits := Hits([], []);
    for i := 0 to |g.sections|
      invariant typeinfoRanges.Valid() && typeinfoRanges.base == g.base
      invariant fresh(typeinfoRanges.range) && typeinfoRanges.range != functionRanges.range
      invariant functionRanges.Represents(functions) && typeinfoRanges.Represents(hits.extents)
      invariant Scan(g, functions, Scanned(g.sections[..i])) == Ok(hits)
    {
      assert g.sections[..i + 1][..i] == g.sections[..i];
      var next := ScanSection(g, functionRanges, typeinfoRanges, g.sections[i],
                              functions, Scanned(g.sections[..i]), hits);
      if next.Err? {
        ScannedPrefix(g.sections, i + 1);
        ScanPrefixFails(g, functions, Scanned(g.sections), |Scanned(g.sections[..i + 1])|);
        return Err(next.error);
      }
      hits := next.value;
    }
    assert g.sections[..|g.sections|] == g.sections;
    var kept: seq<Addr> := [];
    for i := 0 to |hits.words|
      invariant typeinfoRanges.Represents(hits.extents)
      invariant kept == Uncovered(hits.words[..i], hits.extents)
    {
      assert hits.words[..i + 1][..i] == hits.words[..i];
      HitInWindow(g, functions, Scanned(g.sections), hits.words[i]);
      var inside := typeinfoRanges.IsPositionInRange(hits.words[i]);
      if !inside.value { kept := kept + [hits.words[i]]; }
    }
    assert hits.words[..|hits.words|] == hits.words;
    return Ok(Sort(PlusWord(kept)));
  }

  /** Every hit is a scanned word that refers to a typeinfo. */
  lemma {:induction false} HitInWindow(g: Module, functions: seq<DataRange>, addrs: seq<Addr>, a: Addr)
    requires Scan(g, functions, addrs).Ok? && a in Scan(g, functions, addrs).value.words
    ensures a in addrs && ScanWord(g, functions, a).Ok? && ScanWord(g, functions, a).value.Some?
    ensures InWindow(g.base, a) && a + 4 < ADDRESS_SPACE && Load32(g.mem, a).Ok?
  {
    var most := addrs[..|addrs| - 1];
    if a in Scan(g, functions, most).value.words {
      HitInWindow(g, functions, most, a);
    }
  }
}
