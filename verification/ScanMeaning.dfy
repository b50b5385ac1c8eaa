/** The candidate search in terms of sections, memory words, typeinfo symbols and function
    ranges alone. */
module ScanMeaning {
  import opened Machine
  import opened EhFrame
  import opened RangeChecker
  import opened Rtti
  import opened VtableScan
  import opened CandidateProperties

  // ------------------------------------------------------------------ scanned words

  /** A word of the section: a whole number of words from its begin, before its end, which
      wraps at 32 bits. */
  predicate WordOf(r: DataRange, a: Addr) {
    r.begin <= a < (r.begin + r.length) % ADDRESS_SPACE && (a - r.begin) % 4 == 0
  }

  /** The number of sections `a` is a word of. */
  function TimesScanned(sections: seq<DataRange>, a: Addr): nat {
    if sections == [] then 0
    else TimesScanned(sections[..|sections| - 1], a) + (if WordOf(sections[|sections| - 1], a) then 1 else 0)
  }

  lemma EndMeaning(r: DataRange)
    ensures r.End() == (r.begin + r.length) % ADDRESS_SPACE
  {
  }

  lemma {:induction false} WordsExact(begin: nat, end: Addr, a: Addr)
    ensures multiset(WordAddresses(begin, end))[a] == if begin <= a < end && (a - begin) % 4 == 0 then 1 else 0
    decreases end - begin
  {
    hide WordAddresses;
    WordsFrom(begin, end);
    if begin < end {
      WordsExact(begin + 4, end, a);
      ConcatCount([begin], WordAddresses(begin + 4, end), a);
      OneCount(begin, a);
      FourFurther(begin, a);
    }
  }

  lemma FourFurther(begin: int, a: int)
    ensures (a - (begin + 4)) % 4 == (a - begin) % 4
    ensures begin <= a < begin + 4 ==> ((a - begin) % 4 == 0 <==> a == begin)
  {
  }

  /** The scan visits exactly the words of the sections, each as often as sections hold it. */
  lemma {:induction false} ScannedExact(sections: seq<DataRange>, a: Addr)
    ensures multiset(Scanned(sections))[a] == TimesScanned(sections, a)
    ensures a in Scanned(sections) <==> exists r :: r in sections && WordOf(r, a)
    decreases |sections|
  {
    hide WordAddresses, WordOf;
    if sections != [] {
      var most, last := sections[..|sections| - 1], sections[|sections| - 1];
      assert sections == most + [last];
      ScannedExact(most, a);
      SectionExact(last, a);
      ConcatCount(Scanned(most), SectionWords(last), a);
    }
  }

  lemma SectionExact(r: DataRange, a: Addr)
    ensures multiset(SectionWords(r))[a] == if WordOf(r, a) then 1 else 0
    ensures a in SectionWords(r) <==> WordOf(r, a)
  {
    hide WordAddresses;
    EndMeaning(r);
    WordsExact(r.begin, r.End(), a);
    assert a in SectionWords(r) <==> a in multiset(SectionWords(r));
  }

  // ------------------------------------------------------------- size of a typeinfo

  lemma EndsWithIs(s: string, prefix: string, suffix: string)
    requires s == prefix + suffix
    ensures EndsWith(s, suffix)
  {
  }

  lemma OnlyThen(s: string, suffix: string)
    requires EndsWith(s, suffix)
    ensures exists prefix :: s == prefix + suffix
  {
    assert s == s[..|s| - |suffix|] + suffix;
  }

  lemma EndsOtherwise(prefix: string, one: string, other: string, k: nat)
    requires k < |one| && k < |other| && one[|one| - 1 - k] != other[|other| - 1 - k]
    ensures !EndsWith(prefix + one, other)
  {
    var s := prefix + one;
    if |other| <= |s| {
      assert s[|s| - 1 - k] == one[|one| - 1 - k];
      assert s[|s| - |other|..][|other| - 1 - k] == s[|s| - 1 - k];
    }
  }

  /** From the symbol of a typeinfo's vtable and the bytes behind it: 8 bytes for a class without
      bases, 12 for one with a single base, and 16 and 8 for each of the counted bases otherwise,
      modulo 2^32. */
  lemma TypeinfoExtent(m: Memory, relocs: map<Addr, string>, typeinfo: Addr, prefix: string, bases: Addr)
    requires typeinfo in relocs
    ensures relocs[typeinfo] == prefix + "__class_type_infoE" ==> TypeinfoSize(m, relocs, typeinfo) == Ok(8)
    ensures relocs[typeinfo] == prefix + "__si_class_type_infoE" ==> TypeinfoSize(m, relocs, typeinfo) == Ok(12)
    ensures relocs[typeinfo] == prefix + "__vmi_class_type_infoE" && Stored(m, typeinfo + 12, LE(bases, 4)) ==>
              TypeinfoSize(m, relocs, typeinfo) == Ok((16 + 8 * bases) % ADDRESS_SPACE)
  {
    hide TypeinfoSize, Stored, LE;
    if relocs[typeinfo] == prefix + "__class_type_infoE" { PlainExtent(m, relocs, typeinfo, prefix); }
    if relocs[typeinfo] == prefix + "__si_class_type_infoE" { SingleBaseExtent(m, relocs, typeinfo, prefix); }
    if relocs[typeinfo] == prefix + "__vmi_class_type_infoE" && Stored(m, typeinfo + 12, LE(bases, 4)) {
      CountedBasesExtent(m, relocs, typeinfo, prefix, bases);
    }
  }

  lemma PlainExtent(m: Memory, relocs: map<Addr, string>, typeinfo: Addr, prefix: string)
    requires typeinfo in relocs && relocs[typeinfo] == prefix + "__class_type_infoE"
    ensures TypeinfoSize(m, relocs, typeinfo) == Ok(8)
  {
    hide EndsWith, Load32;
    EndsOtherwise(prefix, "__class_type_infoE", "__si_class_type_infoE", 17);
    EndsOtherwise(prefix, "__class_type_infoE", "__vmi_class_type_infoE", 17);
    EndsWithIs(relocs[typeinfo], prefix, "__class_type_infoE");
  }

  lemma SingleBaseExtent(m: Memory, relocs: map<Addr, string>, typeinfo: Addr, prefix: string)
    requires typeinfo in relocs && relocs[typeinfo] == prefix + "__si_class_type_infoE"
    ensures TypeinfoSize(m, relocs, typeinfo) == Ok(12)
  {
    hide EndsWith, Load32;
    EndsWithIs(relocs[typeinfo], prefix, "__si_class_type_infoE");
  }

  lemma CountedBasesExtent(m: Memory, relocs: map<Addr, string>, typeinfo: Addr, prefix: string, bases: Addr)
    requires typeinfo in relocs && relocs[typeinfo] == prefix + "__vmi_class_type_infoE"
    requires Stored(m, typeinfo + 12, LE(bases, 4))
    ensures TypeinfoSize(m, relocs, typeinfo) == Ok((16 + 8 * bases) % ADDRESS_SPACE)
  {
    hide EndsWith, Load32, Load, LoadLE, LE, Stored;
    EndsOtherwise(prefix, "__vmi_class_type_infoE", "__si_class_type_infoE", 18);
    EndsWithIs(relocs[typeinfo], prefix, "__vmi_class_type_infoE");
    StoredNotEmpty(m, typeinfo + 12, LE(bases, 4));
    WordReads(m, typeinfo + 12, bases);
  }

  /** Any other symbol, and an address without one, throws. */
  lemma NoTypeinfoExtent(m: Memory, relocs: map<Addr, string>, typeinfo: Addr)
    ensures typeinfo !in relocs ==> TypeinfoSize(m, relocs, typeinfo) == Err(OutOfRange)
    ensures typeinfo in relocs &&
            (forall prefix :: && relocs[typeinfo] != prefix + "__class_type_infoE"
                              && relocs[typeinfo] != prefix + "__si_class_type_infoE"
                              && relocs[typeinfo] != prefix + "__vmi_class_type_infoE") ==>
              TypeinfoSize(m, relocs, typeinfo) == Err(UnknownRttiType)
  {
    hide EndsWith;
    if typeinfo in relocs {
      var s := relocs[typeinfo];
      if EndsWith(s, "__class_type_infoE") { OnlyThen(s, "__class_type_infoE"); }
      if EndsWith(s, "__si_class_type_infoE") { OnlyThen(s, "__si_class_type_infoE"); }
      if EndsWith(s, "__vmi_class_type_infoE") { OnlyThen(s, "__vmi_class_type_infoE"); }
    }
  }

  // --------------------------------------------------------------------- candidates

  ghost predicate IsScanned(sections: seq<DataRange>, a: Addr) {
    exists r :: r in sections && WordOf(r, a)
  }

  /** The word at `b` names a typeinfo, and `p` lies in it. */
  ghost predicate NamesTypeinfoAt(g: Module, functions: seq<DataRange>, b: Addr, p: Addr) {
    && Refers(g, functions, b)
    && TypeinfoSize(g.mem, g.relocs, Load32(g.mem, b).value.0).Ok?
    && Extent(g, functions, b).Contains(p)
  }

  /** `p` lies in a typeinfo that a word of some section names. */
  ghost predicate InNamedTypeinfo(g: Module, functions: seq<DataRange>, p: Addr) {
    exists b :: IsScanned(g.sections, b) && NamesTypeinfoAt(g, functions, b, p)
  }

  lemma SameInside(g: Module, functions: seq<DataRange>, p: Addr)
    requires Candidates(g, functions).Ok?
    ensures InsideTypeinfo(g, functions, Scanned(g.sections), p) <==> InNamedTypeinfo(g, functions, p)
  {
    hide Scanned, ScanWord, Refers, Scan, Extent;
    var addrs := Scanned(g.sections);
    ScanSucceeds(g, functions, addrs);
    forall b: Addr ensures b in addrs <==> IsScanned(g.sections, b) { ScannedExact(g.sections, b); }
    forall b: Addr | b in addrs
      ensures (ScanWord(g, functions, b).value.Some? && ScanWord(g, functions, b).value.value.Contains(p))
              <==> NamesTypeinfoAt(g, functions, b, p)
    {
      ScanWordMeaning(g, functions, b);
    }
  }

  /** The search returns, in ascending order, exactly the addresses one word after a word of some
      section that lies outside all functions, names a known typeinfo, and lies in no typeinfo
      that a word of a section outside all functions names; each as often as sections hold that
      word. */
  lemma CandidatesExact(g: Module, functions: seq<DataRange>, v: Addr)
    requires Candidates(g, functions).Ok?
    ensures var r, a := Candidates(g, functions).value, Sub32(v, 4);
            && Ascending(r)
            && (v in r <==> IsScanned(g.sections, a) && Refers(g, functions, a) && !InNamedTypeinfo(g, functions, a))
            && multiset(r)[v] == if Refers(g, functions, a) && !InNamedTypeinfo(g, functions, a)
                                 then TimesScanned(g.sections, a) else 0
  {
    hide Candidates, Scanned, Refers, InNamedTypeinfo, InsideTypeinfo, TimesScanned;
    var a := Sub32(v, 4);
    CandidatesOfWords(g, functions, v);
    ScannedExact(g.sections, a);
    SameInside(g, functions, a);
    assert v in Candidates(g, functions).value <==> v in multiset(Candidates(g, functions).value);
    assert a in Scanned(g.sections) <==> a in multiset(Scanned(g.sections));
  }

  /** Why a word stops the search: it cannot be read, has no bit in the window, or names a
      typeinfo of unknown size or outside the window. */
  ghost predicate Stops(g: Module, functions: seq<DataRange>, a: Addr) {
    || Load32(g.mem, a).Err?
    || !InWindow(g.base, a)
    || (Refers(g, functions, a) &&
        (TypeinfoSize(g.mem, g.relocs, Load32(g.mem, a).value.0).Err? || !Fits(g.base, Extent(g, functions, a))))
  }

  lemma StopsExactly(g: Module, functions: seq<DataRange>, a: Addr)
    ensures ScanWord(g, functions, a).Err? <==> Stops(g, functions, a)
  {
    hide Load32, InWindow, Covered, TypeinfoSize, Fits;
  }

  /** The search throws if and only if some word of a section stops it. */
  lemma SearchThrowsExactly(g: Module, functions: seq<DataRange>)
    ensures Candidates(g, functions).Err? <==> exists a :: IsScanned(g.sections, a) && Stops(g, functions, a)
  {
    hide Scanned, Scan, ScanWord, Stops, IsScanned;
    var addrs := Scanned(g.sections);
    ScanSucceeds(g, functions, addrs);
    forall a: Addr
      ensures a in addrs <==> IsScanned(g.sections, a)
      ensures ScanWord(g, functions, a).Err? <==> Stops(g, functions, a)
    {
      ScannedAre(g.sections, a);
      StopsExactly(g, functions, a);
    }
  }

  lemma ScannedAre(sections: seq<DataRange>, a: Addr)
    ensures a in Scanned(sections) <==> IsScanned(sections, a)
  {
    ScannedExact(sections, a);
  }

  // ---------------------------------------------------------------- a whole module

  /** A module's candidates are those of its sections, with the ranges of its FDEs as functions
      and its typeinfo relocations as known typeinfos. */
  lemma ModuleCandidatesExact(g: LoadedModule, v: Addr)
    requires ModuleCandidates(g).Ok?
    ensures var r, a := ModuleCandidates(g).value, Sub32(v, 4);
            var scanned := Module(g.mem, g.base, g.sections, TypeinfoRelocs(g.relocations));
            var functions := EhFrameRanges(g.mem, g.ehSections).items;
            && Ascending(r)
            && (v in r <==>
                && (exists s :: s in g.sections && WordOf(s, a))
                && Refers(scanned, functions, a) && !InNamedTypeinfo(scanned, functions, a))
  {
    hide Candidates, Refers, InNamedTypeinfo, EhFrameRanges, TypeinfoRelocs;
    CandidatesExact(ScannedModule(g), EhFrameRanges(g.mem, g.ehSections).items, v);
  }

  /** A module's scan throws for a function range outside the window, else as its `.eh_frame` walk
      does, else if some word stops the search. */
  lemma ModuleThrowsExactly(g: LoadedModule)
    ensures var walked := EhFrameRanges(g.mem, g.ehSections);
            var scanned := Module(g.mem, g.base, g.sections, TypeinfoRelocs(g.relocations));
            if exists r, p: Addr :: r in walked.items && r.Contains(p) && !InWindow(g.base, p) then
              ModuleCandidates(g) == Err(OutOfRange)
            else if walked.error.Some? then ModuleCandidates(g) == Err(walked.error.value)
            else ModuleCandidates(g).Err? <==>
                 exists a :: IsScanned(g.sections, a) && Stops(scanned, walked.items, a)
  {
    hide Candidates, EhFrameRanges, TypeinfoRelocs, Stops, IsScanned, InWindow;
    SearchThrowsExactly(ScannedModule(g), EhFrameRanges(g.mem, g.ehSections).items);
  }

  // ------------------------------------------------------------------- the bit window

  /** The window is the 150 MiB from the base address on, modulo 2^32. */
  lemma WindowIs(base: Addr, p: Addr)
    ensures InWindow(base, p) <==> (p - base) % ADDRESS_SPACE < 150 * 1024 * 1024
    ensures InWindow(base, p) <==> base <= p < base + 150 * 1024 * 1024 || p + ADDRESS_SPACE < base + 150 * 1024 * 1024
  {
  }
}
