/** All `.eh_frame` sections of a module: which stretches of memory are walked, and the round trip
    over printed sections. */
module ModuleRanges {
  import opened Machine
  import opened EhFrame
  import opened EhFramePrinter

  /** What the walk from a section's begin to its end yields, the end wrapping at 32 bits. */
  function SectionWalk(m: Memory, r: DataRange): Yields<DataRange> {
    Walk(m, r.begin, (r.begin + r.length) % ADDRESS_SPACE)
  }

  function AllItems(m: Memory, sections: seq<DataRange>): seq<DataRange> {
    if sections == [] then [] else SectionWalk(m, sections[0]).items + AllItems(m, sections[1..])
  }

  lemma SectionFirst(m: Memory, sections: seq<DataRange>)
    requires sections != []
    ensures var first := SectionWalk(m, sections[0]);
            EhFrameRanges(m, sections)
            == if first.error.Some? then first else Prepend(first.items, EhFrameRanges(m, sections[1..]))
  {
    hide Walk;
  }

  /** Sections that walk without an exception contribute all they yield, in order. */
  lemma {:induction false} SectionsInOrder(m: Memory, sections: seq<DataRange>, more: seq<DataRange>)
    requires forall r :: r in sections ==> SectionWalk(m, r).error.None?
    ensures EhFrameRanges(m, sections + more) == Prepend(AllItems(m, sections), EhFrameRanges(m, more))
  {
    hide SectionWalk, EhFrameRanges;
    if sections == [] {
      assert sections + more == more;
      NothingBefore(EhFrameRanges(m, more));
    } else {
      assert (sections + more)[1..] == sections[1..] + more;
      assert (sections + more)[0] == sections[0] && sections[0] in sections;
      SectionFirst(m, sections + more);
      SectionsInOrder(m, sections[1..], more);
      PrependTwice(SectionWalk(m, sections[0]).items, AllItems(m, sections[1..]), EhFrameRanges(m, more));
    }
  }

  /** The first section that throws ends it all, behind what came before. */
  lemma FirstExceptionStops(m: Memory, sections: seq<DataRange>, bad: DataRange, more: seq<DataRange>)
    requires forall r :: r in sections ==> SectionWalk(m, r).error.None?
    requires SectionWalk(m, bad).error.Some?
    ensures EhFrameRanges(m, sections + [bad] + more)
            == Yields(AllItems(m, sections) + SectionWalk(m, bad).items, SectionWalk(m, bad).error)
  {
    hide SectionWalk, EhFrameRanges;
    assert sections + [bad] + more == sections + ([bad] + more);
    SectionsInOrder(m, sections, [bad] + more);
    SectionFirst(m, [bad] + more);
  }

  lemma NoSections(m: Memory)
    ensures EhFrameRanges(m, []) == Yields([], None)
  {
  }

  // ------------------------------------------------------------------ the round trip

  /** A printed section: its records, and padding that is empty or starts with a zero word. */
  datatype Printed = Printed(records: seq<Record>, tail: seq<Byte>)

  /** The section lies in memory at its begin and is as long as it is printed. */
  ghost predicate SectionPlaced(m: Memory, r: DataRange, s: Printed) {
    && r.begin % 4 == 0 && SectionOk(s.records, r.begin, [])
    && Stored(m, r.begin, Section(s.records, r.begin, []) + s.tail)
    && r.length == |Section(s.records, r.begin, []) + s.tail|
    && (s.tail == [] || LE(0, 4) <= s.tail)
  }

  function AllRanges(printed: seq<Printed>): seq<DataRange> {
    if printed == [] then [] else Ranges(printed[0].records) + AllRanges(printed[1..])
  }

  lemma SectionRoundTrip(m: Memory, r: DataRange, s: Printed)
    requires SectionPlaced(m, r, s)
    ensures SectionWalk(m, r) == Yields(Ranges(s.records), None)
  {
    hide Stored, Section, SectionOk, Walk, LE;
    var bytes := Section(s.records, r.begin, []) + s.tail;
    if bytes != [] { StoredNotEmpty(m, r.begin, bytes); }
    SmallEnd(r.begin, |bytes|);
    RoundTrip(m, r.begin, r.begin + |bytes|, s.records, s.tail);
  }

  lemma SmallEnd(begin: Addr, length: nat)
    requires begin + length < ADDRESS_SPACE
    ensures (begin + length) % ADDRESS_SPACE == begin + length
  {
  }

  /** Walking a module's printed sections yields exactly their FDEs' ranges, section by section,
      and no exception. */
  lemma {:induction false} ModuleRoundTrip(m: Memory, sections: seq<DataRange>, printed: seq<Printed>)
    requires |sections| == |printed| && forall k :: 0 <= k < |sections| ==> SectionPlaced(m, sections[k], printed[k])
    ensures EhFrameRanges(m, sections) == Yields(AllRanges(printed), None)
  {
    hide SectionPlaced, SectionWalk, EhFrameRanges, Ranges;
    if sections == [] {
      NoSections(m);
    } else {
      SectionFirst(m, sections);
      SectionRoundTrip(m, sections[0], printed[0]);
      ModuleRoundTrip(m, sections[1..], printed[1..]);
    }
  }
}
