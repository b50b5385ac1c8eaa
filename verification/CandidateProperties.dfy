/** Which addresses the candidate search returns, and that the order of a module's sections
    does not matter. */
module CandidateProperties {
  import opened Machine
  import opened RangeChecker
  import opened Rtti
  import opened VtableScan

  // ------------------------------------------------------------ meaning of one word

  /** The word at `a` lies outside every function and names a known typeinfo. */
  ghost predicate Refers(g: Module, functions: seq<DataRange>, a: Addr) {
    && Load32(g.mem, a).Ok?
    && !Covered(functions, a)
    && Load32(g.mem, a).value.0 in g.relocs
  }

  /** The bytes of the typeinfo that the word at `a` names. */
  ghost function Extent(g: Module, functions: seq<DataRange>, a: Addr): DataRange
    requires Refers(g, functions, a) && TypeinfoSize(g.mem, g.relocs, Load32(g.mem, a).value.0).Ok?
  {
    var typeinfo := Load32(g.mem, a).value.0;
    DataRange(typeinfo, TypeinfoSize(g.mem, g.relocs, typeinfo).value)
  }

  lemma ScanWordMeaning(g: Module, functions: seq<DataRange>, a: Addr)
    requires ScanWord(g, functions, a).Ok?
    ensures ScanWord(g, functions, a).value.Some? <==> Refers(g, functions, a)
    ensures Refers(g, functions, a) ==>
              && TypeinfoSize(g.mem, g.relocs, Load32(g.mem, a).value.0).Ok?
              && ScanWord(g, functions, a).value.value == Extent(g, functions, a)
  {
  }

  /** `p` lies inside a typeinfo that some scanned word names. */
  ghost predicate InsideTypeinfo(g: Module, functions: seq<DataRange>, addrs: seq<Addr>, p: Addr) {
    exists b :: b in addrs && ScanWord(g, functions, b).Ok? && ScanWord(g, functions, b).value.Some?
                && ScanWord(g, functions, b).value.value.Contains(p)
  }

  lemma ConcatCount(x: seq<Addr>, y: seq<Addr>, a: Addr)
    ensures multiset(x + y)[a] == multiset(x)[a] + multiset(y)[a]
    ensures a !in x ==> multiset(x)[a] == 0
    ensures a !in y ==> multiset(y)[a] == 0
  {
    assert a in x <==> a in multiset(x);
    assert a in y <==> a in multiset(y);
  }

  lemma OneCount(x: Addr, a: Addr)
    ensures multiset([x])[a] == if x == a then 1 else 0
  {
  }

  // ----------------------------------------------------------- meaning of the scan

  ghost predicate AllScan(g: Module, functions: seq<DataRange>, addrs: seq<Addr>) {
    forall a :: a in addrs ==> ScanWord(g, functions, a).Ok?
  }

  lemma {:induction false} ScanSucceeds(g: Module, functions: seq<DataRange>, addrs: seq<Addr>)
    ensures Scan(g, functions, addrs).Ok? <==> AllScan(g, functions, addrs)
    decreases |addrs|
  {
    if addrs != [] {
      var most, last := addrs[..|addrs| - 1], addrs[|addrs| - 1];
      assert addrs == most + [last];
      ScanSucceeds(g, functions, most);
      if AllScan(g, functions, addrs) {
        assert forall a :: a in most ==> a in addrs;
      }
    }
  }

  lemma ScanSnoc(g: Module, functions: seq<DataRange>, addrs: seq<Addr>)
    requires addrs != [] && Scan(g, functions, addrs).Ok?
    ensures var most, last := addrs[..|addrs| - 1], addrs[|addrs| - 1];
            && Scan(g, functions, most).Ok? && ScanWord(g, functions, last).Ok?
            && var h, extent := Scan(g, functions, most).value, ScanWord(g, functions, last).value;
               Scan(g, functions, addrs).value
               == if extent.None? then h else Hits(h.words + [last], h.extents + [extent.value])
  {
    hide ScanWord;
  }

  lemma {:induction false} ScanWords(g: Module, functions: seq<DataRange>, addrs: seq<Addr>, a: Addr)
    requires Scan(g, functions, addrs).Ok?
    ensures multiset(Scan(g, functions, addrs).value.words)[a]
            == if a in addrs && ScanWord(g, functions, a) != Ok(None) then multiset(addrs)[a] else 0
    decreases |addrs|
  {
    hide ScanWord, Scan;
    if addrs == [] {
      NothingScanned(g, functions);
    } else {
      var most, last := addrs[..|addrs| - 1], addrs[|addrs| - 1];
      assert addrs == most + [last];
      ScanSnoc(g, functions, addrs);
      ScanWords(g, functions, most, a);
      ConcatCount(most, [last], a);
      ConcatCount(Scan(g, functions, most).value.words, [last], a);
      OneCount(last, a);
    }
  }

  lemma NothingCovered(p: Addr)
    ensures !Covered([], p)
  {
  }

  lemma {:induction false} ScanExtents(g: Module, functions: seq<DataRange>, addrs: seq<Addr>, p: Addr)
    requires Scan(g, functions, addrs).Ok?
    ensures Covered(Scan(g, functions, addrs).value.extents, p) <==> InsideTypeinfo(g, functions, addrs, p)
    decreases |addrs|
  {
    hide ScanWord, Covered;
    if addrs == [] {
      assert !Covered([], p) by { NothingCovered(p); }
    } else {
      var most, last := addrs[..|addrs| - 1], addrs[|addrs| - 1];
      assert addrs == most + [last];
      ScanExtents(g, functions, most, p);
      var extent := ScanWord(g, functions, last).value;
      if extent.Some? { CoveredSnoc(Scan(g, functions, most).value.extents, extent.value, p); }
      if InsideTypeinfo(g, functions, addrs, p) {
        var b :| b in addrs && ScanWord(g, functions, b).Ok? && ScanWord(g, functions, b).value.Some?
                 && ScanWord(g, functions, b).value.value.Contains(p);
        assert b in most || b == last;
      }
    }
  }

  // ---------------------------------------------------------------------- sorting

  ghost predicate Ascending(s: seq<Addr>) {
    forall i, j :: 0 <= i < j < |s| ==> s[i] <= s[j]
  }

  lemma {:induction false} InsertAtLeast(x: Addr, s: seq<Addr>, least: Addr)
    requires least <= x && forall k :: 0 <= k < |s| ==> least <= s[k]
    ensures forall k :: 0 <= k < |Insert(x, s)| ==> least <= Insert(x, s)[k]
  {
    if s != [] && x > s[0] { InsertAtLeast(x, s[1..], least); }
  }

  lemma AscendingCons(x: Addr, s: seq<Addr>)
    requires Ascending(s) && forall k :: 0 <= k < |s| ==> x <= s[k]
    ensures Ascending([x] + s)
  {
  }

  lemma {:induction false} InsertAscends(x: Addr, s: seq<Addr>)
    requires Ascending(s)
    ensures Ascending(Insert(x, s))
  {
    if s == [] || x <= s[0] {
      AscendingCons(x, s);
    } else {
      InsertAscends(x, s[1..]);
      InsertAtLeast(x, s[1..], s[0]);
      AscendingCons(s[0], Insert(x, s[1..]));
    }
  }

  lemma {:induction false} SortAscends(s: seq<Addr>)
    ensures Ascending(Sort(s))
  {
    if s != [] {
      SortAscends(s[1..]);
      InsertAscends(s[0], Sort(s[1..]));
    }
  }

  lemma HeadIsLeast(s: seq<Addr>, x: Addr)
    requires Ascending(s) && x in multiset(s)
    ensures s != [] && s[0] <= x
  {
    assert x in s;
  }

  /** A multiset has one ascending sequence. */
  lemma {:induction false} AscendingUnique(s: seq<Addr>, t: seq<Addr>)
    requires Ascending(s) && Ascending(t) && multiset(s) == multiset(t)
    ensures s == t
    decreases |s|
  {
    hide Ascending;
    if s == [] {
      EmptyMultiset(t);
    } else {
      assert s[0] in multiset(s);
      HeadIsLeast(t, s[0]);
      assert t[0] in multiset(t);
      HeadIsLeast(s, t[0]);
      RemoveHead(s);
      RemoveHead(t);
      AscendingUnique(s[1..], t[1..]);
      SameHeadAndTail(s, t);
    }
  }

  lemma SameHeadAndTail(s: seq<Addr>, t: seq<Addr>)
    requires s != [] && t != [] && s[0] == t[0] && s[1..] == t[1..]
    ensures s == t
  {
    assert s == [s[0]] + s[1..] && t == [t[0]] + t[1..];
  }

  lemma RemoveHead(s: seq<Addr>)
    requires s != [] && Ascending(s)
    ensures Ascending(s[1..])
    ensures multiset(s[1..]) == multiset(s) - multiset{s[0]}
  {
    assert s == [s[0]] + s[1..];
  }

  lemma EmptyMultiset<T>(t: seq<T>)
    requires multiset(t) == multiset{}
    ensures t == []
  {
    assert |multiset(t)| == |t|;
  }

  lemma RemoveAt<T>(t: seq<T>, k: nat)
    requires k < |t|
    ensures multiset(t) == multiset(t[..k] + t[k + 1..]) + multiset{t[k]}
  {
    assert t == t[..k] + [t[k]] + t[k + 1..];
  }

  // --------------------------------------------------------------- the candidates

  lemma {:induction false} PlusWordMembers(words: seq<Addr>, v: Addr)
    ensures multiset(PlusWord(words))[v] == multiset(words)[Sub32(v, 4)]
    decreases |words|
  {
    if words != [] {
      var most, last := words[..|words| - 1], words[|words| - 1];
      assert words == most + [last];
      assert PlusWord(words) == PlusWord(most) + [Add32(last, 4)];
      hide PlusWord;
      PlusWordMembers(most, v);
      ConcatCount(PlusWord(most), [Add32(last, 4)], v);
      ConcatCount(most, [last], Sub32(v, 4));
      OneCount(Add32(last, 4), v);
      OneCount(last, Sub32(v, 4));
    }
  }

  /** The search returns, in ascending order, exactly the addresses one word after a scanned
      word that refers to a typeinfo and lies inside no typeinfo so referred to, each as
      often as it was scanned. */
  lemma CandidatesOfWords(g: Module, functions: seq<DataRange>, v: Addr)
    requires Candidates(g, functions).Ok?
    ensures var r, addrs, a := Candidates(g, functions).value, Scanned(g.sections), Sub32(v, 4);
            && Ascending(r)
            && multiset(r)[v] == if a in addrs && Refers(g, functions, a) && !InsideTypeinfo(g, functions, addrs, a)
                                 then multiset(addrs)[a] else 0
  {
    var addrs, a := Scanned(g.sections), Sub32(v, 4);
    var h := Scan(g, functions, addrs).value;
    var kept := Uncovered(h.words, h.extents);
    SortAscends(PlusWord(kept));
    SortMembers(PlusWord(kept));
    PlusWordMembers(kept, v);
    UncoveredMembers(h.words, h.extents, a);
    ScanExtents(g, functions, addrs, a);
    ScanWords(g, functions, addrs, a);
    ScanSucceeds(g, functions, addrs);
    if a in addrs { ScanWordMeaning(g, functions, a); }
  }

  // ------------------------------------------------------------- order of sections

  lemma ScannedSnoc(s: seq<DataRange>, r: DataRange)
    ensures Scanned(s + [r]) == Scanned(s) + SectionWords(r)
  {
    assert (s + [r])[..|s|] == s;
  }

  lemma {:induction false} ScannedSplit(s: seq<DataRange>, k: nat)
    requires k < |s|
    ensures multiset(Scanned(s)) == multiset(Scanned(s[..k] + s[k + 1..])) + multiset(SectionWords(s[k]))
    decreases |s|
  {
    hide Scanned, SectionWords;
    var n := |s| - 1;
    var most := s[..n];
    assert s == most + [s[n]];
    ScannedSnoc(most, s[n]);
    if k == n {
      assert s[..k] + s[k + 1..] == most;
    } else {
      ScannedSplit(most, k);
      ScannedSnoc(most[..k] + most[k + 1..], s[n]);
      assert s[..k] + s[k + 1..] == (most[..k] + most[k + 1..]) + [s[n]];
    }
  }

  lemma {:induction false} ScannedPermutes(s: seq<DataRange>, t: seq<DataRange>)
    requires multiset(s) == multiset(t)
    ensures multiset(Scanned(s)) == multiset(Scanned(t))
    decreases |s|
  {
    if s == [] {
      EmptyMultiset(t);
    } else {
      hide Scanned, SectionWords;
      var n := |s| - 1;
      assert s == s[..n] + [s[n]];
      ScannedSnoc(s[..n], s[n]);
      assert s[n] in multiset(s);
      assert s[n] in multiset(t);
      var k :| 0 <= k < |t| && t[k] == s[n];
      var rest := t[..k] + t[k + 1..];
      RemoveAt(t, k);
      assert multiset(rest) == multiset(t) - multiset{s[n]} == multiset(s[..n]);
      ScannedPermutes(s[..n], rest);
      ScannedSplit(t, k);
    }
  }

  lemma SameWordsSameScan(g: Module, functions: seq<DataRange>, s: seq<Addr>, t: seq<Addr>, p: Addr)
    requires multiset(s) == multiset(t)
    ensures AllScan(g, functions, s) <==> AllScan(g, functions, t)
    ensures InsideTypeinfo(g, functions, s, p) <==> InsideTypeinfo(g, functions, t, p)
  {
    forall a ensures a in s <==> a in t {
      assert a in multiset(s) <==> a in multiset(t);
    }
  }

  /** The candidates do not depend on the order in which the sections are scanned. */
  lemma SectionOrderIrrelevant(g: Module, functions: seq<DataRange>, sections: seq<DataRange>)
    requires multiset(sections) == multiset(g.sections)
    ensures var h := g.(sections := sections);
            && (Candidates(g, functions).Ok? <==> Candidates(h, functions).Ok?)
            && (Candidates(g, functions).Ok? ==> Candidates(g, functions) == Candidates(h, functions))
  {
    var h := g.(sections := sections);
    SameOutcome(g, functions, sections);
    if Candidates(g, functions).Ok? {
      hide Candidates, ScanWord;
      var c, d := Candidates(g, functions).value, Candidates(h, functions).value;
      var inC: multiset<Addr>, inD: multiset<Addr> := multiset(c), multiset(d);
      forall v: Addr ensures inC[v] == inD[v] {
        SameMultiplicity(g, functions, sections, v);
      }
      CandidatesOfWords(g, functions, 0);
      CandidatesOfWords(h, functions, 0);
      assert inC == inD;
      AscendingUnique(c, d);
    }
  }

  lemma SameOutcome(g: Module, functions: seq<DataRange>, sections: seq<DataRange>)
    requires multiset(sections) == multiset(g.sections)
    ensures Candidates(g, functions).Ok? <==> Candidates(g.(sections := sections), functions).Ok?
  {
    var h := g.(sections := sections);
    var s, t := Scanned(g.sections), Scanned(sections);
    ScannedPermutes(g.sections, sections);
    ScanSucceeds(g, functions, s);
    ScanSucceeds(h, functions, t);
    SameWordsSameScan(g, functions, s, t, 0);
    assert AllScan(h, functions, t) <==> AllScan(g, functions, t) by { SameScanWords(g, sections, functions); }
  }

  lemma SameMultiplicity(g: Module, functions: seq<DataRange>, sections: seq<DataRange>, v: Addr)
    requires multiset(sections) == multiset(g.sections)
    requires Candidates(g, functions).Ok? && Candidates(g.(sections := sections), functions).Ok?
    ensures multiset(Candidates(g, functions).value)[v]
            == multiset(Candidates(g.(sections := sections), functions).value)[v]
  {
    hide Candidates, Scanned, ScanWord, Refers;
    var h := g.(sections := sections);
    var s, t, a := Scanned(g.sections), Scanned(sections), Sub32(v, 4);
    ScannedPermutes(g.sections, sections);
    CandidatesOfWords(g, functions, v);
    CandidatesOfWords(h, functions, v);
    SameWordsSameScan(g, functions, s, t, a);
    SameScanWords(g, sections, functions);
    assert a in s <==> a in t by { assert a in multiset(s) <==> a in multiset(t); }
    assert InsideTypeinfo(h, functions, t, a) <==> InsideTypeinfo(g, functions, t, a);
  }

  lemma SameScanWords(g: Module, sections: seq<DataRange>, functions: seq<DataRange>)
    ensures forall a :: ScanWord(g, functions, a) == ScanWord(g.(sections := sections), functions, a)
    ensures forall a :: Refers(g, functions, a) == Refers(g.(sections := sections), functions, a)
  {
  }

  // ------------------------------------------------------------- disjoint sections

  ghost predicate PairwiseDisjoint(s: seq<DataRange>) {
    forall i, j, p :: 0 <= i < j < |s| && s[i].Contains(p) ==> !s[j].Contains(p)
  }

  lemma {:induction false} WordsOnce(begin: nat, end: Addr, a: Addr)
    ensures multiset(WordAddresses(begin, end))[a] <= 1
    ensures a in WordAddresses(begin, end) ==> begin <= a < end
    decreases end - begin
  {
    hide WordAddresses;
    WordsFrom(begin, end);
    if begin < end {
      WordsOnce(begin + 4, end, a);
      ConcatCount([begin], WordAddresses(begin + 4, end), a);
    }
  }

  lemma {:induction false} ScannedOnce(s: seq<DataRange>, a: Addr)
    requires PairwiseDisjoint(s)
    ensures multiset(Scanned(s))[a] <= 1
    ensures a in Scanned(s) ==> exists i :: 0 <= i < |s| && s[i].Contains(a)
    decreases |s|
  {
    if s != [] {
      hide WordAddresses;
      var n := |s| - 1;
      var most := s[..n];
      assert forall i :: 0 <= i < n ==> most[i] == s[i];
      ScannedOnce(most, a);
      WordsOnce(s[n].begin, s[n].End(), a);
      if a in Scanned(most) {
        var i :| 0 <= i < n && most[i].Contains(a);
        assert s[i].Contains(a);
        assert !s[n].Contains(a);
      }
      ConcatCount(Scanned(most), SectionWords(s[n]), a);
    }
  }

  /** With disjoint sections no candidate is returned twice. */
  lemma DisjointSectionsAscendStrictly(g: Module, functions: seq<DataRange>)
    requires Candidates(g, functions).Ok? && PairwiseDisjoint(g.sections)
    ensures var r := Candidates(g, functions).value; forall i, j :: 0 <= i < j < |r| ==> r[i] < r[j]
  {
    var r := Candidates(g, functions).value;
    CandidatesOfWords(g, functions, 0);
    forall i, j | 0 <= i < j < |r| ensures r[i] != r[j] {
      CandidatesOfWords(g, functions, r[i]);
      ScannedOnce(g.sections, Sub32(r[i], 4));
      if r[i] == r[j] {
        TwiceInMultiset(r, i, j);
      }
    }
  }

  lemma TwiceInMultiset(r: seq<Addr>, i: nat, j: nat)
    requires i < j < |r| && r[i] == r[j]
    ensures multiset(r)[r[i]] >= 2
  {
    assert r == r[..j] + [r[j]] + r[j + 1..];
    assert r[..j][i] in multiset(r[..j]);
  }
}
