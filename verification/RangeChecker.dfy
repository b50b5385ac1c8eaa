/** The bitset that stands for a union of address intervals. */
module RangeChecker {
  import opened Machine

  // range_bs_t: 150 Mi positions from the base address on
  const WINDOW := 157286400

  /** The bit that stands for address `p`. */
  function Position(base: Addr, p: Addr): Addr { Sub32(p, base) }

  predicate InWindow(base: Addr, p: Addr) { Position(base, p) < WINDOW }

  /** `p` lies in one of the intervals. */
  ghost predicate Covered(rs: seq<DataRange>, p: int) {
    exists r :: r in rs && r.Contains(p)
  }

  lemma CoveredSnoc(rs: seq<DataRange>, r: DataRange, p: int)
    ensures Covered(rs + [r], p) <==> Covered(rs, p) || r.Contains(p)
  {
    if Covered(rs, p) {
      var x :| x in rs && x.Contains(p);
      assert x in rs + [r];
    }
    if r.Contains(p) { assert r in rs + [r]; }
  }

  lemma PositionInjective(base: Addr, p: Addr, q: Addr)
    ensures Position(base, p) == Position(base, q) ==> p == q
  {
  }

  /** Every address of `r` has a bit. */
  ghost predicate Fits(base: Addr, r: DataRange) {
    forall p: Addr :: r.Contains(p) ==> InWindow(base, p)
  }

  class DataRangeChecker {
    const base: Addr
    const range: array<bool>

    ghost predicate Valid() {
      range.Length == WINDOW
    }

    /** The addresses marked so far. */
    ghost predicate Marked(p: Addr)
      requires Valid()
      reads range
    {
      InWindow(base, p) && range[Position(base, p)]
    }

    /** The marked addresses are exactly those in the intervals `rs`, within the window. */
    ghost predicate Represents(rs: seq<DataRange>)
      requires Valid()
      reads range
    {
      forall p: Addr :: InWindow(base, p) ==> (Marked(p) <==> Covered(rs, p))
    }

    constructor (base: Addr)
      ensures Valid() && fresh(range) && this.base == base
      ensures Represents([])
    {
      this.base := base;
      this.range := new bool[WINDOW](_ => false);
    }

    /** Marks the addresses of `r`, in order, up to the first without a bit, at which
        `std::bitset::set` throws. */
    method AddRange(r: DataRange) returns (result: Result<()>)
      requires Valid()
      modifies range
      ensures result == if Fits(base, r) then Ok(()) else Err(OutOfRange)
      ensures forall p: Addr :: InWindow(base, p) ==>
                (Marked(p) <==>
                  (old(Marked(p)) || (r.Contains(p) && forall q: Addr :: r.begin <= q <= p ==> InWindow(base, q))))
    {
      var i, end := r.begin, r.End();
      while i < end
        invariant r.begin <= i <= (if r.begin <= end then end else r.begin)
        invariant forall q: Addr :: r.begin <= q < i ==> InWindow(base, q)
        invariant forall p: Addr :: InWindow(base, p) ==> (Marked(p) <==> old(Marked(p)) || r.begin <= p < i)
      {
        if Sub32(i, base) >= WINDOW {
          assert r.Contains(i) && !InWindow(base, i);
          return Err(OutOfRange);
        }
        forall p: Addr ensures Position(base, p) == Position(base, i) ==> p == i {
          PositionInjective(base, p, i);
        }
        range[Sub32(i, base)] := true;
        i := i + 1;
      }
      return Ok(());
    }

    /** `std::bitset::test` throws past the window. */
    method IsPositionInRange(position: Addr) returns (result: Result<bool>)
      requires Valid()
      ensures result == if InWindow(base, position) then Ok(Marked(position)) else Err(OutOfRange)
    {
      if Sub32(position, base) >= WINDOW { return Err(OutOfRange); }
      return Ok(range[Sub32(position, base)]);
    }
  }

  /** Adding intervals one after another, as the module scan does: when none leaves the
      window, membership afterwards is membership in some interval. */
  method AddRanges(checker: DataRangeChecker, rs: seq<DataRange>) returns (result: Result<()>)
    requires checker.Valid() && checker.Represents([])
    modifies checker.range
    ensures result.Ok? <==> forall r :: r in rs ==> Fits(checker.base, r)
    ensures result.Ok? ==> checker.Represents(rs)
    ensures result.Err? ==> result.error == OutOfRange
  {
    for i := 0 to |rs|
      invariant checker.Represents(rs[..i])
      invariant forall r :: r in rs[..i] ==> Fits(checker.base, r)
    {
      assert rs[..i + 1] == rs[..i] + [rs[i]];
      var _ :- checker.AddRange(rs[i]);
      forall p: Addr ensures Covered(rs[..i + 1], p) <==> Covered(rs[..i], p) || rs[i].Contains(p) {
        CoveredSnoc(rs[..i], rs[i], p);
      }
    }
    assert rs[..|rs|] == rs;
    return Ok(());
  }

  /** The answer depends on which intervals were added, not on their order or number. */
  lemma OrderIrrelevant(rs: seq<DataRange>, ts: seq<DataRange>, p: int)
    requires forall r :: r in rs <==> r in ts
    ensures Covered(rs, p) <==> Covered(ts, p)
  {
    if Covered(rs, p) {
      var r :| r in rs && r.Contains(p);
      assert r in ts;
    }
  }
}
