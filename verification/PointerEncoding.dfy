/** Writing pointer fields, and reading them back: LSB Core Generic 5.0, section 10.5.1. */
module PointerEncoding {
  import opened Machine
  import opened Leb128
  import opened Leb128Properties
  import opened DataViews

  predicate KnownFormat(format: int) {
    format in {ABSPTR, ULEB128, UDATA2, UDATA4, UDATA8, SLEB128, SDATA2, SDATA4, SDATA8}
  }

  predicate SignedFormat(format: int) {
    format in {SLEB128, SDATA2, SDATA4, SDATA8}
  }

  function Width(format: int): nat {
    if format in {UDATA2, SDATA2} then 2 else if format in {UDATA8, SDATA8} then 8 else 4
  }

  /** The numbers a field of this format can hold. */
  predicate Fits(format: int, v: int) {
    if format == ULEB128 then 0 <= v < TWO_64
    else if format == SLEB128 then IsInt64(v)
    else
      var range := Pow2(8 * Width(format));
      if SignedFormat(format) then -(range as int) <= 2 * v < range else 0 <= v < range
  }

  function EncodeField(format: int, v: int): seq<Byte>
    requires Fits(format, v)
  {
    if format == ULEB128 then EncodeULEB(v)
    else if format == SLEB128 then EncodeSLEB(v)
    else LE(if v < 0 then v + Pow2(8 * Width(format)) else v, Width(format))
  }

  /** Reading a field undoes writing it, in every format. */
  lemma ReadUndoesWrite(m: Memory, a: Addr, format: int, v: int)
    requires KnownFormat(format) && Fits(format, v)
    requires Stored(m, a, EncodeField(format, v))
    ensures FormatAt(m, a, format) == Ok((v, a + |EncodeField(format, v)|))
  {
    hide Pow2, LE, Load, Stored, FormatAt, Uleb, Sleb;
    var bs := EncodeField(format, v);
    if format == ULEB128 {
      FormatAtLeb(m, a);
      StoredNotEmpty(m, a, bs);
      UlebUndoesEncoding(m, a, 0, v);
    } else if format == SLEB128 {
      StoredNotEmpty(m, a, bs);
      FormatAtLeb(m, a);
      SlebUndoesEncoding(m, a, 0, v);
    } else {
      var n := Width(format);
      var u := if v < 0 then v + Pow2(8 * n) else v;
      HalfRange(n);
      LoadUndoesStore(m, a, u, n);
      FixedWidth(m, a, format);
      assert SignedFormat(format) ==> Signed(u, n) == v;
    }
  }

  lemma FormatAtLeb(m: Memory, a: Addr)
    ensures FormatAt(m, a, ULEB128) == UlebAt(m, a) && FormatAt(m, a, SLEB128) == SlebAt(m, a)
  {
  }

  lemma FixedWidth(m: Memory, a: Addr, format: int)
    requires KnownFormat(format) && format != ULEB128 && format != SLEB128
    ensures FormatAt(m, a, format) == if SignedFormat(format) then LoadSigned(m, a, Width(format))
                                      else Load(m, a, Width(format))
  {
  }

  lemma HalfRange(n: nat)
    requires n > 0
    ensures Pow2(8 * n) == 2 * Pow2(8 * n - 1)
  {
  }

  /** The difference a pc-relative field at `pc` stores to denote `target`. */
  function Delta(format: int, pc: Addr, target: Addr): int {
    var d := (target - pc) % ADDRESS_SPACE;
    if SignedFormat(format) && 2 * d >= ADDRESS_SPACE then d - ADDRESS_SPACE else d
  }

  /** Every format of at least four bytes can hold every difference. */
  lemma DeltaFits(format: int, pc: Addr, target: Addr)
    requires KnownFormat(format) && format != UDATA2 && format != SDATA2
    ensures Fits(format, Delta(format, pc, target))
  {
    hide Pow2, Delta;
    DeltaRange(format, pc, target);
    Pow2Values();
  }

  /** A two-byte field can hold the difference exactly when some number congruent to it
      modulo 2^32 fits two bytes. */
  lemma NarrowDeltaFits(format: int, pc: Addr, target: Addr)
    requires format == UDATA2 || format == SDATA2
    ensures Fits(format, Delta(format, pc, target)) <==>
            exists v :: Fits(format, v) && (pc + v) % ADDRESS_SPACE == target
  {
    hide Fits, Delta;
    var d := Delta(format, pc, target);
    DeltaRange(format, pc, target);
    DeltaReaches(format, pc, target);
    if v :| Fits(format, v) && (pc + v) % ADDRESS_SPACE == target {
      NarrowRange(format, v);
      SameResidue(pc + v, pc + d);
    }
  }

  lemma DeltaRange(format: int, pc: Addr, target: Addr)
    ensures var d := Delta(format, pc, target);
            if SignedFormat(format) then -ADDRESS_SPACE <= 2 * d < ADDRESS_SPACE else 0 <= d < ADDRESS_SPACE
  {
  }

  lemma SameResidue(x: int, y: int)
    requires x % ADDRESS_SPACE == y % ADDRESS_SPACE && -ADDRESS_SPACE < x - y < ADDRESS_SPACE
    ensures x == y
  {
  }

  /** The numbers a two-byte field can hold. */
  lemma NarrowRange(format: int, v: int)
    requires format == UDATA2 || format == SDATA2
    ensures Fits(format, v) <==> if format == SDATA2 then -0x8000 <= v < 0x8000 else 0 <= v < 0x1_0000
  {
    hide Pow2;
    Pow2Values();
  }

  lemma DeltaReaches(format: int, pc: Addr, target: Addr)
    ensures (pc + Delta(format, pc, target)) % ADDRESS_SPACE == target
  {
  }

  /** A pc-relative field yields the target it was written for, for every format, field
      address and target whose difference the format can hold. */
  lemma PcrelUndoesWrite(m: Memory, pc: Addr, target: Addr, format: int)
    requires KnownFormat(format) && Fits(format, Delta(format, pc, target))
    requires Stored(m, pc, EncodeField(format, Delta(format, pc, target)))
    ensures PointerAt(m, pc, PCREL + format)
            == Ok((Some(target), pc + |EncodeField(format, Delta(format, pc, target))|))
  {
    hide FormatAt, Delta, Fits, EncodeField, PointerAt, Stored;
    var d := Delta(format, pc, target);
    var next := pc + |EncodeField(format, d)|;
    assert FormatAt(m, pc, format) == Ok((d, next)) by { ReadUndoesWrite(m, pc, format, d); }
    assert (pc + d) % ADDRESS_SPACE == target by { DeltaReaches(format, pc, target); }
    PcrelReads(m, pc, format);
  }

  /** Pc-relative decoding adds the address of the field, modulo 2^32. */
  lemma PcrelReads(m: Memory, pc: Addr, format: int)
    requires KnownFormat(format) && FormatAt(m, pc, format).Ok?
    ensures var (v, next) := FormatAt(m, pc, format).value;
            PointerAt(m, pc, PCREL + format) == Ok((Some((pc + v) % ADDRESS_SPACE), next))
  {
    hide FormatAt, KnownFormat;
    LowNibble(format);
  }

  lemma LowNibble(format: int)
    requires KnownFormat(format)
    ensures 0 <= format < 16 && (PCREL + format) % 16 == format
  {
  }
}
