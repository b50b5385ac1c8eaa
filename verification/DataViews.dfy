/** The reading cursor over memory, and the pointer encodings of LSB Core Generic 5.0,
    section 10.5.1. */
module DataViews {
  import opened Machine
  import opened Leb128
  import opened Leb128Properties

  // value formats: the low four bits of an encoding
  const ABSPTR := 0x00
  const ULEB128 := 0x01
  const UDATA2 := 0x02
  const UDATA4 := 0x03
  const UDATA8 := 0x04
  const SLEB128 := 0x09
  const SDATA2 := 0x0A
  const SDATA4 := 0x0B
  const SDATA8 := 0x0C

  // value application: the high four bits
  const PCREL := 0x10
  const OMIT := 0xFF

  const TWO_128 := 0x1_0000_0000_0000_0000_0000_0000_0000_0000

  // ---------------------------------------------------- what a read at `a` delivers

  function LebRead(r: Leb, a: Addr): (o: Result<(int, Addr)>)
    requires r.status.Fine? ==> a + r.n < ADDRESS_SPACE && r.n > 0
    ensures o.Ok? ==> a < o.value.1
  {
    match r.status
    case Fine => Ok((r.value, a + r.n))
    case PastEnd => Err(LebPastEnd)
    case TooBig => Err(LebTooBig)
    case Unmapped => Err(Fault)
    case Undef => Err(Undefined)
  }

  /** The readers pass a null end pointer. */
  function UlebAt(m: Memory, a: Addr): (r: Result<(int, Addr)>)
    ensures r.Ok? ==> a < r.value.1
  {
    LebRead(Uleb(m, a, 0), a)
  }

  function SlebAt(m: Memory, a: Addr): (r: Result<(int, Addr)>)
    ensures r.Ok? ==> a < r.value.1
  {
    LebRead(Sleb(m, a, 0), a)
  }

  function LoadSigned(m: Memory, a: Addr, n: nat): (r: Result<(int, Addr)>)
    requires n > 0
  {
    var (v, next) :- Load(m, a, n);
    Ok((Signed(v, n), next))
  }

  /** A value in one of the nine formats, before any application. */
  function FormatAt(m: Memory, a: Addr, format: int): (r: Result<(int, Addr)>)
    ensures r.Ok? ==> a < r.value.1
  {
    if format == ABSPTR then Load32(m, a)
    else if format == ULEB128 then UlebAt(m, a)
    else if format == UDATA2 then Load(m, a, 2)
    else if format == UDATA4 then Load32(m, a)
    else if format == UDATA8 then Load(m, a, 8)
    else if format == SLEB128 then SlebAt(m, a)
    else if format == SDATA2 then LoadSigned(m, a, 2)
    else if format == SDATA4 then LoadSigned(m, a, 4)
    else if format == SDATA8 then LoadSigned(m, a, 8)
    else Err(UnknownFormat)
  }

  function RawAt(m: Memory, a: Addr, encoding: Byte): (r: Result<(Option<int>, Addr)>) {
    if encoding == OMIT then Ok((None, a))
    else
      var (v, next) :- FormatAt(m, a, encoding % 16);
      Ok((Some(v), next))
  }

  /** An encoded pointer: relative to the address `a` of the field itself. */
  function PointerAt(m: Memory, a: Addr, encoding: Byte): (r: Result<(Option<Addr>, Addr)>)
    ensures r.Ok? && r.value.0.Some? ==> a < r.value.1
  {
    if encoding == OMIT then Ok((None, a))
    else
      var (v, next) :- FormatAt(m, a, encoding % 16);
      if encoding - encoding % 16 != PCREL then Err(UnknownApplication)
      else Ok((Some((a + v) % ADDRESS_SPACE), next))
  }

  /** Where the cursor stands after a read: moved only by a successful one. */
  function After<T>(r: Result<(T, Addr)>, a: Addr): Addr {
    if r.Ok? then r.value.1 else a
  }

  function Value<T>(r: Result<(T, Addr)>): Result<T> {
    if r.Ok? then Ok(r.value.0) else Err(r.error)
  }

  lemma FormatBound(m: Memory, a: Addr, format: int)
    requires FormatAt(m, a, format).Ok?
    ensures -TWO_63 <= FormatAt(m, a, format).value.0 < TWO_64
  {
    if format == SLEB128 {
      SlebBound(m, a, 0, 0, 0);
    } else if format != ULEB128 {
      var n := if format in {UDATA2, SDATA2} then 2 else if format in {UDATA8, SDATA8} then 8 else 4;
      LoadedBound(m, a, n);
    }
  }

  lemma LoadedBound(m: Memory, a: Addr, n: nat)
    requires 0 < n <= 8 && Load(m, a, n).Ok?
    ensures 0 <= Load(m, a, n).value.0 < TWO_64
    ensures -TWO_63 <= LoadSigned(m, a, n).value.0 < TWO_63
  {
    var v, half := Load(m, a, n).value.0, Pow2(8 * n - 1);
    LoadBound(m, a, n);
    assert v < Pow2(8 * n) == 2 * half;
    assert half <= TWO_63 by { Pow2Values(); Pow2Monotone(8 * n - 1, 63); }
  }

  lemma {:induction false} SlebBound(m: Memory, p: Addr, end: Addr, k: nat, sum: nat)
    requires sum < Pow2(7 * k)
    requires k > 9 ==> sum < TWO_63 || (k == 10 && 127 * TWO_63 <= sum)
    requires k == 9 ==> sum < TWO_63
    ensures IsInt64(SlebScan(m, p, end, k, sum).value)
    decreases ADDRESS_SPACE - (p + k)
  {
    hide Pow2;
    if p + k != end && p + k in m {
      var g := m[p + k] % 128;
      var total := sum + g * Pow2(7 * k);
      NextGroup(g, 7 * k, sum);
      if k < 9 || (k == 9 && (g == 0 || g == 127)) || (k > 9 && sum < TWO_63 && g == 0) {
        StepBound(sum, g, k);
        SlebBound(m, p, end, k + 1, total);
      }
    }
  }

  lemma StepBound(sum: nat, g: nat, k: nat)
    requires sum < Pow2(7 * k) && g < 128
    requires k == 9 ==> sum < TWO_63 && (g == 0 || g == 127)
    requires k > 9 ==> sum < TWO_63 && g == 0
    ensures var total := sum + g * Pow2(7 * k);
            && (k == 8 ==> total < TWO_63)
            && (k == 9 ==> total < TWO_63 || 127 * TWO_63 <= total)
            && IsInt64(if g >= 64 then total - Pow2(7 * (k + 1)) else total)
  {
    NextRange(sum, g, k);
    NextPower(k);
    LastGroup(sum, g, Pow2(7 * k), k);
  }

  class DataView {
    const mem: Memory
    var dataPtr: Addr

    constructor (mem: Memory, dataPtr: Addr)
      ensures this.mem == mem && this.dataPtr == dataPtr
    {
      this.mem := mem;
      this.dataPtr := dataPtr;
    }

    /** `read<T>` for an unsigned T of `size` bytes. */
    method ReadUnsigned(size: nat) returns (r: Result<nat>)
      modifies this
      ensures r == Value(Load(mem, old(dataPtr), size))
      ensures dataPtr == After(Load(mem, old(dataPtr), size), old(dataPtr))
    {
      var data :- LoadLE(mem, dataPtr, size);
      assert Load(mem, dataPtr, size).Ok?;
      dataPtr := dataPtr + size;
      return Ok(data);
    }

    method ReadWord() returns (r: Result<Addr>)
      modifies this
      ensures r == Value(Load32(mem, old(dataPtr)))
      ensures dataPtr == After(Load32(mem, old(dataPtr)), old(dataPtr))
    {
      var data :- ReadUnsigned(4);
      return Ok(data);
    }

    /** `read<T>` for a signed T of `size` bytes. */
    method ReadSigned(size: nat) returns (r: Result<int>)
      requires size > 0
      modifies this
      ensures r == Value(LoadSigned(mem, old(dataPtr), size))
      ensures dataPtr == After(LoadSigned(mem, old(dataPtr), size), old(dataPtr))
    {
      var data :- ReadUnsigned(size);
      return Ok(Signed(data, size));
    }

    method ReadString() returns (r: Result<string>)
      modifies this
      ensures r == Value(StringAt(mem, old(dataPtr)))
      ensures dataPtr == After(StringAt(mem, old(dataPtr)), old(dataPtr))
    {
      var read :- StringAt(mem, dataPtr);
      dataPtr := dataPtr + |read.0| + 1;
      return Ok(read.0);
    }

    method ReadUleb128() returns (r: Result<int>)
      modifies this
      ensures r == Value(UlebAt(mem, old(dataPtr)))
      ensures dataPtr == After(UlebAt(mem, old(dataPtr)), old(dataPtr))
    {
      var leb := DecodeULEB128(mem, dataPtr, 0);
      var read :- LebRead(leb, dataPtr);
      dataPtr := dataPtr + leb.n;
      return Ok(read.0);
    }

    method ReadSleb128() returns (r: Result<int>)
      modifies this
      ensures r == Value(SlebAt(mem, old(dataPtr)))
      ensures dataPtr == After(SlebAt(mem, old(dataPtr)), old(dataPtr))
    {
      var leb := DecodeSLEB128(mem, dataPtr, 0);
      var read :- LebRead(leb, dataPtr);
      dataPtr := dataPtr + leb.n;
      return Ok(read.0);
    }

    method ReadDwarfEncodedNoApplication(encoding: Byte) returns (r: Result<Option<int>>)
      modifies this
      ensures r == Value(RawAt(mem, old(dataPtr), encoding))
      ensures dataPtr == After(RawAt(mem, old(dataPtr), encoding), old(dataPtr))
    {
      if encoding == OMIT { return Ok(None); }
      var format := encoding % 16;
      var value: int;
      if format == ABSPTR { value :- ReadWord(); }
      else if format == ULEB128 { value :- ReadUleb128(); }
      else if format == UDATA2 { value :- ReadUnsigned(2); }
      else if format == UDATA4 { value :- ReadWord(); }
      else if format == UDATA8 { value :- ReadUnsigned(8); }
      else if format == SLEB128 { value :- ReadSleb128(); }
      else if format == SDATA2 { value :- ReadSigned(2); }
      else if format == SDATA4 { value :- ReadSigned(4); }
      else if format == SDATA8 { value :- ReadSigned(8); }
      else { return Err(UnknownFormat); }
      return Ok(Some(value));
    }

    /** The 128-bit sum neither overflows nor loses anything on its way to 32 bits. */
    method ReadDwarfEncoded(encoding: Byte) returns (r: Result<Option<Addr>>)
      modifies this
      ensures r == Value(PointerAt(mem, old(dataPtr), encoding))
      ensures dataPtr == After(RawAt(mem, old(dataPtr), encoding), old(dataPtr))
      ensures r.Ok? ==> dataPtr == After(PointerAt(mem, old(dataPtr), encoding), old(dataPtr))
    {
      hide FormatAt;
      var pcRelPtr := dataPtr;
      var raw :- ReadDwarfEncodedNoApplication(encoding);
      if raw.None? { return Ok(None); }
      if encoding - encoding % 16 != PCREL { return Err(UnknownApplication); }
      FormatBound(mem, pcRelPtr, encoding % 16);
      var sum := pcRelPtr + raw.value;
      assert -TWO_128 / 2 <= sum < TWO_128 / 2;
      WideTruncation(sum);
      return Ok(Some(sum % TWO_128 % ADDRESS_SPACE));
    }
  }

  // going through uint128 does not change the value modulo 2^32
  lemma WideTruncation(x: int)
    requires -TWO_128 / 2 <= x < TWO_128 / 2
    ensures x % TWO_128 % ADDRESS_SPACE == x % ADDRESS_SPACE
  {
    if x < 0 {
      assert x % TWO_128 == x + TWO_128;
      assert (x + TWO_128) == x + ADDRESS_SPACE * 0x1_0000_0000_0000_0000_0000_0000;
    }
  }
}
