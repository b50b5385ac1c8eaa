/** LEB128 decoding (DWARF 4, section 7.6) with 64-bit overflow checks. */
module Leb128 {
  import opened Machine
  import opened Bits

  /** How a decoder stopped.  `Undef` marks a nonzero slice shifted by 64 or more, to which
      C++ gives no meaning. */
  datatype Status = Fine | PastEnd | TooBig | Unmapped | Undef

  /** The decoders' value, byte count and error outputs. */
  datatype Leb = Leb(value: int, n: nat, status: Status)

  // ------------------------------------------------------------ what bytes denote

  /** One byte string in LEB128 form: the last byte alone is below 128. */
  predicate IsLeb(bs: seq<Byte>) {
    bs != [] && bs[|bs| - 1] < 128 && forall i :: 0 <= i < |bs| - 1 ==> bs[i] >= 128
  }

  /** Sum of the 7-bit groups, least significant first. */
  function Unsigned(bs: seq<Byte>): nat {
    if bs == [] then 0 else bs[0] % 128 + 128 * Unsigned(bs[1..])
  }

  /** Two's-complement reading: the last group's top bit is the sign. */
  function SignedValue(bs: seq<Byte>): int
    requires bs != []
  {
    var g := bs[0] % 128;
    if |bs| == 1 then (if g >= 64 then g - 128 else g) else g + 128 * SignedValue(bs[1..])
  }

  predicate IsInt64(v: int) {
    -TWO_63 <= v < TWO_63
  }

  /** Short enough for the 32-bit `Shift` counter not to wrap around. */
  predicate Short(bs: seq<Byte>) {
    7 * |bs| <= UINT32_MAX
  }

  // ------------------------------------------------------------- 64-bit arithmetic

  // 64-bit shifts; a shift of 64 or more happens on 0 only and is read as 0.
  function Shl64(x: nat, s: nat): nat { x * Pow2(s) % TWO_64 }

  function Shr64(x: nat, s: nat): int { x / Pow2(s) }

  function ToInt64(u: int): int {
    var w := u % TWO_64;
    if w >= TWO_63 then w - TWO_64 else w
  }

  // `Value |= x` on the 64-bit pattern of a signed value
  function OrInt64(value: int, x: nat): int { ToInt64(BitOr(value % TWO_64, x)) }

  // the overflow test of the unsigned decoder
  predicate LosesBits(slice: nat, shift: nat) {
    (shift >= 64 && slice != 0) || Shr64(Shl64(slice, shift), shift) != slice
  }

  // `Shift += 7` on a 32-bit counter
  function NextShift(shift: nat): nat { (shift + 7) % ADDRESS_SPACE }

  // the sign extension behind the signed loop
  function Extended(value: int, shift: nat, byte: Byte): int {
    if shift < 64 && byte / 64 % 2 == 1 then OrInt64(value, Shl64(TWO_64 - 1, shift)) else value
  }

  // -------------------------------------------------------- what the decoders return

  /** Result of `decodeULEB128` once its shift counter has wrapped around: whatever the loop
      computes from there. */
  function UlebWrapped(m: Memory, p: Addr, end: Addr, k: nat, value: nat, shift: nat): (r: Leb)
    ensures r.status.Fine? ==> p + r.n < ADDRESS_SPACE && r.n > k && 0 <= r.value < TWO_64
    ensures !r.status.Fine? ==> r.value == 0
    decreases ADDRESS_SPACE - (p + k)
  {
    if p + k == end then Leb(0, k, PastEnd)
    else if p + k !in m then Leb(0, k, Unmapped)
    else
      var slice := m[p + k] % 128;
      var sum := (value + Shl64(slice, shift)) % TWO_64;
      if LosesBits(slice, shift) then Leb(0, k, TooBig)
      else if m[p + k] < 128 then Leb(sum, k + 1, Fine)
      else UlebWrapped(m, p, end, k + 1, sum, NextShift(shift))
  }

  /** Result of `decodeULEB128` once `k` groups at `p` have contributed `sum`. */
  function UlebScan(m: Memory, p: Addr, end: Addr, k: nat, sum: nat): (r: Leb)
    ensures r.status.Fine? ==> p + r.n < ADDRESS_SPACE && r.n > k && 0 <= r.value < TWO_64
    ensures !r.status.Fine? ==> r.value == 0
    decreases ADDRESS_SPACE - (p + k)
  {
    if p + k == end then Leb(0, k, PastEnd)
    else if p + k !in m then Leb(0, k, Unmapped)
    else if 7 * k > UINT32_MAX then UlebWrapped(m, p, end, k, sum, 7 * k % ADDRESS_SPACE)
    else
      var total := sum + m[p + k] % 128 * Pow2(7 * k);
      if total >= TWO_64 then Leb(0, k, TooBig)
      else if m[p + k] < 128 then Leb(total, k + 1, Fine)
      else UlebScan(m, p, end, k + 1, total)
  }

  function Uleb(m: Memory, p: Addr, end: Addr): (r: Leb)
    ensures r.status.Fine? ==> p + r.n < ADDRESS_SPACE && r.n > 0 && 0 <= r.value < TWO_64
    ensures !r.status.Fine? ==> r.value == 0
  {
    UlebScan(m, p, end, 0, 0)
  }

  /** Result of `decodeSLEB128` once its shift counter has wrapped around. */
  function SlebWrapped(m: Memory, p: Addr, end: Addr, k: nat, value: int, shift: nat): (r: Leb)
    ensures r.status.Fine? ==> p + r.n < ADDRESS_SPACE && r.n > k
    ensures !r.status.Fine? ==> r.value == 0
    ensures IsInt64(r.value)
    decreases ADDRESS_SPACE - (p + k)
  {
    if p + k == end then Leb(0, k, PastEnd)
    else if p + k !in m then Leb(0, k, Unmapped)
    else
      var slice := m[p + k] % 128;
      if (shift >= 64 && slice != (if value < 0 then 127 else 0)) || (shift == 63 && slice != 0 && slice != 127) then
        Leb(0, k, TooBig)
      else if shift >= 64 && slice != 0 then Leb(0, k, Undef)
      else
        var next := OrInt64(value, Shl64(slice, shift));
        if m[p + k] < 128 then Leb(Extended(next, NextShift(shift), m[p + k]), k + 1, Fine)
        else SlebWrapped(m, p, end, k + 1, next, NextShift(shift))
  }

  /** Result of `decodeSLEB128` once `k` groups at `p` have contributed `sum`.
      From the tenth group on every group must repeat the sign. */
  function SlebScan(m: Memory, p: Addr, end: Addr, k: nat, sum: nat): (r: Leb)
    ensures r.status.Fine? ==> p + r.n < ADDRESS_SPACE && r.n > k
    ensures !r.status.Fine? ==> r.value == 0
    decreases ADDRESS_SPACE - (p + k)
  {
    if p + k == end then Leb(0, k, PastEnd)
    else if p + k !in m then Leb(0, k, Unmapped)
    else if 7 * k > UINT32_MAX then SlebWrapped(m, p, end, k, sum, 7 * k % ADDRESS_SPACE)
    else
      var g := m[p + k] % 128;
      var total := sum + g * Pow2(7 * k);
      if k == 9 && g != 0 && g != 127 then Leb(0, k, TooBig)
      else if k > 9 && g != (if sum >= TWO_63 then 127 else 0) then Leb(0, k, TooBig)
      else if k > 9 && g != 0 then Leb(0, k, Undef)
      else if m[p + k] < 128 then Leb(if g >= 64 then total - Pow2(7 * (k + 1)) else total, k + 1, Fine)
      else SlebScan(m, p, end, k + 1, total)
  }

  function Sleb(m: Memory, p: Addr, end: Addr): (r: Leb)
    ensures r.status.Fine? ==> p + r.n < ADDRESS_SPACE && r.n > 0
    ensures !r.status.Fine? ==> r.value == 0
  {
    SlebScan(m, p, end, 0, 0)
  }

  // ------------------------------------------------------------------- the decoders

  method DecodeULEB128(m: Memory, p0: Addr, end: Addr) returns (r: Leb)
    ensures r == Uleb(m, p0, end)
  {
    hide Pow2, Shl64, LosesBits, BitAnd, UlebScan, UlebWrapped;
    var p: int, value: nat, shift: nat := p0, 0, 0;
    var more := true;
    while more
      invariant p0 <= p && (p > p0 ==> p - 1 in m)
      invariant UlebState(m, p0, end, p - p0, value, shift, more)
      decreases more, ADDRESS_SPACE - p
    {
      UlebAtByte(m, p0, end, p - p0, value, shift);
      if p == end { return Leb(0, p - p0, PastEnd); }
      if p !in m { return Leb(0, p - p0, Unmapped); }
      UlebStep(m, p0, end, p - p0, value, shift);
      var slice := BitAnd(m[p], 0x7f);
      SliceIsGroup(m[p]);
      if LosesBits(slice, shift) {
        return Leb(0, p - p0, TooBig);
      }
      value := (value + Shl64(slice, shift)) % TWO_64;
      shift := NextShift(shift);
      more := m[p] >= 128;
      p := p + 1;
    }
    return Leb(value, p - p0, Fine);
  }

  /** What holds of the unsigned decoder after `k` bytes. */
  ghost predicate UlebState(m: Memory, p0: Addr, end: Addr, k: nat, value: nat, shift: nat, more: bool) {
    && shift == 7 * k % ADDRESS_SPACE && value < TWO_64
    && if !more then Uleb(m, p0, end) == Leb(value, k, Fine)
       else if 7 * k <= UINT32_MAX then value < Pow2(shift) && Uleb(m, p0, end) == UlebScan(m, p0, end, k, value)
       else Uleb(m, p0, end) == UlebWrapped(m, p0, end, k, value, shift)
  }

  ghost function AddGroup(sum: nat, g: nat, k: nat): nat {
    sum + g * Pow2(7 * k)
  }

  lemma UlebAtByte(m: Memory, p0: Addr, end: Addr, k: nat, value: nat, shift: nat)
    requires UlebState(m, p0, end, k, value, shift, true)
    ensures p0 + k == end ==> Uleb(m, p0, end) == Leb(0, k, PastEnd)
    ensures p0 + k != end && p0 + k !in m ==> Uleb(m, p0, end) == Leb(0, k, Unmapped)
  {
    hide Uleb, Pow2, Shl64, LosesBits;
  }

  /** The loop refuses the next group or takes it in. */
  ghost predicate UlebNext(m: Memory, p0: Addr, end: Addr, k: nat, value: nat, shift: nat)
    requires p0 + k in m
  {
    var byte := m[p0 + k];
    var slice := byte % 128;
    if LosesBits(slice, shift) then Uleb(m, p0, end) == Leb(0, k, TooBig)
    else UlebState(m, p0, end, k + 1, (value + Shl64(slice, shift)) % TWO_64, NextShift(shift), byte >= 128)
  }

  lemma UlebStep(m: Memory, p0: Addr, end: Addr, k: nat, value: nat, shift: nat)
    requires p0 + k != end && p0 + k in m && UlebState(m, p0, end, k, value, shift, true)
    ensures UlebNext(m, p0, end, k, value, shift)
  {
    hide Uleb, UlebNext, UlebScan, UlebWrapped, Pow2;
    CounterMod(k);
    if 7 * k <= UINT32_MAX {
      UlebScanStep(m, p0, end, k, value);
    } else {
      UlebWrappedStep(m, p0, end, k, value, shift);
    }
  }

  lemma UlebWrappedStep(m: Memory, p0: Addr, end: Addr, k: nat, value: nat, shift: nat)
    requires p0 + k != end && p0 + k in m && 7 * k > UINT32_MAX && shift == 7 * k % ADDRESS_SPACE
    requires Uleb(m, p0, end) == UlebWrapped(m, p0, end, k, value, shift)
    ensures UlebNext(m, p0, end, k, value, shift)
  {
    hide Uleb, UlebScan, Pow2, Shl64, LosesBits;
    CounterMod(k);
  }

  lemma UlebScanStep(m: Memory, p0: Addr, end: Addr, k: nat, value: nat)
    requires p0 + k != end && p0 + k in m && 7 * k <= UINT32_MAX
    requires value < TWO_64 && value < Pow2(7 * k) && Uleb(m, p0, end) == UlebScan(m, p0, end, k, value)
    ensures UlebNext(m, p0, end, k, value, 7 * k)
  {
    hide Uleb, UlebScan, UlebWrapped, Pow2, Shl64, LosesBits, AddGroup;
    var slice := m[p0 + k] % 128;
    CounterMod(k);
    AddOrOverflow(value, slice, k);
    UlebUnfold(m, p0, end, k, value);
    if 7 * (k + 1) > UINT32_MAX { UlebNowWrapped(m, p0, end, k + 1, AddGroup(value, slice, k)); }
  }

  lemma AddOrOverflow(value: nat, slice: nat, k: nat)
    requires slice < 128 && value < TWO_64 && value < Pow2(7 * k)
    ensures LosesBits(slice, 7 * k) <==> AddGroup(value, slice, k) >= TWO_64
    ensures !LosesBits(slice, 7 * k) ==>
              (value + Shl64(slice, 7 * k)) % TWO_64 == AddGroup(value, slice, k) < Pow2(7 * (k + 1))
  {
    hide Pow2, Shl64, LosesBits;
    OverflowCheck(slice, 7 * k, value);
    NextGroup(slice, 7 * k, value);
  }

  lemma UlebUnfold(m: Memory, p: Addr, end: Addr, k: nat, value: nat)
    requires p + k != end && p + k in m && 7 * k <= UINT32_MAX
    ensures var total := AddGroup(value, m[p + k] % 128, k);
            UlebScan(m, p, end, k, value)
            == if total >= TWO_64 then Leb(0, k, TooBig)
               else if m[p + k] < 128 then Leb(total, k + 1, Fine)
               else UlebScan(m, p, end, k + 1, total)
  {
    hide Pow2, UlebWrapped;
  }

  lemma UlebNowWrapped(m: Memory, p: Addr, end: Addr, k: nat, sum: nat)
    requires 7 * k > UINT32_MAX
    ensures UlebScan(m, p, end, k, sum) == UlebWrapped(m, p, end, k, sum, 7 * k % ADDRESS_SPACE)
  {
  }

  lemma CounterMod(k: nat)
    ensures NextShift(7 * k % ADDRESS_SPACE) == 7 * (k + 1) % ADDRESS_SPACE
    ensures 7 * k <= UINT32_MAX ==> 7 * k % ADDRESS_SPACE == 7 * k
  {
    var x := 7 * k;
    var q, r := x / ADDRESS_SPACE, x % ADDRESS_SPACE;
    assert x == q * ADDRESS_SPACE + r;
    if r + 7 < ADDRESS_SPACE {
      DivModUnique(r + 7, ADDRESS_SPACE, 0, r + 7);
      DivModUnique(x + 7, ADDRESS_SPACE, q, r + 7);
    } else {
      DivModUnique(r + 7, ADDRESS_SPACE, 1, r + 7 - ADDRESS_SPACE);
      DivModUnique(x + 7, ADDRESS_SPACE, q + 1, r + 7 - ADDRESS_SPACE);
    }
    if x <= UINT32_MAX { DivModUnique(x, ADDRESS_SPACE, 0, x); }
  }

  method DecodeSLEB128(m: Memory, p0: Addr, end: Addr) returns (r: Leb)
    ensures r == Sleb(m, p0, end)
  {
    hide Pow2, OrInt64, Shl64, BitAnd, SlebScan, SlebWrapped, Accumulated;
    StartState(m, p0, end);
    var p: int, value: int, shift: nat := p0, 0, 0;
    ghost var sum: nat := 0;
    var byte: Byte := 128;
    while byte >= 128
      invariant p0 <= p && (p > p0 ==> p - 1 in m)
      invariant SlebState(m, p0, end, p - p0, value, shift, sum, byte)
      decreases byte >= 128, ADDRESS_SPACE - p
    {
      SlebAtByte(m, p0, end, p - p0, value, shift, sum, byte);
      if p == end { return Leb(0, p - p0, PastEnd); }
      if p !in m { return Leb(0, p - p0, Unmapped); }
      SlebStep(m, p0, end, p - p0, value, shift, sum, byte);
      byte := m[p];
      var slice := BitAnd(byte, 0x7f);
      SliceIsGroup(byte);
      if (shift >= 64 && slice != (if value < 0 then 0x7f else 0)) ||
         (shift == 63 && slice != 0 && slice != 0x7f) {
        return Leb(0, p - p0, TooBig);
      }
      if shift >= 64 && slice != 0 { return Leb(0, p - p0, Undef); }
      value := OrInt64(value, Shl64(slice, shift));
      sum := AddGroup(sum, slice, p - p0);
      shift := NextShift(shift);
      p := p + 1;
    }
    if shift < 64 && byte / 64 % 2 == 1 {
      value := OrInt64(value, Shl64(TWO_64 - 1, shift));
    }
    return Leb(value, p - p0, Fine);
  }

  /** What holds of the signed decoder after `k` bytes, `byte` the last one read. */
  ghost predicate SlebState(m: Memory, p0: Addr, end: Addr, k: nat, value: int, shift: nat, sum: nat, byte: Byte) {
    && shift == 7 * k % ADDRESS_SPACE
    && if byte < 128 then Sleb(m, p0, end) == Leb(Extended(value, shift, byte), k, Fine)
       else if 7 * k <= UINT32_MAX then
         sum < Pow2(7 * k) && Accumulated(value, sum, k) && Sleb(m, p0, end) == SlebScan(m, p0, end, k, sum)
       else Sleb(m, p0, end) == SlebWrapped(m, p0, end, k, value, shift)
  }

  lemma StartState(m: Memory, p0: Addr, end: Addr)
    ensures SlebState(m, p0, end, 0, 0, 0, 0, 128)
  {
  }

  lemma SlebAtByte(m: Memory, p0: Addr, end: Addr, k: nat, value: int, shift: nat, sum: nat, byte: Byte)
    requires SlebState(m, p0, end, k, value, shift, sum, byte) && byte >= 128
    ensures p0 + k == end ==> Sleb(m, p0, end) == Leb(0, k, PastEnd)
    ensures p0 + k != end && p0 + k !in m ==> Sleb(m, p0, end) == Leb(0, k, Unmapped)
  {
    hide Sleb, Pow2, OrInt64, Shl64, Accumulated;
  }

  /** The loop refuses the next group, cannot shift it, or takes it in. */
  ghost predicate SlebNext(m: Memory, p0: Addr, end: Addr, k: nat, value: int, shift: nat, sum: nat)
    requires p0 + k in m
  {
    var byte := m[p0 + k];
    var g := byte % 128;
    if (shift >= 64 && g != (if value < 0 then 127 else 0)) || (shift == 63 && g != 0 && g != 127) then
      Sleb(m, p0, end) == Leb(0, k, TooBig)
    else if shift >= 64 && g != 0 then Sleb(m, p0, end) == Leb(0, k, Undef)
    else SlebState(m, p0, end, k + 1, OrInt64(value, Shl64(g, shift)), NextShift(shift), AddGroup(sum, g, k), byte)
  }

  lemma SlebStep(m: Memory, p0: Addr, end: Addr, k: nat, value: int, shift: nat, sum: nat, byte: Byte)
    requires p0 + k != end && p0 + k in m
    requires SlebState(m, p0, end, k, value, shift, sum, byte) && byte >= 128
    ensures SlebNext(m, p0, end, k, value, shift, sum)
  {
    hide Sleb, SlebNext, SlebScan, SlebWrapped, Accumulated, Pow2;
    CounterMod(k);
    if 7 * k <= UINT32_MAX {
      SlebScanStep(m, p0, end, k, value, sum);
    } else {
      SlebWrappedStep(m, p0, end, k, value, shift, sum);
    }
  }

  lemma SlebWrappedStep(m: Memory, p0: Addr, end: Addr, k: nat, value: int, shift: nat, sum: nat)
    requires p0 + k != end && p0 + k in m && 7 * k > UINT32_MAX && shift == 7 * k % ADDRESS_SPACE
    requires Sleb(m, p0, end) == SlebWrapped(m, p0, end, k, value, shift)
    ensures SlebNext(m, p0, end, k, value, shift, sum)
  {
    hide Sleb, OrInt64, Shl64, Extended, Accumulated, AddGroup, SlebScan, Pow2;
    CounterMod(k);
  }

  lemma SlebScanStep(m: Memory, p0: Addr, end: Addr, k: nat, value: int, sum: nat)
    requires p0 + k != end && p0 + k in m && 7 * k <= UINT32_MAX
    requires sum < Pow2(7 * k) && Accumulated(value, sum, k)
    requires Sleb(m, p0, end) == SlebScan(m, p0, end, k, sum)
    ensures SlebNext(m, p0, end, k, value, 7 * k, sum)
  {
    hide Pow2, OrInt64, Shl64, Sleb, Extended, Accumulated, SlebWrapped, SlebScan, AddGroup;
    var byte := m[p0 + k];
    var g := byte % 128;
    CounterMod(k);
    SignOf(value, sum, k);
    SlebUnfold(m, p0, end, k, sum);
    if k < 9 || (k == 9 && (g == 0 || g == 127)) || (k > 9 && g == 0 && value >= 0) {
      var next, total := OrInt64(value, Shl64(g, 7 * k)), AddGroup(sum, g, k);
      TakeGroup(value, sum, g, k);
      if byte < 128 {
        LastByte(next, total, k + 1, byte);
      } else if 7 * (k + 1) > UINT32_MAX {
        SlebNowWrapped(m, p0, end, k + 1, total);
        SignOf(next, total, k + 1);
      }
    }
  }

  lemma TakeGroup(value: int, sum: nat, g: nat, k: nat)
    requires g < 128 && sum < Pow2(7 * k) && Accumulated(value, sum, k)
    requires k == 9 ==> g == 0 || g == 127
    requires k > 9 ==> g == 0 && value >= 0
    ensures var total := AddGroup(sum, g, k);
            && Accumulated(OrInt64(value, Shl64(g, 7 * k)), total, k + 1) && total < Pow2(7 * (k + 1))
            && (k == 9 ==> (g >= 64 <==> total >= TWO_63)) && (k > 9 ==> total < TWO_63)
  {
    hide Pow2, OrInt64, Shl64, Accumulated;
    SignOf(value, sum, k);
    NextGroup(g, 7 * k, sum);
    OrGroup(value, sum, g, k);
  }

  lemma SlebUnfold(m: Memory, p: Addr, end: Addr, k: nat, sum: nat)
    requires p + k != end && p + k in m && 7 * k <= UINT32_MAX
    ensures var g, total := m[p + k] % 128, AddGroup(sum, m[p + k] % 128, k);
            SlebScan(m, p, end, k, sum)
            == if k == 9 && g != 0 && g != 127 then Leb(0, k, TooBig)
               else if k > 9 && g != (if sum >= TWO_63 then 127 else 0) then Leb(0, k, TooBig)
               else if k > 9 && g != 0 then Leb(0, k, Undef)
               else if m[p + k] < 128 then Leb(if g >= 64 then total - Pow2(7 * (k + 1)) else total, k + 1, Fine)
               else SlebScan(m, p, end, k + 1, total)
  {
    hide Pow2, SlebWrapped;
  }

  lemma SlebNowWrapped(m: Memory, p: Addr, end: Addr, k: nat, sum: nat)
    requires 7 * k > UINT32_MAX
    ensures SlebScan(m, p, end, k, sum) == SlebWrapped(m, p, end, k, sum, 7 * k % ADDRESS_SPACE)
  {
    hide SlebWrapped;
    SlebWrappedEnds(m, p, end, k, sum, 7 * k % ADDRESS_SPACE);
  }

  lemma SlebWrappedEnds(m: Memory, p: Addr, end: Addr, k: nat, value: int, shift: nat)
    ensures p + k == end ==> SlebWrapped(m, p, end, k, value, shift) == Leb(0, k, PastEnd)
    ensures p + k != end && p + k !in m ==> SlebWrapped(m, p, end, k, value, shift) == Leb(0, k, Unmapped)
  {
  }

  lemma SignOf(value: int, sum: nat, k: nat)
    requires Accumulated(value, sum, k)
    ensures value < 0 <==> sum >= TWO_63
    ensures value < 0 ==> k == 10
    ensures value >= 0 ==> value == sum
  {
  }

  /** The sign extension behind the last byte, whether the counter has just wrapped or not. */
  lemma LastByte(value: int, sum: nat, k: nat, byte: Byte)
    requires Accumulated(value, sum, k) && sum < Pow2(7 * k) && byte < 128
    requires k > 10 ==> byte == 0 && sum < TWO_63
    requires k == 10 ==> (byte >= 64 <==> sum >= TWO_63)
    ensures Extended(value, 7 * k % ADDRESS_SPACE, byte) == if byte >= 64 then sum - Pow2(7 * k) else sum
  {
    hide Pow2, OrInt64, Shl64, Accumulated;
    FinalValue(value, sum, k, byte);
    if k <= 10 { CounterMod(k); }
  }

  /** The signed decoder's `Value` after `k` groups that sum to `sum`. */
  ghost predicate Accumulated(value: int, sum: nat, k: nat) {
    if k <= 9 then value == sum && sum < TWO_63
    else if sum < TWO_63 then value == sum
    else k == 10 && value == sum - 128 * TWO_63 && IsInt64(value) && value < 0
  }

  // --------------------------------------------------------- arithmetic of one step

  lemma SliceIsGroup(b: Byte)
    ensures BitAnd(b, 0x7f) == b % 128
  {
    Pow2Values();
    AndLowBits(b, 7);
  }

  lemma GroupBound(g: nat, w: nat, sum: nat)
    requires g < 128 && sum < w
    ensures sum + g * w < w * 128
  {
    assert (g + 1) * w <= 128 * w;
  }

  lemma NextGroup(g: nat, shift: nat, sum: nat)
    requires g < 128 && sum < Pow2(shift)
    ensures 0 <= g * Pow2(shift) && sum + g * Pow2(shift) < Pow2(shift + 7)
    ensures shift == 63 ==> (g >= 64 <==> g != 0) || (g != 0 && g != 127)
    ensures shift == 63 && sum < TWO_63 ==> (sum + g * Pow2(shift) >= TWO_63 <==> g != 0)
  {
    GroupBound(g, Pow2(shift), sum);
    Pow2Add(shift, 7);
    assert Pow2(7) == 128 && Pow2(63) == TWO_63 by { Pow2Values(); }
  }

  /** Shifting left and back changes the slice exactly when the new total no longer
      fits 64 bits. */
  lemma OverflowCheck(slice: nat, shift: nat, value: nat)
    requires slice < 128 && value < Pow2(shift) && value < TWO_64
    ensures LosesBits(slice, shift) <==> value + slice * Pow2(shift) >= TWO_64
    ensures !LosesBits(slice, shift) ==> (value + Shl64(slice, shift)) % TWO_64 == value + slice * Pow2(shift)
  {
    hide Pow2, LosesBits, Shl64;
    if shift >= 64 {
      OverflowFar(slice, shift, value);
    } else {
      OverflowNear(slice, shift, value);
    }
  }

  lemma OverflowFar(slice: nat, shift: nat, value: nat)
    requires shift >= 64 && value < TWO_64
    ensures LosesBits(slice, shift) <==> value + slice * Pow2(shift) >= TWO_64
    ensures !LosesBits(slice, shift) ==> (value + Shl64(slice, shift)) % TWO_64 == value + slice * Pow2(shift)
  {
    hide Pow2;
    if slice == 0 {
      ZeroShifted(Pow2(shift));
    } else {
      Pow2Values();
      Pow2Monotone(64, shift);
      ProductMonotone(1, slice, Pow2(shift));
    }
  }

  lemma ZeroShifted(w: nat)
    requires w > 0
    ensures 0 * w == 0 && 0 % TWO_64 == 0 && 0 / w == 0
  {
    DivModUnique(0, w, 0, 0);
  }

  lemma OverflowNear(slice: nat, shift: nat, value: nat)
    requires shift < 64 && value < Pow2(shift)
    ensures LosesBits(slice, shift) <==> value + slice * Pow2(shift) >= TWO_64
    ensures !LosesBits(slice, shift) ==> (value + Shl64(slice, shift)) % TWO_64 == value + slice * Pow2(shift)
  {
    hide Pow2;
    var w, q := Pow2(shift), Pow2(64 - shift);
    Pow2Values();
    Pow2Add(64 - shift, shift);
    OverflowBelow64(slice, w, q, value);
    if value + slice * w < TWO_64 { SmallMod(value + slice * w); }
  }

  lemma SmallMod(x: nat)
    requires x < TWO_64
    ensures x % TWO_64 == x
  {
  }

  lemma OverflowBelow64(slice: nat, w: nat, q: nat, value: nat)
    requires w > 0 && q * w == TWO_64 && value < w
    ensures slice * w % TWO_64 / w != slice <==> value + slice * w >= TWO_64
    ensures value + slice * w < TWO_64 ==> slice * w % TWO_64 == slice * w
  {
    if slice < q {
      SumBelow(value, slice, w, q);
      FitsBack(slice, w);
    } else {
      ProductMonotone(q, slice, w);
      WrapLosesBits(slice, w, q);
    }
  }

  lemma ProductMonotone(x: nat, y: nat, w: nat)
    requires x <= y
    ensures x * w <= y * w
  {
  }

  lemma SumBelow(value: nat, slice: nat, w: nat, q: nat)
    requires value < w && slice < q
    ensures value + slice * w < q * w
  {
    ProductMonotone(slice + 1, q, w);
  }

  lemma FitsBack(slice: nat, w: nat)
    requires w > 0 && slice * w < TWO_64
    ensures slice * w % TWO_64 == slice * w && slice * w / w == slice
  {
    DivModUnique(slice * w, w, slice, 0);
  }

  lemma WrapLosesBits(slice: nat, w: nat, q: nat)
    requires w > 0 && q * w == TWO_64 && q <= slice
    ensures slice * w % TWO_64 / w < slice
  {
    QuotientBelow(slice * w % TWO_64, w, q);
  }

  lemma QuotientBelow(x: nat, w: nat, q: nat)
    requires w > 0 && x < q * w
    ensures x / w < q
  {
    var d := x / w;
    assert x == d * w + x % w;
    assert d >= q ==> d * w >= q * w;
  }

  /** ORing in a shifted slice adds it, in every position the decoder reaches. */
  lemma OrGroup(value: int, sum: nat, g: nat, k: nat)
    requires g < 128 && sum < Pow2(7 * k) && Accumulated(value, sum, k)
    requires k == 9 ==> g == 0 || g == 127
    requires k > 9 ==> g == 0 && value >= 0
    ensures Accumulated(OrInt64(value, Shl64(g, 7 * k)), sum + g * Pow2(7 * k), k + 1)
  {
    hide Pow2, Shl64, OrInt64, Accumulated;
    SignOf(value, sum, k);
    if k < 9 {
      LowGroupAdds(value, sum, g, k);
    } else if g == 0 {
      ZeroGroupAdds(value, sum, k);
    } else {
      TopGroupAdds(value, sum, k);
    }
  }

  lemma OrInt64Small(value: nat, x: nat)
    requires value < TWO_63 && BitOr(value, x) < TWO_63
    ensures OrInt64(value, x) == BitOr(value, x)
  {
    hide BitOr;
    SmallMod(value);
    SmallMod(BitOr(value, x));
  }

  lemma LowGroupAdds(value: int, sum: nat, g: nat, k: nat)
    requires g < 128 && k < 9 && sum < Pow2(7 * k) && Accumulated(value, sum, k)
    ensures Accumulated(OrInt64(value, Shl64(g, 7 * k)), sum + g * Pow2(7 * k), k + 1)
  {
    hide Pow2, Shl64, BitOr, OrInt64;
    OrLowGroup(sum, g, 7 * k);
    OrInt64Small(value, Shl64(g, 7 * k));
  }

  lemma ZeroGroupAdds(value: int, sum: nat, k: nat)
    requires k >= 9 && Accumulated(value, sum, k) && value >= 0
    ensures Accumulated(OrInt64(value, Shl64(0, 7 * k)), sum + 0 * Pow2(7 * k), k + 1)
  {
    hide Pow2, Shl64, BitOr, OrInt64;
    OrNothing(sum, 7 * k);
    OrInt64Small(value, Shl64(0, 7 * k));
  }

  lemma TopGroupAdds(value: int, sum: nat, k: nat)
    requires k == 9 && Accumulated(value, sum, k)
    ensures Accumulated(OrInt64(value, Shl64(127, 7 * k)), sum + 127 * Pow2(7 * k), k + 1)
  {
    hide Pow2, Shl64, OrInt64;
    OrTopGroup(sum, 7 * k);
  }

  lemma OrLowGroup(sum: nat, g: nat, shift: nat)
    requires g < 128 && shift <= 56 && sum < Pow2(shift)
    ensures sum + g * Pow2(shift) < TWO_63
    ensures BitOr(sum, Shl64(g, shift)) == sum + g * Pow2(shift)
  {
    var w := Pow2(shift);
    assert sum + g * w < w * 128 <= TWO_63 by {
      Pow2Values();
      Pow2Add(shift, 7);
      GroupBound(g, w, sum);
      Pow2Monotone(shift + 7, 63);
    }
    FitsBack(g, w);
    OrIsSum(sum, g, shift);
  }

  lemma OrNothing(sum: nat, shift: nat)
    ensures BitOr(sum, Shl64(0, shift)) == sum
  {
    OrIsSum(0, sum, 0);
    OrCommutes(sum, 0);
  }

  lemma {:induction false} OrCommutes(x: nat, y: nat)
    ensures BitOr(x, y) == BitOr(y, x)
  {
    if x != 0 || y != 0 { OrCommutes(x / 2, y / 2); }
  }

  lemma OrTopGroup(sum: nat, shift: nat)
    requires sum < TWO_63 && shift == 63
    ensures OrInt64(sum, Shl64(127, shift)) == sum - TWO_63
    ensures 127 * Pow2(shift) == 127 * TWO_63
  {
    hide Pow2, BitOr;
    Pow2Values();
    OrIsSum(sum, 1, shift);
  }

  /** The sign extension after the last byte yields the two's-complement value. */
  lemma FinalValue(value: int, sum: nat, k: nat, byte: Byte)
    requires Accumulated(value, sum, k) && sum < Pow2(7 * k) && byte < 128
    requires k > 10 ==> byte < 64 && sum < TWO_63
    requires k == 10 ==> (byte >= 64 <==> sum >= TWO_63)
    ensures (if 7 * k < 64 && byte / 64 % 2 == 1 then OrInt64(value, Shl64(TWO_64 - 1, 7 * k)) else value)
            == if byte % 128 >= 64 then sum - Pow2(7 * k) else sum
  {
    hide Pow2, OrInt64, Shl64, ToInt64;
    if k <= 9 && byte >= 64 {
      SignExtend(value, 7 * k);
      NegativeFits(value, 7 * k);
    } else if k == 10 {
      assert Pow2(7 * k) == 128 * TWO_63 by { Pow2Values(); }
    }
  }

  lemma NegativeFits(value: int, shift: nat)
    requires 0 <= value < Pow2(shift) && shift <= 63
    ensures ToInt64(value - Pow2(shift)) == value - Pow2(shift)
  {
    hide Pow2;
    Pow2Monotone(shift, 63);
    Pow2Values();
  }

  /** ORing in the ones above bit `shift` subtracts 2^shift. */
  lemma SignExtend(value: int, shift: nat)
    requires shift < 64 && 0 <= value < Pow2(shift)
    ensures OrInt64(value, Shl64(TWO_64 - 1, shift)) == ToInt64(value - Pow2(shift))
  {
    var w, y := Pow2(shift), Pow2(64 - shift) - 1;
    OnesAbove(shift);
    var ones := Shl64(TWO_64 - 1, shift);
    OrIsSum(value, y, shift);
    assert BitOr(value, ones) == value + ones;
    ToInt64OfSum(value, w);
  }

  lemma OnesAbove(shift: nat)
    requires shift < 64
    ensures Pow2(shift) <= TWO_64
    ensures Shl64(TWO_64 - 1, shift) == TWO_64 - Pow2(shift) == (Pow2(64 - shift) - 1) * Pow2(shift)
  {
    var w, q := Pow2(shift), Pow2(64 - shift);
    assert q * w == TWO_64 by { Pow2Values(); Pow2Add(64 - shift, shift); }
    ProductMonotone(1, q, w);
    OnesShifted(w);
    Predecessor(q, w);
  }

  lemma Predecessor(q: nat, w: nat)
    requires q > 0
    ensures (q - 1) * w == q * w - w
  {
  }

  lemma ToInt64OfSum(value: nat, w: nat)
    requires value < w <= TWO_64
    ensures value % TWO_64 == value && ToInt64(value + (TWO_64 - w)) == ToInt64(value - w)
  {
  }

  lemma OnesShifted(w: nat)
    requires 0 < w <= TWO_64
    ensures (TWO_64 - 1) * w % TWO_64 == TWO_64 - w
  {
    DivModUnique((TWO_64 - 1) * w, TWO_64, w - 1, TWO_64 - w);
  }
}
