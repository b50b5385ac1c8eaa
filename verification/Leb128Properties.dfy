/** The LEB128 decoders are exact, and undo the canonical encoders. */
module Leb128Properties {
  import opened Machine
  import opened Bits
  import opened Leb128

  // ------------------------------------------------------------- unsigned exactness

  lemma {:induction false} UnsignedSnoc(bs: seq<Byte>, k: nat)
    requires k < |bs|
    ensures Unsigned(bs[..k + 1]) == Unsigned(bs[..k]) + bs[k] % 128 * Pow2(7 * k)
  {
    if k == 0 {
      assert bs[..1][1..] == [];
    } else {
      UnsignedSnoc(bs[1..], k - 1);
      assert bs[..k + 1][1..] == bs[1..][..k] && bs[..k][1..] == bs[1..][..k - 1];
      assert bs[1..][k - 1] == bs[k];
      ShiftGroup(bs[k] % 128, k - 1);
    }
  }

  lemma NextPower(k: nat)
    ensures Pow2(7 * (k + 1)) == Pow2(7 * k) * 128
  {
    Pow2Add(7 * k, 7);
    Pow2Values();
  }

  lemma ShiftGroup(g: nat, k: nat)
    ensures 128 * (g * Pow2(7 * k)) == g * Pow2(7 * (k + 1))
  {
    var w := Pow2(7 * k);
    NextPower(k);
    assert 128 * (g * w) == g * (w * 128);
  }

  lemma {:induction false} UnsignedPrefix(bs: seq<Byte>, k: nat)
    requires k <= |bs|
    ensures Unsigned(bs[..k]) <= Unsigned(bs)
    decreases |bs| - k
  {
    hide Unsigned, Pow2;
    if k == |bs| {
      assert bs[..k] == bs;
    } else {
      UnsignedSnoc(bs, k);
      UnsignedPrefix(bs, k + 1);
    }
  }

  /** `end` is not reached while `bs` is read at `p`. */
  predicate EndClear(p: Addr, end: Addr, bs: seq<Byte>) {
    end < p || p + |bs| <= end
  }

  lemma {:induction false} UlebScanExact(m: Memory, p: Addr, end: Addr, bs: seq<Byte>, k: nat, sum: nat)
    requires Stored(m, p, bs) && IsLeb(bs) && Short(bs) && EndClear(p, end, bs)
    requires k < |bs| && sum == Unsigned(bs[..k]) < TWO_64
    ensures UlebExact(UlebScan(m, p, end, k, sum), bs)
    decreases |bs| - k
  {
    hide Pow2, UlebScan;
    assert p + k in m && m[p + k] == bs[k];
    UlebUnfold(m, p, end, k, sum);
    UnsignedSnoc(bs, k);
    var total := Unsigned(bs[..k + 1]);
    if total >= TWO_64 {
      UnsignedPrefix(bs, k + 1);
    } else if bs[k] < 128 {
      assert k + 1 == |bs| && bs[..k + 1] == bs;
    } else {
      UlebScanExact(m, p, end, bs, k + 1, total);
    }
  }

  /** The exact answer for `bs`: its sum and length when the sum fits 64 bits, else an
      error with value 0, counting the bytes before the first that overflows. */
  ghost predicate UlebExact(r: Leb, bs: seq<Byte>) {
    if Unsigned(bs) < TWO_64 then r == Leb(Unsigned(bs), |bs|, Fine)
    else
      && r.status == TooBig && r.value == 0 && r.n < |bs|
      && Unsigned(bs[..r.n]) < TWO_64 <= Unsigned(bs[..r.n + 1])
  }

  /** `decodeULEB128` is exact on every terminated byte string, overlong ones included. */
  lemma UlebIsExact(m: Memory, p: Addr, end: Addr, bs: seq<Byte>)
    requires Stored(m, p, bs) && IsLeb(bs) && Short(bs) && EndClear(p, end, bs)
    ensures UlebExact(Uleb(m, p, end), bs)
  {
    assert bs[..0] == [];
    UlebScanExact(m, p, end, bs, 0, 0);
  }

  // --------------------------------------------------------------- signed exactness

  /** The answer for `bs`: its two's-complement value and length when that is a 64-bit
      number, else an error with value 0, counting the bytes before the first that is refused. */
  ghost predicate SlebExact(r: Leb, bs: seq<Byte>)
    requires bs != []
  {
    if IsInt64(SignedValue(bs)) then r == Leb(SignedValue(bs), |bs|, Fine)
    else
      && r.status == TooBig && r.value == 0
      && RefusedAt(bs, r.n) && forall k :: 0 <= k < r.n ==> !RefusedAt(bs, k)
  }

  /** A group from the tenth on that is no copy of the sign: the tenth is neither all zeros nor
      all ones, a later one differs from the tenth. */
  predicate RefusedAt(bs: seq<Byte>, k: int) {
    9 <= k < |bs| && if k == 9 then bs[9] % 128 != 0 && bs[9] % 128 != 127 else bs[k] % 128 != bs[9] % 128
  }

  lemma SignedLowGroup(bs: seq<Byte>)
    requires bs != []
    ensures SignedValue(bs) % 128 == bs[0] % 128
  {
  }

  /** What the scan has established after `k` bytes of `bs`. */
  ghost predicate SlebSoFar(m: Memory, p: Addr, end: Addr, bs: seq<Byte>, k: nat, sum: nat) {
    && Stored(m, p, bs) && IsLeb(bs) && Short(bs) && EndClear(p, end, bs)
    && k < |bs| && sum < Pow2(7 * k)
    && SignedValue(bs) == sum + Pow2(7 * k) * SignedValue(bs[k..])
    && (k > 9 ==> sum < TWO_63 || (k == 10 && 127 * TWO_63 <= sum))
    && (k == 9 ==> sum < TWO_63)
  }

  /** No group so far is refused, and the tenth has told the sign. */
  ghost predicate NoneRefused(bs: seq<Byte>, k: nat, sum: nat)
    requires k < |bs|
  {
    && (forall i :: 0 <= i < k ==> !RefusedAt(bs, i))
    && (k > 9 ==> (sum >= TWO_63 <==> bs[9] % 128 == 127))
  }

  lemma RefusedIs(bs: seq<Byte>, k: nat, sum: nat)
    requires k < |bs| && NoneRefused(bs, k, sum)
    ensures Refused(bs[k] % 128, k, sum) <==> RefusedAt(bs, k)
  {
    assert k > 9 ==> !RefusedAt(bs, 9);
  }

  lemma StillNoneRefused(bs: seq<Byte>, k: nat, sum: nat)
    requires k + 1 < |bs| && NoneRefused(bs, k, sum) && sum < Pow2(7 * k) && (k == 9 ==> sum < TWO_63)
    requires !Refused(bs[k] % 128, k, sum) && !(k > 9 && bs[k] % 128 != 0)
    ensures 0 <= bs[k] % 128 * Pow2(7 * k) && NoneRefused(bs, k + 1, sum + bs[k] % 128 * Pow2(7 * k))
  {
    hide Pow2;
    RefusedIs(bs, k, sum);
    NextGroup(bs[k] % 128, 7 * k, sum);
  }

  /** The next group is one the decoder refuses. */
  predicate Refused(g: nat, k: nat, sum: nat) {
    (k == 9 && g != 0 && g != 127) || (k > 9 && g != (if sum >= TWO_63 then 127 else 0))
  }

  lemma SlebGroup(m: Memory, p: Addr, end: Addr, bs: seq<Byte>, k: nat, sum: nat)
    requires SlebSoFar(m, p, end, bs, k, sum)
    ensures p + k != end && p + k in m && m[p + k] == bs[k] && 7 * k <= UINT32_MAX
    ensures SignedValue(bs[k..]) % 128 == bs[k] % 128
  {
    SignedLowGroup(bs[k..]);
    assert bs[k..][0] == bs[k];
  }

  lemma SlebRefuses(m: Memory, p: Addr, end: Addr, bs: seq<Byte>, k: nat, sum: nat)
    requires SlebSoFar(m, p, end, bs, k, sum) && Refused(bs[k] % 128, k, sum)
    ensures SlebScan(m, p, end, k, sum) == Leb(0, k, TooBig) && !IsInt64(SignedValue(bs))
  {
    hide Pow2, IsInt64, SignedValue, Stored;
    SlebGroup(m, p, end, bs, k, sum);
    var w, x := Pow2(7 * k), SignedValue(bs[k..]);
    if k == 9 {
      Pow2Values();
      FarOff(sum, x, w);
    } else {
      TopPower(k);
      if sum >= TWO_63 { BeyondNegative(sum, x, w); } else { BeyondPositive(sum, x, w); }
    }
  }

  lemma SlebStops(m: Memory, p: Addr, end: Addr, bs: seq<Byte>, k: nat, sum: nat)
    requires SlebSoFar(m, p, end, bs, k, sum) && bs[k] < 128
    requires !Refused(bs[k] % 128, k, sum) && !(k > 9 && bs[k] != 0)
    ensures IsInt64(SignedValue(bs)) && SlebScan(m, p, end, k, sum) == Leb(SignedValue(bs), |bs|, Fine)
  {
    hide Pow2, Stored;
    SlebGroup(m, p, end, bs, k, sum);
    assert k + 1 == |bs| && bs[k..] == [bs[k]];
    LastGroup(sum, bs[k], Pow2(7 * k), k);
    NextPower(k);
  }

  lemma SlebContinues(m: Memory, p: Addr, end: Addr, bs: seq<Byte>, k: nat, sum: nat)
    requires SlebSoFar(m, p, end, bs, k, sum) && bs[k] >= 128
    requires !Refused(bs[k] % 128, k, sum) && !(k > 9 && bs[k] % 128 != 0)
    ensures var total := sum + bs[k] % 128 * Pow2(7 * k);
            total >= 0 && SlebSoFar(m, p, end, bs, k + 1, total)
            && SlebScan(m, p, end, k, sum) == SlebScan(m, p, end, k + 1, total)
  {
    hide Pow2, Stored, IsInt64;
    SlebGroup(m, p, end, bs, k, sum);
    var g, w := bs[k] % 128, Pow2(7 * k);
    NextGroup(g, 7 * k, sum);
    NextPower(k);
    NextRange(sum, g, k);
    assert bs[k..][1..] == bs[k + 1..];
    Regroup(sum, g, SignedValue(bs[k + 1..]), w);
  }

  lemma SlebGivesUp(m: Memory, p: Addr, end: Addr, bs: seq<Byte>, k: nat, sum: nat)
    requires SlebSoFar(m, p, end, bs, k, sum) && k > 9 && bs[k] % 128 != 0 && !Refused(bs[k] % 128, k, sum)
    ensures SlebScan(m, p, end, k, sum).status == Undef && |bs| > 10
  {
    hide Pow2, Stored, SignedValue;
    SlebGroup(m, p, end, bs, k, sum);
  }

  lemma {:induction false} SlebScanExact(m: Memory, p: Addr, end: Addr, bs: seq<Byte>, k: nat, sum: nat)
    requires SlebSoFar(m, p, end, bs, k, sum) && NoneRefused(bs, k, sum)
    ensures var r := SlebScan(m, p, end, k, sum);
            (r.status == Undef && |bs| > 10) || SlebExact(r, bs)
    decreases |bs| - k
  {
    hide SlebScan, SlebSoFar, IsInt64, Refused, RefusedAt, SignedValue, Pow2;
    InBytes(m, p, end, bs, k, sum);
    RefusedIs(bs, k, sum);
    if Refused(bs[k] % 128, k, sum) {
      SlebRefuses(m, p, end, bs, k, sum);
    } else if k > 9 && bs[k] % 128 != 0 {
      SlebGivesUp(m, p, end, bs, k, sum);
    } else if bs[k] < 128 {
      SlebStops(m, p, end, bs, k, sum);
    } else {
      SlebContinues(m, p, end, bs, k, sum);
      InBytes(m, p, end, bs, k + 1, sum + bs[k] % 128 * Pow2(7 * k));
      StillNoneRefused(bs, k, sum);
      SlebScanExact(m, p, end, bs, k + 1, sum + bs[k] % 128 * Pow2(7 * k));
    }
  }

  lemma InBytes(m: Memory, p: Addr, end: Addr, bs: seq<Byte>, k: nat, sum: nat)
    requires SlebSoFar(m, p, end, bs, k, sum)
    ensures k < |bs| && sum < Pow2(7 * k) && (k == 9 ==> sum < TWO_63)
  {
  }

  lemma NextRange(sum: nat, g: nat, k: nat)
    requires sum < Pow2(7 * k) && g < 128
    requires k == 9 ==> sum < TWO_63 && (g == 0 || g == 127)
    ensures k == 9 ==> sum + g * Pow2(7 * k) < TWO_63 || 127 * TWO_63 <= sum + g * Pow2(7 * k)
    ensures k == 8 ==> sum + g * Pow2(7 * k) < TWO_63
  {
    hide Pow2;
    NextPower(k);
    GroupBound(g, Pow2(7 * k), sum);
    Pow2Values();
  }

  lemma TopPower(k: nat)
    requires k >= 10
    ensures Pow2(7 * k) >= 128 * TWO_63
    ensures k == 10 ==> Pow2(7 * k) == 128 * TWO_63
  {
    Pow2Values();
    Pow2Monotone(70, 7 * k);
  }

  lemma Regroup(sum: int, g: int, y: int, w: int)
    ensures sum + w * (g + 128 * y) == (sum + g * w) + (w * 128) * y
  {
    assert w * (g + 128 * y) == w * g + w * (128 * y);
    assert w * (128 * y) == (w * 128) * y;
  }

  lemma FarOff(sum: nat, x: int, w: nat)
    requires w == TWO_63 && sum < w && x % 128 != 0 && x % 128 != 127
    ensures !IsInt64(sum + w * x)
  {
    assert x != 0 && x != -1;
  }

  lemma BeyondPositive(sum: nat, x: int, w: nat)
    requires w >= 128 * TWO_63 && sum < TWO_63 && x % 128 != 0
    ensures !IsInt64(sum + w * x)
  {
    assert x != 0;
    MultipleBound(x, w);
  }

  lemma BeyondNegative(sum: nat, x: int, w: nat)
    requires w == 128 * TWO_63 && 127 * TWO_63 <= sum < w && x % 128 != 127
    ensures !IsInt64(sum + w * x)
  {
    assert x != -1;
  }

  lemma LastGroup(sum: nat, g: nat, w: nat, k: nat)
    requires w == Pow2(7 * k) && sum < w && g < 128
    requires k == 9 ==> g == 0 || g == 127
    requires k > 9 ==> g == 0 && sum < TWO_63
    ensures var x := if g >= 64 then g - 128 else g;
            IsInt64(sum + w * x) && sum + w * x == if g >= 64 then sum + g * w - w * 128 else sum + g * w
  {
    if k <= 8 {
      NextPower(k);
      LastLowGroup(sum, g, w) by { Pow2Values(); Pow2Monotone(7 * (k + 1), 63); }
    } else if k == 9 {
      assert w == TWO_63 by { Pow2Values(); }
    }
  }

  lemma LastLowGroup(sum: nat, g: nat, w: nat)
    requires sum < w && g < 128 && w * 128 <= TWO_63
    ensures var x := if g >= 64 then g - 128 else g;
            IsInt64(sum + w * x) && sum + w * x == if g >= 64 then sum + g * w - w * 128 else sum + g * w
  {
    GroupBound(g, w, sum);
    assert w * (g - 128) == g * w - w * 128;
    assert 0 <= g * w;
  }

  /** `decodeSLEB128` is exact on every terminated byte string; only one that runs past
      ten bytes can make it shift a nonzero slice by 64 or more. */
  lemma SlebIsExact(m: Memory, p: Addr, end: Addr, bs: seq<Byte>)
    requires Stored(m, p, bs) && IsLeb(bs) && Short(bs) && EndClear(p, end, bs)
    ensures (Sleb(m, p, end).status == Undef && |bs| > 10) || SlebExact(Sleb(m, p, end), bs)
  {
    assert bs[0..] == bs;
    SlebScanExact(m, p, end, bs, 0, 0);
  }

  // ---------------------------------------------------------------- cut off at the end

  lemma {:induction false} UlebScanCutOff(m: Memory, p: Addr, end: Addr, bs: seq<Byte>, k: nat)
    requires Stored(m, p, bs) && Short(bs) && end == p + |bs| && k <= |bs|
    requires (forall i :: 0 <= i < |bs| ==> bs[i] >= 128) && Unsigned(bs) < TWO_64
    ensures UlebScan(m, p, end, k, Unsigned(bs[..k])) == Leb(0, |bs|, PastEnd)
    decreases |bs| - k
  {
    hide Pow2, UlebScan, Unsigned;
    if k == |bs| {
      UlebAtEnd(m, p, end, k, Unsigned(bs[..k]));
    } else {
      assert p + k in m && m[p + k] == bs[k];
      UnsignedSnoc(bs, k);
      UnsignedPrefix(bs, k + 1);
      UlebUnfold(m, p, end, k, Unsigned(bs[..k]));
      UlebScanCutOff(m, p, end, bs, k + 1);
    }
  }

  lemma UlebAtEnd(m: Memory, p: Addr, end: Addr, k: nat, sum: nat)
    requires p + k == end
    ensures UlebScan(m, p, end, k, sum) == Leb(0, k, PastEnd)
  {
  }

  /** A byte string that goes on past the end is an error with value 0 that counts its bytes. */
  lemma UlebCutOff(m: Memory, p: Addr, end: Addr, bs: seq<Byte>)
    requires Stored(m, p, bs) && Short(bs) && end == p + |bs|
    requires (forall i :: 0 <= i < |bs| ==> bs[i] >= 128) && Unsigned(bs) < TWO_64
    ensures Uleb(m, p, end) == Leb(0, |bs|, PastEnd)
  {
    assert bs[..0] == [];
    UlebScanCutOff(m, p, end, bs, 0);
  }

  /** No group is refused or cannot be shifted. */
  predicate Shiftable(bs: seq<Byte>) {
    forall i :: 9 <= i < |bs| ==> bs[i] % 128 == 0 || (i == 9 && |bs| == 10 && bs[i] % 128 == 127)
  }

  lemma {:induction false} SlebScanCutOff(m: Memory, p: Addr, end: Addr, bs: seq<Byte>, k: nat, sum: nat)
    requires Stored(m, p, bs) && Short(bs) && end == p + |bs| && k <= |bs|
    requires (forall i :: 0 <= i < |bs| ==> bs[i] >= 128) && Shiftable(bs)
    requires sum < Pow2(7 * k) && (9 <= k < |bs| ==> sum < TWO_63)
    ensures SlebScan(m, p, end, k, sum) == Leb(0, |bs|, PastEnd)
    decreases |bs| - k
  {
    hide Pow2, SlebScan;
    if k == |bs| {
      SlebAtEnd(m, p, end, k, sum);
    } else {
      assert p + k in m && m[p + k] == bs[k];
      var g := bs[k] % 128;
      SlebUnfold(m, p, end, k, sum);
      NextGroup(g, 7 * k, sum);
      if k < 10 { NextRange(sum, g, k); }
      SlebScanCutOff(m, p, end, bs, k + 1, sum + g * Pow2(7 * k));
    }
  }

  lemma SlebAtEnd(m: Memory, p: Addr, end: Addr, k: nat, sum: nat)
    requires p + k == end
    ensures SlebScan(m, p, end, k, sum) == Leb(0, k, PastEnd)
  {
  }

  lemma SlebCutOff(m: Memory, p: Addr, end: Addr, bs: seq<Byte>)
    requires Stored(m, p, bs) && Short(bs) && end == p + |bs|
    requires (forall i :: 0 <= i < |bs| ==> bs[i] >= 128) && Shiftable(bs)
    ensures Sleb(m, p, end) == Leb(0, |bs|, PastEnd)
  {
    SlebScanCutOff(m, p, end, bs, 0, 0);
  }

  // ------------------------------------------------------------- canonical encodings

  /** Unsigned LEB128 encoding of DWARF 4, section 7.6 (figure 46). */
  function EncodeULEB(v: nat): (bs: seq<Byte>)
    ensures bs != []
  {
    if v < 128 then [v] else [v % 128 + 128] + EncodeULEB(v / 128)
  }

  /** Signed LEB128 encoding of DWARF 4, section 7.6 (figure 47); dividing by 128 is the
      arithmetic right shift. */
  function EncodeSLEB(v: int): (bs: seq<Byte>)
    ensures bs != []
    decreases if v < 0 then -v else v
  {
    if -64 <= v < 64 then [v % 128] else [v % 128 + 128] + EncodeSLEB(v / 128)
  }

  lemma {:induction false} EncodeULEBDenotes(v: nat, limit: nat)
    requires v < Pow2(7 * limit) && limit > 0
    ensures IsLeb(EncodeULEB(v)) && Unsigned(EncodeULEB(v)) == v && |EncodeULEB(v)| <= limit
    decreases v
  {
    hide Pow2;
    if v < 128 {
      assert [v][1..] == [];
    } else {
      if limit == 1 { Pow2Values(); }
      NextPower(limit - 1);
      EncodeULEBDenotes(v / 128, limit - 1);
      IsLebCons(v % 128 + 128, EncodeULEB(v / 128));
    }
  }

  lemma IsLebCons(b: Byte, bs: seq<Byte>)
    requires b >= 128 && IsLeb(bs)
    ensures IsLeb([b] + bs) && ([b] + bs)[1..] == bs
  {
  }

  lemma EvenPower(k: nat)
    requires k > 0
    ensures Pow2(7 * k) == 2 * Pow2(7 * k - 1)
  {
  }

  lemma HalfRange(v: int, h: nat)
    requires 0 <= 2 * v + 256 * h < 512 * h
    ensures 0 <= 2 * (v / 128) + 2 * h < 4 * h
  {
  }

  lemma SLEBCons(v: int, tail: seq<Byte>)
    requires tail != []
    ensures SignedValue([v % 128 + 128] + tail) == v % 128 + 128 * SignedValue(tail)
  {
    assert ([v % 128 + 128] + tail)[1..] == tail;
  }

  lemma OneGroup(v: int)
    requires -64 <= v < 64
    ensures IsLeb([v % 128]) && SignedValue([v % 128]) == v
  {
  }

  lemma {:induction false} EncodeSLEBDenotes(v: int, limit: nat)
    requires limit > 0 && 0 <= 2 * v + Pow2(7 * limit) < 2 * Pow2(7 * limit)
    ensures IsLeb(EncodeSLEB(v)) && SignedValue(EncodeSLEB(v)) == v && |EncodeSLEB(v)| <= limit
    decreases if v < 0 then -v else v
  {
    hide Pow2, SignedValue, IsLeb;
    if -64 <= v < 64 {
      OneGroup(v);
    } else {
      Pow2Small();
      EvenPower(limit - 1);
      NextPower(limit - 1);
      HalfRange(v, Pow2(7 * (limit - 1) - 1));
      EncodeSLEBDenotes(v / 128, limit - 1);
      IsLebCons(v % 128 + 128, EncodeSLEB(v / 128));
      SLEBCons(v, EncodeSLEB(v / 128));
    }
  }

  /** Decoding undoes encoding for every unsigned 64-bit number, whatever follows it. */
  lemma UlebUndoesEncoding(m: Memory, p: Addr, end: Addr, v: nat)
    requires v < TWO_64
    requires Stored(m, p, EncodeULEB(v)) && EndClear(p, end, EncodeULEB(v))
    ensures Uleb(m, p, end) == Leb(v, |EncodeULEB(v)|, Fine)
    ensures |EncodeULEB(v)| <= 10
  {
    assert v < Pow2(7 * 10) by { Pow2Values(); }
    EncodeULEBDenotes(v, 10);
    UlebIsExact(m, p, end, EncodeULEB(v));
  }

  /** Decoding undoes encoding for every signed 64-bit number, whatever follows it. */
  lemma SlebUndoesEncoding(m: Memory, p: Addr, end: Addr, v: int)
    requires IsInt64(v)
    requires Stored(m, p, EncodeSLEB(v)) && EndClear(p, end, EncodeSLEB(v))
    ensures Sleb(m, p, end) == Leb(v, |EncodeSLEB(v)|, Fine)
    ensures |EncodeSLEB(v)| <= 10
  {
    assert 0 <= 2 * v + Pow2(7 * 10) < 2 * Pow2(7 * 10) by { Pow2Values(); }
    EncodeSLEBDenotes(v, 10);
    SlebIsExact(m, p, end, EncodeSLEB(v));
  }
}
