/** The 32-bit x86 process the plugin runs in: addresses, byte-addressed memory,
    little-endian loads, and the outcomes every decoder shares. */
module Machine {

  // uintptr_t is 32 bits wide on this target.
  const ADDRESS_SPACE := 0x1_0000_0000
  const TWO_64 := 0x1_0000_0000_0000_0000
  const TWO_63 := 0x8000_0000_0000_0000
  const UINT32_MAX := 0xFFFF_FFFF

  type Byte = b: int | 0 <= b < 256
  type Addr = a: int | 0 <= a < ADDRESS_SPACE

  // uintptr_t addition and subtraction
  function Add32(a: Addr, b: Addr): Addr {
    if a + b < ADDRESS_SPACE then a + b else a + b - ADDRESS_SPACE
  }

  function Sub32(a: Addr, b: Addr): Addr {
    if a >= b then a - b else a - b + ADDRESS_SPACE
  }

  /** The mapped bytes of the process.  Address 0 (the null page) and the last
      address are never mapped, so a multi-byte load cannot wrap around. */
  type Memory = m: map<int, Byte> | forall a :: a in m ==> 0 < a < UINT32_MAX
    witness map[]

  /** Why an operation did not deliver a value.  `Fault` is an access to unmapped
      memory; `Undefined` marks inputs on which C++ leaves the result undefined;
      the others are the exceptions the program throws. */
  datatype Error =
    | Fault
    | Undefined
    | LebTooBig
    | LebPastEnd
    | UnknownFormat
    | UnknownApplication
    | ExtendedLength
    | NotACie
    | UnsupportedVersion
    | UnknownAugmentation
    | NoPersonality
    | NoPcBegin
    | RecordOverrun
    | OutOfRange
    | UnknownRttiType
    | NotFound

  datatype Option<+T> = None | Some(value: T)

  datatype Result<+T> = Ok(value: T) | Err(error: Error) {
    predicate IsFailure() { Err? }

    function PropagateFailure<U>(): Result<U>
      requires Err?
    {
      Err(error)
    }

    function Extract(): T
      requires Ok?
    {
      value
    }
  }

  /** The items a generator yields, and the exception it ends with, if any. */
  datatype Yields<+T> = Yields(items: seq<T>, error: Option<Error>)

  datatype DataRange = DataRange(begin: Addr, length: Addr) {
    function End(): Addr { Add32(begin, length) }

    predicate Contains(p: int) { begin <= p < End() }
  }

  lemma AppendAssociates<T>(x: seq<T>, y: seq<T>, z: seq<T>)
    ensures (x + y) + z == x + (y + z)
  {
  }

  // ---------------------------------------------------------------- powers of two

  function Pow2(n: nat): (p: nat)
    ensures p > 0
  {
    if n == 0 then 1 else 2 * Pow2(n - 1)
  }

  lemma {:induction false} Pow2Add(a: nat, b: nat)
    ensures Pow2(a + b) == Pow2(a) * Pow2(b)
  {
    if b != 0 {
      Pow2Add(a, b - 1);
      assert Pow2(a + b) == 2 * Pow2(a + b - 1);
      assert Pow2(a) * (2 * Pow2(b - 1)) == 2 * (Pow2(a) * Pow2(b - 1));
    }
  }

  lemma Pow2Monotone(a: nat, b: nat)
    requires a <= b
    ensures Pow2(a) <= Pow2(b)
  {
    Pow2Add(a, b - a);
    assert Pow2(a) * Pow2(b - a) >= Pow2(a) * 1;
  }

  lemma Pow2Small()
    ensures Pow2(1) == 2 && Pow2(7) == 128 && Pow2(8) == 256
  {
    assert Pow2(4) == 16;
  }

  lemma Pow2Values()
    ensures Pow2(7) == 128 && Pow2(8) == 256 && Pow2(16) == 0x1_0000 && Pow2(32) == ADDRESS_SPACE
    ensures Pow2(63) == TWO_63 && Pow2(64) == TWO_64 && Pow2(70) == 128 * TWO_63
  {
    hide Pow2;
    Pow2Small();
    Pow2Add(8, 8);
    Pow2Add(16, 16);
    Pow2Add(32, 32);
    Pow2Add(63, 1);
    Pow2Add(63, 7);
  }

  // ------------------------------------------------------------------ memory

  /** `bs` lies in memory at address `a`. */
  ghost predicate Stored(m: Memory, a: int, bs: seq<Byte>) {
    forall q :: a <= q < a + |bs| ==> q in m && m[q] == bs[q - a]
  }

  lemma StoredNotEmpty(m: Memory, a: int, bs: seq<Byte>)
    requires Stored(m, a, bs) && bs != []
    ensures 0 < a && a + |bs| < ADDRESS_SPACE && a in m && m[a] == bs[0]
  {
    assert a in m;
    assert a + |bs| - 1 in m;
  }

  lemma StoredSplit(m: Memory, a: int, x: seq<Byte>, y: seq<Byte>)
    requires Stored(m, a, x + y)
    ensures Stored(m, a, x) && Stored(m, a + |x|, y)
  {
    forall q | a <= q < a + |x|
      ensures q in m && m[q] == x[q - a]
    {
      assert (x + y)[q - a] == x[q - a];
    }
    forall q | a + |x| <= q < a + |x| + |y|
      ensures q in m && m[q] == y[q - a - |x|]
    {
      assert (x + y)[q - a] == y[q - a - |x|];
    }
  }

  /** The `n`-byte little-endian number at `a`. */
  function LoadLE(m: Memory, a: int, n: nat): (r: Result<nat>)
    ensures r.Ok? ==> forall q :: a <= q < a + n ==> q in m
    ensures r.Err? ==> r.error == Fault
    decreases n
  {
    if n == 0 then Ok(0)
    else if a !in m then Err(Fault)
    else
      var rest :- LoadLE(m, a + 1, n - 1);
      Ok(m[a] + 256 * rest)
  }

  function Load(m: Memory, a: Addr, n: nat): (r: Result<(nat, Addr)>)
    ensures r.Ok? ==> r.value.1 == a + n
    ensures r.Ok? && n > 0 ==> a in m && a + n < ADDRESS_SPACE
    ensures r.Err? ==> r.error == Fault
  {
    var v :- LoadLE(m, a, n);
    assert n > 0 ==> a + (n - 1) in m;
    Ok((v, a + n))
  }

  lemma LoadNothing(m: Memory, a: int)
    ensures LoadLE(m, a, 0) == Ok(0)
  {
  }

  lemma LoadStep(m: Memory, a: int, n: nat)
    requires n > 0
    ensures LoadLE(m, a, n) == if a !in m then Err(Fault) else
                                 match LoadLE(m, a + 1, n - 1)
                                 case Ok(rest) => Ok(m[a] + 256 * rest)
                                 case Err(e) => Err(e)
  {
  }

  lemma {:induction false} LoadBound(m: Memory, a: int, n: nat)
    requires LoadLE(m, a, n).Ok?
    ensures LoadLE(m, a, n).value < Pow2(8 * n)
    decreases n
  {
    hide Pow2, LoadLE;
    if n == 0 {
      LoadNothing(m, a);
    } else {
      LoadStep(m, a, n);
      LoadBound(m, a + 1, n - 1);
      Pow2Add(8, 8 * (n - 1));
      Pow2Small();
    }
  }

  /** The 32-bit little-endian word at `a`. */
  function Load32(m: Memory, a: Addr): (r: Result<(Addr, Addr)>)
    ensures r.Ok? ==> r.value.1 == a + 4 < ADDRESS_SPACE && a in m
    ensures r.Err? ==> r.error == Fault
    ensures r == Load(m, a, 4)
  {
    var (v, next) :- Load(m, a, 4);
    LoadBound(m, a, 4);
    Pow2Values();
    Ok((v, next))
  }

  function LE(v: nat, n: nat): (bs: seq<Byte>)
    ensures |bs| == n
  {
    if n == 0 then [] else [v % 256] + LE(v / 256, n - 1)
  }

  function FromLE(bs: seq<Byte>): nat {
    if bs == [] then 0 else bs[0] + 256 * FromLE(bs[1..])
  }

  lemma {:induction false} FromLEInverse(v: nat, n: nat)
    requires v < Pow2(8 * n)
    ensures FromLE(LE(v, n)) == v
  {
    if n != 0 {
      Pow2Add(8, 8 * (n - 1));
      FromLEInverse(v / 256, n - 1);
      assert LE(v, n)[1..] == LE(v / 256, n - 1);
    }
  }

  lemma {:induction false} LoadLEStored(m: Memory, a: int, bs: seq<Byte>)
    requires Stored(m, a, bs)
    ensures LoadLE(m, a, |bs|) == Ok(FromLE(bs))
    decreases |bs|
  {
    hide Stored, LoadLE;
    if bs == [] {
      LoadNothing(m, a);
    } else {
      StoredNotEmpty(m, a, bs);
      StoredTail(m, a, bs);
      LoadLEStored(m, a + 1, bs[1..]);
      LoadStep(m, a, |bs|);
    }
  }

  lemma StoredTail(m: Memory, a: int, bs: seq<Byte>)
    requires Stored(m, a, bs) && bs != []
    ensures Stored(m, a + 1, bs[1..])
  {
    hide Stored;
    assert [bs[0]] + bs[1..] == bs;
    StoredSplit(m, a, [bs[0]], bs[1..]);
  }

  /** Loading undoes storing, for every width and every number that fits it. */
  lemma LoadUndoesStore(m: Memory, a: Addr, v: nat, n: nat)
    requires v < Pow2(8 * n)
    requires Stored(m, a, LE(v, n))
    ensures Load(m, a, n) == Ok((v, a + n))
  {
    LoadLEStored(m, a, LE(v, n));
    FromLEInverse(v, n);
  }

  /** Two's-complement reading of an `n`-byte number. */
  function Signed(v: nat, n: nat): int
    requires n > 0
  {
    if v >= Pow2(8 * n - 1) then v - Pow2(8 * n) else v
  }

  /** A NUL-terminated string, and the address past its terminator. */
  function StringAt(m: Memory, a: int): (r: Result<(string, Addr)>)
    ensures r.Ok? ==> 0 < a < r.value.1 == a + |r.value.0| + 1
    decreases ADDRESS_SPACE - a
  {
    if a !in m then Err(Fault)
    else if m[a] == 0 then Ok(("", a + 1))
    else
      var (s, next) :- StringAt(m, a + 1);
      Ok(([m[a] as char] + s, next))
  }

  /** Characters of one nonzero byte each. */
  predicate Narrow(s: string) {
    forall i :: 0 <= i < |s| ==> 0 < s[i] as int < 256
  }

  function Chars(s: string): (bs: seq<Byte>)
    requires Narrow(s)
    ensures |bs| == |s|
  {
    if s == "" then [] else [s[0] as int] + Chars(s[1..])
  }

  lemma StringStep(m: Memory, a: Addr, c: char)
    requires a in m && m[a] == c as int && m[a] != 0 && StringAt(m, a + 1).Ok?
    ensures StringAt(m, a) == Ok(([c] + StringAt(m, a + 1).value.0, StringAt(m, a + 1).value.1))
  {
  }

  lemma StringEnd(m: Memory, a: Addr)
    requires a in m && m[a] == 0
    ensures StringAt(m, a) == Ok(("", a + 1))
  {
  }

  /** Reading a string undoes storing its characters and a NUL. */
  lemma {:induction false} StringUndoesStore(m: Memory, a: Addr, s: string)
    requires Narrow(s) && Stored(m, a, Chars(s) + [0])
    ensures a + |s| + 1 < ADDRESS_SPACE && StringAt(m, a) == Ok((s, a + |s| + 1))
    decreases |s|
  {
    hide Stored, StringAt;
    StoredNotEmpty(m, a, Chars(s) + [0]);
    if s == "" {
      StringEnd(m, a);
    } else {
      assert Chars(s) + [0] == [s[0] as int] + (Chars(s[1..]) + [0]);
      StoredSplit(m, a, [s[0] as int], Chars(s[1..]) + [0]);
      StringUndoesStore(m, a + 1, s[1..]);
      StringStep(m, a, s[0]);
      assert s == [s[0]] + s[1..];
    }
  }

  lemma WordReads(m: Memory, a: Addr, v: Addr)
    requires Stored(m, a, LE(v, 4))
    ensures 0 < a && a + 4 < ADDRESS_SPACE && Load32(m, a) == Ok((v, a + 4))
  {
    hide Stored, LE, LoadLE, Load;
    Pow2Values();
    StoredNotEmpty(m, a, LE(v, 4));
    LoadUndoesStore(m, a, v, 4);
  }
}
