/** Walking an `.eh_frame` section: LSB Core Generic 5.0, section 10.6.1. */
module EhFrame {
  import opened Machine
  import opened DataViews

  // ---------------------------------------------------------------- one CIE

  /** The augmentation data read at `a` for the rest of the augmentation string: the
      FDE pointer encoding, starting from `encoding`. */
  function Augmentations(m: Memory, a: Addr, letters: string, encoding: Byte): (r: Result<(Byte, Addr)>)
    decreases |letters|
  {
    if letters == [] then Ok((encoding, a))
    else if letters[0] == 'z' then Augmentations(m, a, letters[1..], encoding)
    else if letters[0] == 'R' then
      var (e, next) :- ByteAt(m, a);
      Augmentations(m, next, letters[1..], e)
    else if letters[0] == 'L' then
      var (_, next) :- ByteAt(m, a);
      Augmentations(m, next, letters[1..], encoding)
    else if letters[0] == 'P' then
      var (e, value) :- ByteAt(m, a);
      var (personality, next) :- RawAt(m, value, e);
      if personality.None? then Err(NoPersonality) else Augmentations(m, next, letters[1..], encoding)
    else Err(UnknownAugmentation)
  }

  function ByteAt(m: Memory, a: Addr): (r: Result<(Byte, Addr)>) {
    if a in m then Ok((m[a], a + 1)) else Err(Fault)
  }

  lemma LoadByte(m: Memory, a: Addr)
    ensures Load(m, a, 1) == if a in m then Ok((m[a], a + 1)) else Err(Fault)
  {
    assert a in m ==> LoadLE(m, a + 1, 0) == Ok(0);
  }

  /** The encoding the CIE at `cie` gives to the pointers of its FDEs. */
  function CiePointerEncoding(m: Memory, cie: Addr): (r: Result<Byte>) {
    var (length, idAt) :- Load32(m, cie);
    if length == UINT32_MAX then Err(ExtendedLength)
    else
      var (id, versionAt) :- Load32(m, idAt);
      if id != 0 then Err(NotACie)
      else
        var (version, stringAt) :- ByteAt(m, versionAt);
        if version != 1 then Err(UnsupportedVersion) else CieFields(m, stringAt)
  }

  function CieFields(m: Memory, stringAt: Addr): (r: Result<Byte>) {
    var (augmentation, codeAt) :- StringAt(m, stringAt);
    var (_, dataAt) :- UlebAt(m, codeAt);
    var (_, registerAt) :- SlebAt(m, dataAt);
    var (_, next) :- ByteAt(m, registerAt);
    if augmentation == [] || augmentation[0] != 'z' then Ok(0)
    else
      var (_, fields) :- UlebAt(m, next);
      var (encoding, _) :- Augmentations(m, fields, augmentation, 0);
      Ok(encoding)
  }

  method HandleCie(m: Memory, cieAddress: Addr) returns (r: Result<Byte>)
    ensures r == CiePointerEncoding(m, cieAddress)
  {
    var cie := new DataView(m, cieAddress);
    var length :- cie.ReadWord();
    if length == UINT32_MAX { return Err(ExtendedLength); }
    var id :- cie.ReadWord();
    if id != 0 { return Err(NotACie); }
    var version :- ReadByte(cie);
    if version != 1 { return Err(UnsupportedVersion); }
    r := ReadCieFields(cie);
  }

  method ReadCieFields(cie: DataView) returns (r: Result<Byte>)
    modifies cie
    ensures r == CieFields(cie.mem, old(cie.dataPtr))
  {
    var augmentation :- cie.ReadString();
    var _ :- cie.ReadUleb128();
    var _ :- cie.ReadSleb128();
    var _ :- ReadByte(cie);
    var encoding: Byte := 0;
    if augmentation != [] && augmentation[0] == 'z' {
      var _ :- cie.ReadUleb128();
      encoding :- ReadAugmentations(cie, augmentation);
    }
    return Ok(encoding);
  }

  method ReadAugmentations(cie: DataView, augmentation: string) returns (r: Result<Byte>)
    modifies cie
    ensures r == Value(Augmentations(cie.mem, old(cie.dataPtr), augmentation, 0))
  {
    var encoding: Byte := 0;
    for i := 0 to |augmentation|
      invariant Augmentations(cie.mem, old(cie.dataPtr), augmentation, 0)
             == Augmentations(cie.mem, cie.dataPtr, augmentation[i..], encoding)
    {
      assert augmentation[i..][0] == augmentation[i] && augmentation[i..][1..] == augmentation[i + 1..];
      LoadByte(cie.mem, cie.dataPtr);
      match augmentation[i] {
        case 'z' =>
        case 'R' =>
          encoding :- ReadByte(cie);
        case 'L' =>
          var _ :- ReadByte(cie);
        case 'P' =>
          var pointerEncoding :- ReadByte(cie);
          var personality :- cie.ReadDwarfEncodedNoApplication(pointerEncoding);
          if personality.None? { return Err(NoPersonality); }
        case _ =>
          return Err(UnknownAugmentation);
      }
    }
    return Ok(encoding);
  }

  method ReadByte(view: DataView) returns (r: Result<Byte>)
    modifies view
    ensures r == Value(ByteAt(view.mem, old(view.dataPtr)))
    ensures view.dataPtr == After(ByteAt(view.mem, old(view.dataPtr)), old(view.dataPtr))
  {
    LoadByte(view.mem, view.dataPtr);
    var b :- view.ReadUnsigned(1);
    return Ok(b);
  }

  // ------------------------------------------------------------- the record walk

  /** One pass of the walk: it stops, throws, or moves on to another record; a range may
      have been yielded before it throws. */
  datatype Pass =
    | Stop
    | Throw(yielded: seq<DataRange>, error: Error)
    | Next(yielded: seq<DataRange>, address: Addr)

  function AlignUp(a: Addr): Addr {
    if a % 4 == 0 then a else Add32(a, 4 - a % 4)
  }

  /** The range of an FDE whose CIE pointer field ends at `a`, and the cursor after it. */
  function FdeAt(m: Memory, a: Addr, cieOffset: Addr): (r: Result<(DataRange, Addr)>)
    ensures r.Ok? ==> a < r.value.1
  {
    var encoding :- CiePointerEncoding(m, Sub32(Sub32(a, cieOffset), 4));
    var (pcBegin, rangeAt) :- PointerAt(m, a, encoding);
    if pcBegin.None? then Err(NoPcBegin)
    else
      var (pcRange, next) :- Load32(m, rangeAt);
      Ok((DataRange(pcBegin.value, pcRange), next))
  }

  /** The rest of a pass, from the word after the length on; the next record is known. */
  function RecordAt(m: Memory, idAt: Addr, nextRecord: Addr): Pass {
    match Load32(m, idAt)
    case Err(e) => Throw([], e)
    case Ok((id, a)) =>
      if id == 0 then EndOfRecord([], a, nextRecord)
      else match FdeAt(m, a, id)
        case Err(e) => Throw([], e)
        case Ok((range, next)) => EndOfRecord([range], next, nextRecord)
  }

  function RecordPass(m: Memory, p: Addr, end: Addr): Pass {
    if p >= end then Stop
    else match Load32(m, p)
      case Err(e) => Throw([], e)
      case Ok((length, idAt)) =>
        if idAt >= end || length == 0 then Stop
        else if length == UINT32_MAX then Throw([], ExtendedLength)
        else RecordAt(m, idAt, Add32(idAt, length))
  }

  function EndOfRecord(yielded: seq<DataRange>, cursor: Addr, nextRecord: Addr): Pass {
    if cursor >= nextRecord then Throw(yielded, RecordOverrun) else Next(yielded, AlignUp(nextRecord))
  }

  lemma LengthRead(m: Memory, p: Addr, end: Addr, length: Addr)
    requires p + 4 < end && 0 < length < UINT32_MAX && Load32(m, p) == Ok((length, p + 4))
    ensures RecordPass(m, p, end) == RecordAt(m, p + 4, Add32(p + 4, length))
  {
    hide Load32, RecordAt, Add32;
  }

  // A pass that starts at address 0 faults, so 0 is the last address a walk can reach.
  function Remaining(p: Addr): nat {
    if p == 0 then 0 else ADDRESS_SPACE - p
  }

  lemma AlignUpValue(a: Addr)
    ensures AlignUp(a) % 4 == 0
    ensures if a > ADDRESS_SPACE - 4 then AlignUp(a) == 0 else a <= AlignUp(a) < a + 4
  {
    var q, r := a / 4, a % 4;
    assert a == 4 * q + r;
  }

  lemma AlignStep(a: Addr)
    ensures AlignUp(a) == if a % 4 == 0 then a else AlignUp(Add32(a, 1))
  {
    var q, r := a / 4, a % 4;
    assert a == 4 * q + r;
  }

  lemma NextRecord(m: Memory, p: Addr, end: Addr)
    requires RecordPass(m, p, end).Next?
    ensures p > 0 && Load32(m, p).Ok?
    ensures var (length, idAt) := Load32(m, p).value;
            && idAt == p + 4 < Add32(idAt, length)
            && RecordPass(m, p, end).address == AlignUp(Add32(idAt, length))
  {
    hide AlignUp, CiePointerEncoding, PointerAt, FdeAt;
  }

  /** Whatever the memory holds, a pass stops, throws, moves strictly forward to a
      4-aligned address, or, when the record's end rounds up to 2^32, wraps to 0. */
  lemma PassProgress(m: Memory, p: Addr, end: Addr)
    requires RecordPass(m, p, end).Next?
    ensures var next := RecordPass(m, p, end).address;
            next % 4 == 0 && (p < next || next == 0) && p != 0 && Remaining(next) < Remaining(p)
    ensures RecordPass(m, p, end).address == 0 <==>
            Add32(p + 4, Load32(m, p).value.0) > ADDRESS_SPACE - 4
  {
    hide AlignUp, RecordPass;
    NextRecord(m, p, end);
    var (length, idAt) := Load32(m, p).value;
    AlignUpValue(Add32(idAt, length));
  }

  function Prepend(items: seq<DataRange>, rest: Yields<DataRange>): Yields<DataRange> {
    Yields(items + rest.items, rest.error)
  }

  /** Everything the walk from `p` yields. */
  function Walk(m: Memory, p: Addr, end: Addr): (r: Yields<DataRange>)
    decreases Remaining(p)
  {
    match RecordPass(m, p, end)
    case Stop => Yields([], None)
    case Throw(yielded, e) => Yields(yielded, Some(e))
    case Next(yielded, next) =>
      PassProgress(m, p, end);
      Prepend(yielded, Walk(m, next, end))
  }

  method HandleEhFrame(m: Memory, startAddress: Addr, endAddress: Addr) returns (r: Yields<DataRange>)
    ensures r == Walk(m, startAddress, endAddress)
  {
    hide Walk, RecordPass;
    NothingBefore(Walk(m, startAddress, endAddress));
    var fde := new DataView(m, startAddress);
    var items: seq<DataRange> := [];
    while fde.dataPtr < endAddress
      invariant fde.mem == m
      invariant Walk(m, startAddress, endAddress) == Prepend(items, Walk(m, fde.dataPtr, endAddress))
      decreases Remaining(fde.dataPtr)
    {
      ghost var p, done := fde.dataPtr, items;
      WalkUnfold(m, p, endAddress);
      var pass := HandleRecord(fde, endAddress);
      match pass {
        case Stop =>
          return Yields(items, None);
        case Throw(yielded, error) =>
          return Yields(items + yielded, Some(error));
        case Next(yielded, _) =>
          items := items + yielded;
          PassProgress(m, p, endAddress);
          PrependTwice(done, yielded, Walk(m, fde.dataPtr, endAddress));
      }
    }
    WalkEnds(m, fde.dataPtr, endAddress);
    return Yields(items, None);
  }

  lemma WalkUnfold(m: Memory, p: Addr, end: Addr)
    ensures Walk(m, p, end) == match RecordPass(m, p, end)
                               case Stop => Yields([], None)
                               case Throw(yielded, e) => Yields(yielded, Some(e))
                               case Next(yielded, next) => Prepend(yielded, Walk(m, next, end))
  {
    hide RecordPass;
  }

  lemma WalkEnds(m: Memory, p: Addr, end: Addr)
    requires p >= end
    ensures Walk(m, p, end) == Yields([], None)
  {
  }

  lemma NothingBefore(rest: Yields<DataRange>)
    ensures Prepend([], rest) == rest
  {
  }

  lemma PrependTwice(x: seq<DataRange>, y: seq<DataRange>, rest: Yields<DataRange>)
    ensures Prepend(x, Prepend(y, rest)) == Prepend(x + y, rest)
  {
    assert x + (y + rest.items) == x + y + rest.items;
  }

  /** The body of the record loop; `dataPtr < endAddress` on entry. */
  method HandleRecord(fde: DataView, endAddress: Addr) returns (pass: Pass)
    requires fde.dataPtr < endAddress
    modifies fde
    ensures pass == RecordPass(fde.mem, old(fde.dataPtr), endAddress)
    ensures pass.Next? ==> fde.dataPtr == pass.address
  {
    var length := fde.ReadWord();
    if length.Err? { return Throw([], length.error); }
    if fde.dataPtr >= endAddress || length.value == 0 { return Stop; }
    var nextRecordAddress := Add32(fde.dataPtr, length.value);
    if length.value == UINT32_MAX { return Throw([], ExtendedLength); }
    var id := fde.ReadWord();
    if id.Err? { return Throw([], id.error); }
    var yielded := [];
    if id.value != 0 {
      var range := ReadFde(fde, id.value);
      if range.Err? { return Throw([], range.error); }
      yielded := [range.value];
    }
    if fde.dataPtr >= nextRecordAddress { return Throw(yielded, RecordOverrun); }
    fde.dataPtr := nextRecordAddress;
    Align(fde);
    return Next(yielded, fde.dataPtr);
  }

  method ReadFde(fde: DataView, cieOffset: Addr) returns (r: Result<DataRange>)
    modifies fde
    ensures r == Value(FdeAt(fde.mem, old(fde.dataPtr), cieOffset))
    ensures r.Ok? ==> fde.dataPtr == After(FdeAt(fde.mem, old(fde.dataPtr), cieOffset), old(fde.dataPtr))
  {
    var ciePointer := Sub32(Sub32(fde.dataPtr, cieOffset), 4);
    var encoding :- HandleCie(fde.mem, ciePointer);
    var pcBegin :- fde.ReadDwarfEncoded(encoding);
    if pcBegin.None? { return Err(NoPcBegin); }
    var pcRange :- fde.ReadWord();
    return Ok(DataRange(pcBegin.value, pcRange));
  }

  method Align(view: DataView)
    modifies view
    ensures view.dataPtr == AlignUp(old(view.dataPtr))
  {
    hide AlignUp;
    while view.dataPtr % 4 != 0
      invariant AlignUp(view.dataPtr) == AlignUp(old(view.dataPtr))
      decreases (4 - view.dataPtr % 4) % 4
    {
      AlignStep(view.dataPtr);
      view.dataPtr := Add32(view.dataPtr, 1);
    }
    AlignStep(view.dataPtr);
  }

  // --------------------------------------------------------------- all of a module

  /** The ranges of all `.eh_frame` sections, in order, up to the first exception. */
  function EhFrameRanges(m: Memory, sections: seq<DataRange>): (r: Yields<DataRange>) {
    if sections == [] then Yields([], None)
    else
      var first := Walk(m, sections[0].begin, sections[0].End());
      if first.error.Some? then first else Prepend(first.items, EhFrameRanges(m, sections[1..]))
  }

  method GetEhFrameRanges(m: Memory, sections: seq<DataRange>) returns (r: Yields<DataRange>)
    ensures r == EhFrameRanges(m, sections)
  {
    var items: seq<DataRange> := [];
    for i := 0 to |sections|
      invariant EhFrameRanges(m, sections) == Prepend(items, EhFrameRanges(m, sections[i..]))
    {
      var section := HandleEhFrame(m, sections[i].begin, sections[i].End());
      assert sections[i..][0] == sections[i] && sections[i..][1..] == sections[i + 1..];
      if section.error.Some? { return Yields(items + section.items, section.error); }
      PrependTwice(items, section.items, EhFrameRanges(m, sections[i + 1..]));
      items := items + section.items;
    }
    return Yields(items, None);
  }
}
