/** Writing an `.eh_frame` section, and the proof that walking it recovers its FDEs. */
module EhFramePrinter {
  import opened Machine
  import opened Leb128
  import opened Leb128Properties
  import opened DataViews
  import opened PointerEncoding
  import opened EhFrame

  // --------------------------------------------------------------- augmentation data

  /** A field announced by a letter of the augmentation string after its 'z'. */
  datatype Augmentation =
    | Repeated                                      // 'z', without data
    | FdePointers(encoding: Byte)                   // 'R'
    | LsdaPointers(encoding: Byte)                  // 'L'
    | Personality(encoding: Byte, value: seq<Byte>) // 'P'
  {
    function Letter(): char {
      match this
      case Repeated => 'z'
      case FdePointers(_) => 'R'
      case LsdaPointers(_) => 'L'
      case Personality(_, _) => 'P'
    }

    function Data(): seq<Byte> {
      match this
      case Repeated => []
      case FdePointers(e) => [e]
      case LsdaPointers(e) => [e]
      case Personality(e, value) => [e] + value
    }

    predicate Valid() {
      Personality? ==> encoding != OMIT && IsField(encoding % 16, value)
    }
  }

  /** `bs` is exactly one value of the format. */
  predicate IsField(format: int, bs: seq<Byte>) {
    if format == ULEB128 then IsULEB(bs)
    else if format == SLEB128 then IsSLEB(bs)
    else KnownFormat(format) && |bs| == Width(format)
  }

  predicate IsULEB(bs: seq<Byte>) {
    IsLeb(bs) && Short(bs) && Unsigned(bs) < TWO_64
  }

  predicate IsSLEB(bs: seq<Byte>) {
    IsLeb(bs) && |bs| <= 10 && IsInt64(SignedValue(bs))
  }

  function Letters(augs: seq<Augmentation>): (s: string)
    ensures |s| == |augs| && Narrow(s)
  {
    if augs == [] then "" else [augs[0].Letter()] + Letters(augs[1..])
  }

  function AugmentationData(augs: seq<Augmentation>): seq<Byte> {
    if augs == [] then [] else augs[0].Data() + AugmentationData(augs[1..])
  }

  /** The last 'R' wins; without one, `encoding` stays. */
  function LastPointerEncoding(augs: seq<Augmentation>, encoding: Byte): Byte {
    if augs == [] then encoding
    else LastPointerEncoding(augs[1..], if augs[0].FdePointers? then augs[0].encoding else encoding)
  }

  lemma UlebFieldReads(m: Memory, a: Addr, bs: seq<Byte>)
    requires Stored(m, a, bs) && IsULEB(bs)
    ensures a + |bs| < ADDRESS_SPACE && UlebAt(m, a) == Ok((Unsigned(bs), a + |bs|))
  {
    StoredNotEmpty(m, a, bs);
    UlebIsExact(m, a, 0, bs);
  }

  lemma SlebFieldReads(m: Memory, a: Addr, bs: seq<Byte>)
    requires Stored(m, a, bs) && IsSLEB(bs)
    ensures a + |bs| < ADDRESS_SPACE && SlebAt(m, a) == Ok((SignedValue(bs), a + |bs|))
  {
    StoredNotEmpty(m, a, bs);
    SlebIsExact(m, a, 0, bs);
  }

  /** Reading a field of any format passes over exactly its bytes. */
  lemma FieldReads(m: Memory, a: Addr, format: int, bs: seq<Byte>)
    requires Stored(m, a, bs) && IsField(format, bs)
    ensures FormatAt(m, a, format).Ok? && FormatAt(m, a, format).value.1 == a + |bs|
  {
    if format == ULEB128 {
      UlebFieldReads(m, a, bs);
    } else if format == SLEB128 {
      SlebFieldReads(m, a, bs);
    } else {
      LoadLEStored(m, a, bs);
      FixedWidth(m, a, format);
    }
  }

  lemma OneAugmentation(m: Memory, a: Addr, g: Augmentation, letters: string, encoding: Byte)
    requires Stored(m, a, g.Data()) && g.Valid()
    requires letters != [] && letters[0] == g.Letter()
    ensures a + |g.Data()| < ADDRESS_SPACE
    ensures Augmentations(m, a, letters, encoding)
            == Augmentations(m, a + |g.Data()|, letters[1..], if g.FdePointers? then g.encoding else encoding)
  {
    hide Stored, RawAt, IsField;
    if g.Data() != [] { StoredNotEmpty(m, a, g.Data()); }
    if g.Personality? {
      StoredSplit(m, a, [g.encoding], g.value);
      PersonalityReads(m, a + 1, g.encoding, g.value);
    }
  }

  lemma PersonalityReads(m: Memory, a: Addr, encoding: Byte, bs: seq<Byte>)
    requires Stored(m, a, bs) && encoding != OMIT && IsField(encoding % 16, bs)
    ensures RawAt(m, a, encoding).Ok?
    ensures RawAt(m, a, encoding).value.0.Some? && RawAt(m, a, encoding).value.1 == a + |bs|
  {
    FieldReads(m, a, encoding % 16, bs);
  }

  lemma NoAugmentations(m: Memory, a: Addr, encoding: Byte)
    ensures Letters([]) == "" && AugmentationData([]) == [] && LastPointerEncoding([], encoding) == encoding
    ensures Augmentations(m, a, "", encoding) == Ok((encoding, a))
  {
  }

  /** Reading known letters passes over exactly their data and goes on with the rest of the
      string. */
  lemma {:induction false} AugmentationsThen(m: Memory, a: Addr, augs: seq<Augmentation>, more: string, encoding: Byte)
    requires Stored(m, a, AugmentationData(augs))
    requires forall g :: g in augs ==> g.Valid()
    ensures a + |AugmentationData(augs)| < ADDRESS_SPACE
    ensures Augmentations(m, a, Letters(augs) + more, encoding)
            == Augmentations(m, a + |AugmentationData(augs)|, more, LastPointerEncoding(augs, encoding))
    decreases |augs|
  {
    hide Stored, Augmentations, Letters, AugmentationData, LastPointerEncoding;
    if augs == [] {
      NoAugmentations(m, a, encoding);
      assert Letters(augs) + more == more;
    } else {
      var g, rest := augs[0], augs[1..];
      assert g in augs;
      FirstAugmentation(augs, encoding);
      StoredSplit(m, a, g.Data(), AugmentationData(rest));
      OneAugmentation(m, a, g, Letters(augs) + more, encoding);
      assert (Letters(augs) + more)[1..] == Letters(rest) + more;
      AugmentationsThen(m, a + |g.Data()|, rest, more, if g.FdePointers? then g.encoding else encoding);
    }
  }

  lemma AugmentationsRead(m: Memory, a: Addr, augs: seq<Augmentation>, encoding: Byte)
    requires Stored(m, a, AugmentationData(augs))
    requires forall g :: g in augs ==> g.Valid()
    ensures a + |AugmentationData(augs)| < ADDRESS_SPACE
    ensures Augmentations(m, a, Letters(augs), encoding)
            == Ok((LastPointerEncoding(augs, encoding), a + |AugmentationData(augs)|))
  {
    hide Stored, Letters, AugmentationData, LastPointerEncoding;
    AugmentationsThen(m, a, augs, "", encoding);
    assert Letters(augs) + "" == Letters(augs);
  }

  lemma FirstAugmentation(augs: seq<Augmentation>, encoding: Byte)
    requires augs != []
    ensures Letters(augs) != [] && Letters(augs)[0] == augs[0].Letter() && Letters(augs)[1..] == Letters(augs[1..])
    ensures AugmentationData(augs) == augs[0].Data() + AugmentationData(augs[1..])
    ensures LastPointerEncoding(augs, encoding)
            == LastPointerEncoding(augs[1..], if augs[0].FdePointers? then augs[0].encoding else encoding)
  {
  }

  // -------------------------------------------------------------------------- one CIE

  /** A version 1 CIE whose augmentation string starts with 'z'.  The alignment factors and
      the augmentation length are LEB128 byte strings of any width. */
  datatype Cie = Cie(codeAlignment: seq<Byte>, dataAlignment: seq<Byte>, returnRegister: Byte,
                     augmentationLength: seq<Byte>, augs: seq<Augmentation>, rest: seq<Byte>)
  {
    predicate Valid() {
      && IsULEB(codeAlignment) && IsSLEB(dataAlignment) && IsULEB(augmentationLength)
      && forall g :: g in augs ==> g.Valid()
    }

    function PointerEncoding(): Byte { LastPointerEncoding(augs, 0) }

    function String(): (s: string)
      ensures Narrow(s)
    {
      "z" + Letters(augs)
    }

    function StringBytes(): seq<Byte> { Chars(String()) + [0] }

    function Fields(): seq<Byte> {
      augmentationLength + (AugmentationData(augs) + rest)
    }

    function Body(): (bs: seq<Byte>)
      ensures |bs| > 4
    {
      LE(0, 4) + ([1] + (StringBytes() + (codeAlignment + (dataAlignment + ([returnRegister] + Fields())))))
    }
  }

  /** The length word and what it covers. */
  function Sized(body: seq<Byte>): seq<Byte> {
    LE(|body|, 4) + body
  }

  lemma StoredSplit3(m: Memory, a: Addr, x: seq<Byte>, y: seq<Byte>, z: seq<Byte>)
    requires Stored(m, a, x + (y + z))
    ensures Stored(m, a, x) && Stored(m, a + |x|, y) && Stored(m, a + |x| + |y|, z)
  {
    StoredSplit(m, a, x, y + z);
    StoredSplit(m, a + |x|, y, z);
  }

  /** The fields from the augmentation length on. */
  lemma AugmentedFieldsRead(m: Memory, a: Addr, c: Cie)
    requires c.Valid() && Stored(m, a, c.Fields())
    ensures UlebAt(m, a).Ok?
    ensures var r := Augmentations(m, UlebAt(m, a).value.1, c.String(), 0);
            r.Ok? && r.value.0 == c.PointerEncoding()
  {
    hide Stored, UlebAt, IsLeb, AugmentationData, Letters, LastPointerEncoding;
    StoredSplit3(m, a, c.augmentationLength, AugmentationData(c.augs), c.rest);
    UlebFieldReads(m, a, c.augmentationLength);
    assert c.String()[0] == 'z' && c.String()[1..] == Letters(c.augs);
    AugmentationsRead(m, a + |c.augmentationLength|, c.augs, 0);
  }

  lemma CieFieldsRead(m: Memory, a: Addr, c: Cie)
    requires c.Valid()
    requires Stored(m, a, c.StringBytes() +
                          (c.codeAlignment + (c.dataAlignment + ([c.returnRegister] + c.Fields()))))
    ensures CieFields(m, a) == Ok(c.PointerEncoding())
  {
    hide Stored, UlebAt, SlebAt, StringAt, CieFields, IsULEB, IsSLEB, Augmentations;
    var code := a + |c.StringBytes()|;
    StoredSplit(m, a, c.StringBytes(), c.codeAlignment + (c.dataAlignment + ([c.returnRegister] + c.Fields())));
    StringUndoesStore(m, a, c.String());
    var register := AlignmentsRead(m, code, c.codeAlignment, c.dataAlignment, c.returnRegister, c.Fields());
    AugmentedFieldsRead(m, register + 1, c);
    CieFieldsUnfold(m, a, c.String(), code, UlebAt(m, code).value.1, register);
  }

  lemma AlignmentsRead(m: Memory, a: Addr, code: seq<Byte>, data: seq<Byte>, register: Byte, fields: seq<Byte>)
    returns (registerAt: Addr)
    requires IsULEB(code) && IsSLEB(data) && Stored(m, a, code + (data + ([register] + fields)))
    ensures UlebAt(m, a).Ok? && SlebAt(m, UlebAt(m, a).value.1).Ok?
    ensures registerAt == SlebAt(m, UlebAt(m, a).value.1).value.1 && registerAt in m && registerAt < UINT32_MAX
    ensures Stored(m, registerAt + 1, fields)
  {
    hide Stored, UlebAt, SlebAt, IsULEB, IsSLEB;
    StoredSplit3(m, a, code, data, [register] + fields);
    UlebFieldReads(m, a, code);
    SlebFieldReads(m, a + |code|, data);
    registerAt := a + |code| + |data|;
    StoredSplit(m, registerAt, [register], fields);
    StoredNotEmpty(m, registerAt, [register]);
  }

  lemma CieFieldsUnfold(m: Memory, a: Addr, s: string, code: Addr, data: Addr, register: Addr)
    requires StringAt(m, a) == Ok((s, code)) && s != [] && s[0] == 'z'
    requires UlebAt(m, code).Ok? && UlebAt(m, code).value.1 == data
    requires SlebAt(m, data).Ok? && SlebAt(m, data).value.1 == register
    requires register in m && UlebAt(m, register + 1).Ok?
    requires Augmentations(m, UlebAt(m, register + 1).value.1, s, 0).Ok?
    ensures CieFields(m, a) == Ok(Augmentations(m, UlebAt(m, register + 1).value.1, s, 0).value.0)
  {
  }

  lemma SizedFits(m: Memory, a: Addr, body: seq<Byte>)
    requires Stored(m, a, Sized(body))
    ensures a > 0 && a + 4 + |body| < ADDRESS_SPACE
    ensures |body| < UINT32_MAX && Load32(m, a) == Ok((|body|, a + 4)) && Stored(m, a + 4, body)
  {
    StoredNotEmpty(m, a, Sized(body));
    StoredSplit(m, a, LE(|body|, 4), body);
    WordReads(m, a, |body|);
  }

  /** The words and the version byte in front of the fields. */
  lemma CieHeaderReads(m: Memory, a: Addr, c: Cie)
    requires Stored(m, a, c.Body())
    ensures a + 5 < ADDRESS_SPACE && Load32(m, a) == Ok((0, a + 4)) && a + 4 in m && m[a + 4] == 1
    ensures Stored(m, a + 5, c.StringBytes() +
                             (c.codeAlignment + (c.dataAlignment + ([c.returnRegister] + c.Fields()))))
  {
    hide Stored, Load32, LE, c.StringBytes, c.Fields;
    var fields := c.StringBytes() + (c.codeAlignment + (c.dataAlignment + ([c.returnRegister] + c.Fields())));
    StoredSplit3(m, a, LE(0, 4), [1], fields);
    WordReads(m, a, 0);
    StoredNotEmpty(m, a + 4, [1]);
  }

  lemma CieUnfold(m: Memory, a: Addr, length: Addr)
    requires Load32(m, a) == Ok((length, a + 4)) && length < UINT32_MAX
    requires Load32(m, a + 4) == Ok((0, a + 8)) && a + 8 in m && m[a + 8] == 1
    ensures CiePointerEncoding(m, a) == CieFields(m, a + 9)
  {
    hide Load32, CieFields;
  }

  /** `handle_cie` finds the encoding in the last 'R' position, whatever the letters'
      order and number and the widths of everything it skips. */
  lemma CieReads(m: Memory, a: Addr, c: Cie)
    requires c.Valid() && Stored(m, a, Sized(c.Body()))
    ensures CiePointerEncoding(m, a) == Ok(c.PointerEncoding())
  {
    hide Stored, Load32, LE, CieFields, CiePointerEncoding, Sized;
    SizedFits(m, a, c.Body());
    CieHeaderReads(m, a + 4, c);
    CieUnfold(m, a, |c.Body()|);
    CieFieldsRead(m, a + 9, c);
  }

  // ------------------------------------------------------------------- a whole section

  /** An FDE names its CIE by position among the CIEs written before it. */
  datatype Record =
    | CieRecord(cie: Cie)
    | FdeRecord(owner: nat, pcBegin: Addr, pcRange: Addr, rest: seq<Byte>)

  datatype Placed = Placed(at: Addr, cie: Cie)

  function FdeFormat(cie: Cie): int { cie.PointerEncoding() - PCREL }

  /** The bytes of record `r` can be written at `p` after the CIEs `cies`. */
  predicate RecordFits(r: Record, p: Addr, cies: seq<Placed>) {
    match r
    case CieRecord(c) => c.Valid()
    case FdeRecord(owner, pcBegin, _, _) =>
      && owner < |cies| && cies[owner].at <= p && p + 8 < ADDRESS_SPACE
      && KnownFormat(FdeFormat(cies[owner].cie))
      && Fits(FdeFormat(cies[owner].cie), Delta(FdeFormat(cies[owner].cie), p + 8, pcBegin))
  }

  /** An FDE keeps at least one byte that is not read. */
  predicate RecordOk(r: Record, p: Addr, cies: seq<Placed>) {
    RecordFits(r, p, cies) && (r.FdeRecord? ==> r.rest != [])
  }

  function PcBeginBytes(r: Record, p: Addr, cies: seq<Placed>): seq<Byte>
    requires r.FdeRecord? && RecordFits(r, p, cies)
  {
    var format := FdeFormat(cies[r.owner].cie);
    EncodeField(format, Delta(format, p + 8, r.pcBegin))
  }

  function Body(r: Record, p: Addr, cies: seq<Placed>): (bs: seq<Byte>)
    requires RecordFits(r, p, cies)
    ensures |bs| > 4
  {
    match r
    case CieRecord(c) => c.Body()
    case FdeRecord(owner, pcBegin, pcRange, rest) =>
      LE(p + 4 - cies[owner].at, 4) + (PcBeginBytes(r, p, cies) + (LE(pcRange, 4) + rest))
  }

  function Padding(n: nat): (bs: seq<Byte>)
    ensures (n + |bs|) % 4 == 0 && |bs| < 4
  {
    [[], [0, 0, 0], [0, 0], [0]][n % 4]
  }

  /** A record and the zero bytes up to the next multiple of 4. */
  function Padded(body: seq<Byte>): (bs: seq<Byte>)
    ensures |bs| % 4 == 0
  {
    Sized(body) + Padding(|Sized(body)|)
  }

  function Place(r: Record, p: Addr, cies: seq<Placed>): seq<Placed> {
    if r.CieRecord? then cies + [Placed(p, r.cie)] else cies
  }

  /** Where the record after `r` goes. */
  function NextAt(r: Record, p: Addr, cies: seq<Placed>): nat
    requires RecordFits(r, p, cies)
  {
    p + |Padded(Body(r, p, cies))|
  }

  ghost predicate SectionOk(rs: seq<Record>, p: int, cies: seq<Placed>) {
    rs == [] ||
    (0 <= p < ADDRESS_SPACE && RecordOk(rs[0], p, cies) &&
     SectionOk(rs[1..], NextAt(rs[0], p, cies), Place(rs[0], p, cies)))
  }

  ghost function Section(rs: seq<Record>, p: int, cies: seq<Placed>): (bs: seq<Byte>)
    requires SectionOk(rs, p, cies)
    decreases |rs|, 1
  {
    if rs == [] then [] else Padded(Body(rs[0], p, cies)) + AfterFirst(rs, p, cies)
  }

  ghost function AfterFirst(rs: seq<Record>, p: int, cies: seq<Placed>): (bs: seq<Byte>)
    requires rs != [] && SectionOk(rs, p, cies)
    decreases |rs|, 0
  {
    Section(rs[1..], NextAt(rs[0], p, cies), Place(rs[0], p, cies))
  }

  /** What the records promise: their FDEs' ranges, in order. */
  function Ranges(rs: seq<Record>): seq<DataRange> {
    if rs == [] then []
    else (if rs[0].FdeRecord? then [DataRange(rs[0].pcBegin, rs[0].pcRange)] else []) + Ranges(rs[1..])
  }

  ghost predicate AllPlaced(m: Memory, cies: seq<Placed>) {
    forall c :: c in cies ==> c.cie.Valid() && Stored(m, c.at, Sized(c.cie.Body()))
  }

  lemma OwnerReads(m: Memory, cies: seq<Placed>, owner: nat)
    requires AllPlaced(m, cies) && owner < |cies|
    ensures cies[owner].at > 0
    ensures CiePointerEncoding(m, cies[owner].at) == Ok(cies[owner].cie.PointerEncoding())
  {
    var c := cies[owner];
    assert c in cies;
    CieReads(m, c.at, c.cie);
    SizedFits(m, c.at, c.cie.Body());
  }

  lemma FdeReads(m: Memory, p: Addr, r: Record, cies: seq<Placed>)
    requires r.FdeRecord? && RecordFits(r, p, cies) && AllPlaced(m, cies)
    requires Stored(m, p + 4, Body(r, p, cies))
    ensures p + 4 + |Body(r, p, cies)| <= ADDRESS_SPACE
    ensures var id := p + 4 - cies[r.owner].at;
            && 0 < id < ADDRESS_SPACE && Load32(m, p + 4) == Ok((id, p + 8))
            && FdeAt(m, p + 8, id) == Ok((DataRange(r.pcBegin, r.pcRange), p + 4 + |Body(r, p, cies)| - |r.rest|))
  {
    hide Stored, Body, CiePointerEncoding, PointerAt, AllPlaced, Load32, Load, LoadLE, FdeAt, RecordFits, FdeFormat;
    FdeHasOwner(r, p, cies);
    var at := cies[r.owner].at;
    OwnerReads(m, cies, r.owner);
    var rangeAt := FdePointersRead(m, p, r, cies);
    FdeUnfold(m, p + 8, p + 4 - at, at, cies[r.owner].cie.PointerEncoding(), r.pcBegin, rangeAt, r.pcRange);
  }

  /** The fields of a written FDE, one after another. */
  lemma FdePointersRead(m: Memory, p: Addr, r: Record, cies: seq<Placed>) returns (rangeAt: Addr)
    requires r.FdeRecord? && RecordFits(r, p, cies) && cies[r.owner].at > 0
    requires Stored(m, p + 4, Body(r, p, cies))
    ensures p + 4 + |Body(r, p, cies)| <= ADDRESS_SPACE
    ensures rangeAt + 4 == p + 4 + |Body(r, p, cies)| - |r.rest| < ADDRESS_SPACE
    ensures Load32(m, p + 4) == Ok((p + 4 - cies[r.owner].at, p + 8))
    ensures PointerAt(m, p + 8, cies[r.owner].cie.PointerEncoding()) == Ok((Some(r.pcBegin), rangeAt))
    ensures Load32(m, rangeAt) == Ok((r.pcRange, rangeAt + 4))
  {
    hide Stored, LE, PointerAt, Load32, Load, LoadLE, Body, PcBeginBytes, RecordFits, FdeFormat;
    FdeHasOwner(r, p, cies);
    FdeBody(r, p, cies);
    var id, pc := p + 4 - cies[r.owner].at, PcBeginBytes(r, p, cies);
    StoredNotEmpty(m, p + 4, Body(r, p, cies));
    StoredSplit3(m, p + 4, LE(id, 4), pc, LE(r.pcRange, 4) + r.rest);
    WordReads(m, p + 4, id);
    PcBeginReads(m, p, r, cies);
    rangeAt := p + 8 + |pc|;
    StoredSplit(m, rangeAt, LE(r.pcRange, 4), r.rest);
    WordReads(m, rangeAt, r.pcRange);
  }

  lemma FdeBody(r: Record, p: Addr, cies: seq<Placed>)
    requires r.FdeRecord? && RecordFits(r, p, cies)
    ensures Body(r, p, cies)
            == LE(p + 4 - cies[r.owner].at, 4) + (PcBeginBytes(r, p, cies) + (LE(r.pcRange, 4) + r.rest))
  {
    hide PcBeginBytes, LE;
  }

  lemma PcBeginReads(m: Memory, p: Addr, r: Record, cies: seq<Placed>)
    requires r.FdeRecord? && RecordFits(r, p, cies) && Stored(m, p + 8, PcBeginBytes(r, p, cies))
    ensures PointerAt(m, p + 8, cies[r.owner].cie.PointerEncoding())
            == Ok((Some(r.pcBegin), p + 8 + |PcBeginBytes(r, p, cies)|))
  {
    hide Stored, EncodeField, Fits, Delta, PointerAt;
    PcrelUndoesWrite(m, p + 8, r.pcBegin, FdeFormat(cies[r.owner].cie));
  }

  lemma FdeUnfold(m: Memory, a: Addr, cieOffset: Addr, cie: Addr, encoding: Byte,
                  begin: Addr, rangeAt: Addr, length: Addr)
    requires a == cie + cieOffset + 4 && CiePointerEncoding(m, cie) == Ok(encoding)
    requires PointerAt(m, a, encoding) == Ok((Some(begin), rangeAt))
    requires rangeAt + 4 < ADDRESS_SPACE && Load32(m, rangeAt) == Ok((length, rangeAt + 4))
    ensures FdeAt(m, a, cieOffset) == Ok((DataRange(begin, length), rangeAt + 4))
  {
    hide CiePointerEncoding, PointerAt, Load32;
    assert Sub32(Sub32(a, cieOffset), 4) == cie;
  }

  lemma PaddedLength(p: Addr, body: seq<Byte>)
    requires p % 4 == 0 && p + 4 + |body| < ADDRESS_SPACE
    requires p + |Padded(body)| < ADDRESS_SPACE
    ensures AlignUp(p + 4 + |body|) == p + |Padded(body)| >= p + 4 + |body|
  {
  }

  lemma StoredPadded(m: Memory, p: Addr, body: seq<Byte>)
    requires Stored(m, p, Padded(body))
    ensures Stored(m, p, Sized(body))
  {
    StoredSplit(m, p, Sized(body), Padding(|Sized(body)|));
  }

  /** One pass over a written record yields its range and stops at the next record. */
  lemma RecordReads(m: Memory, p: Addr, end: Addr, r: Record, cies: seq<Placed>)
    requires p % 4 == 0 && RecordOk(r, p, cies) && AllPlaced(m, cies)
    requires Stored(m, p, Padded(Body(r, p, cies)))
    requires p + |Padded(Body(r, p, cies))| <= end
    ensures RecordPass(m, p, end) == Next(Ranges([r]), p + |Padded(Body(r, p, cies))|)
    ensures AllPlaced(m, Place(r, p, cies))
  {
    hide Stored, LE, Load32, Load, FdeAt, Padded, Sized, Body, RecordFits, AlignUp, Ranges,
         AllPlaced, Place, RecordPass;
    RangesOne(r);
    var body := Body(r, p, cies);
    StoredPadded(m, p, body);
    SizedFits(m, p, body);
    PaddedLength(p, body);
    if r.FdeRecord? {
      SpareByteNeeded(m, p, end, r, cies);
    } else {
      CieBody(r, p, cies);
      CieIdReads(m, p + 4, r.cie);
      CiePass(m, p, end, |body|);
    }
    PlacedToo(m, p, r, cies);
  }

  lemma CiePass(m: Memory, p: Addr, end: Addr, length: Addr)
    requires p + 4 + length <= end && 0 < length < UINT32_MAX && p + 4 < end
    requires Load32(m, p) == Ok((length, p + 4)) && Load32(m, p + 4) == Ok((0, p + 8))
    ensures RecordPass(m, p, end)
            == if length > 4 then Next([], AlignUp(p + 4 + length)) else Throw([], RecordOverrun)
  {
    hide Load32, AlignUp, RecordPass;
    LengthRead(m, p, end, length);
  }

  lemma FdePass(m: Memory, p: Addr, end: Addr, length: Addr, id: Addr, range: DataRange, next: Addr)
    requires p + 4 + length <= end && 0 < length < UINT32_MAX && p + 4 < end && id != 0
    requires Load32(m, p) == Ok((length, p + 4)) && Load32(m, p + 4) == Ok((id, p + 8))
    requires FdeAt(m, p + 8, id) == Ok((range, next))
    ensures RecordPass(m, p, end)
            == if next < p + 4 + length then Next([range], AlignUp(p + 4 + length)) else Throw([range], RecordOverrun)
  {
    hide Load32, FdeAt, AlignUp, RecordPass;
    LengthRead(m, p, end, length);
  }

  /** A written FDE is passed over if and only if it keeps a byte that is not read; without one
      its range is yielded, and then the walk throws. */
  lemma SpareByteNeeded(m: Memory, p: Addr, end: Addr, r: Record, cies: seq<Placed>)
    requires r.FdeRecord? && RecordFits(r, p, cies) && AllPlaced(m, cies)
    requires Stored(m, p, Sized(Body(r, p, cies))) && p + 4 + |Body(r, p, cies)| <= end
    ensures RecordPass(m, p, end)
            == if r.rest != [] then
                 Next([DataRange(r.pcBegin, r.pcRange)], AlignUp(p + 4 + |Body(r, p, cies)|))
               else Throw([DataRange(r.pcBegin, r.pcRange)], RecordOverrun)
  {
    hide Stored, LE, Load32, Load, LoadLE, FdeAt, Sized, Body, RecordFits, AlignUp, AllPlaced, RecordPass;
    var body := Body(r, p, cies);
    FdeHasOwner(r, p, cies);
    SizedFits(m, p, body);
    FdeReads(m, p, r, cies);
    FdePass(m, p, end, |body|, p + 4 - cies[r.owner].at, DataRange(r.pcBegin, r.pcRange), p + 4 + |body| - |r.rest|);
  }

  lemma RangesOne(r: Record)
    ensures Ranges([r]) == if r.FdeRecord? then [DataRange(r.pcBegin, r.pcRange)] else []
  {
    assert [r][1..] == [];
  }

  lemma FdeHasOwner(r: Record, p: Addr, cies: seq<Placed>)
    requires r.FdeRecord? && RecordFits(r, p, cies)
    ensures r.owner < |cies| && cies[r.owner].at <= p && p + 8 < ADDRESS_SPACE
  {
  }

  lemma CieBody(r: Record, p: Addr, cies: seq<Placed>)
    requires r.CieRecord? && RecordFits(r, p, cies)
    ensures Body(r, p, cies) == r.cie.Body()
  {
  }

  lemma CieIdReads(m: Memory, a: Addr, c: Cie)
    requires Stored(m, a, c.Body())
    ensures a + 4 < ADDRESS_SPACE && Load32(m, a) == Ok((0, a + 4))
  {
    var body := c.Body();
    StoredSplit(m, a, LE(0, 4), body[4..]) by { assert LE(0, 4) + body[4..] == body; }
    WordReads(m, a, 0);
  }

  lemma PlacedToo(m: Memory, p: Addr, r: Record, cies: seq<Placed>)
    requires RecordFits(r, p, cies) && AllPlaced(m, cies) && Stored(m, p, Sized(Body(r, p, cies)))
    ensures AllPlaced(m, Place(r, p, cies))
  {
  }

  /** Walking written records yields exactly their FDEs' ranges, in order, and goes on with what
      is behind them. */
  lemma {:induction false} WalkThen(m: Memory, p: Addr, end: Addr, rs: seq<Record>, cies: seq<Placed>, tail: seq<Byte>)
    requires p % 4 == 0 && SectionOk(rs, p, cies) && AllPlaced(m, cies)
    requires Stored(m, p, Section(rs, p, cies) + tail)
    requires end == p + |Section(rs, p, cies)| + |tail|
    ensures Stored(m, end - |tail|, tail) && (end - |tail|) % 4 == 0
    ensures Walk(m, p, end) == Prepend(Ranges(rs), Walk(m, end - |tail|, end))
    decreases |rs|
  {
    hide Stored, LE, Padded, RecordPass, RecordFits, AllPlaced, Ranges, Walk, Section, Prepend, Place, Body;
    if rs == [] {
      NothingLeft(p, cies, tail);
      NoRanges();
      NothingBefore(Walk(m, p, end));
      assert end - |tail| == p;
    } else {
      var next := NextAt(rs[0], p, cies);
      SectionSplit(m, p, rs, cies, tail);
      RecordReads(m, p, end, rs[0], cies);
      MultiplesAdd(p, next - p);
      WalkThen(m, next, end, rs[1..], Place(rs[0], p, cies), tail);
      WalkStep(m, p, end);
      RangesCons(rs);
      PrependTwice(Ranges([rs[0]]), Ranges(rs[1..]), Walk(m, end - |tail|, end));
    }
  }

  /** Walking a written section yields exactly its FDEs' ranges, in order, and no
      exception; it may end at its last record or at a zero length word. */
  lemma WalkReads(m: Memory, p: Addr, end: Addr, rs: seq<Record>, cies: seq<Placed>, tail: seq<Byte>)
    requires p % 4 == 0 && SectionOk(rs, p, cies) && AllPlaced(m, cies)
    requires Stored(m, p, Section(rs, p, cies) + tail)
    requires end == p + |Section(rs, p, cies)| + |tail|
    requires tail == [] || LE(0, 4) <= tail
    ensures Walk(m, p, end) == Yields(Ranges(rs), None)
  {
    hide Stored, LE, SectionOk, AllPlaced, Ranges, Walk, Section;
    WalkThen(m, p, end, rs, cies, tail);
    EndOfSection(m, end - |tail|, end, tail);
  }

  /** When a pass throws behind written records, their ranges and what it yielded come first. */
  lemma WalkThrows(m: Memory, p: Addr, end: Addr, rs: seq<Record>, cies: seq<Placed>, tail: seq<Byte>)
    requires p % 4 == 0 && SectionOk(rs, p, cies) && AllPlaced(m, cies)
    requires Stored(m, p, Section(rs, p, cies) + tail)
    requires end == p + |Section(rs, p, cies)| + |tail|
    requires RecordPass(m, end - |tail|, end).Throw?
    ensures var pass := RecordPass(m, end - |tail|, end);
            Walk(m, p, end) == Yields(Ranges(rs) + pass.yielded, Some(pass.error))
  {
    hide Stored, SectionOk, AllPlaced, Ranges, Section, RecordPass, Walk;
    WalkThen(m, p, end, rs, cies, tail);
    WalkUnfold(m, end - |tail|, end);
  }

  lemma WalkStep(m: Memory, p: Addr, end: Addr)
    requires RecordPass(m, p, end).Next?
    ensures Walk(m, p, end)
            == Prepend(RecordPass(m, p, end).yielded, Walk(m, RecordPass(m, p, end).address, end))
  {
  }

  lemma SectionSplit(m: Memory, p: Addr, rs: seq<Record>, cies: seq<Placed>, tail: seq<Byte>)
    requires rs != [] && SectionOk(rs, p, cies) && Stored(m, p, Section(rs, p, cies) + tail)
    ensures Stored(m, p, Padded(Body(rs[0], p, cies)))
    ensures Stored(m, NextAt(rs[0], p, cies), AfterFirst(rs, p, cies) + tail)
    ensures p + |Section(rs, p, cies)| == NextAt(rs[0], p, cies) + |AfterFirst(rs, p, cies)|
  {
    hide Stored, Padded, RecordFits, Body, AfterFirst;
    var bs := Padded(Body(rs[0], p, cies));
    AppendAssociates(bs, AfterFirst(rs, p, cies), tail);
    StoredSplit(m, p, bs, AfterFirst(rs, p, cies) + tail);
  }

  lemma MultiplesAdd(x: int, y: int)
    requires x % 4 == 0 && y % 4 == 0
    ensures (x + y) % 4 == 0
  {
  }

  lemma NothingLeft(p: int, cies: seq<Placed>, tail: seq<Byte>)
    ensures Section([], p, cies) == [] && Section([], p, cies) + tail == tail
  {
  }

  lemma NoRanges()
    ensures Ranges([]) == []
  {
  }

  lemma RangesCons(rs: seq<Record>)
    requires rs != []
    ensures Ranges(rs) == Ranges([rs[0]]) + Ranges(rs[1..])
  {
    assert [rs[0]][1..] == [];
  }

  lemma EndOfSection(m: Memory, p: Addr, end: Addr, tail: seq<Byte>)
    requires Stored(m, p, tail) && end == p + |tail| && (tail == [] || LE(0, 4) <= tail)
    ensures Walk(m, p, end) == Yields([], None)
  {
    if tail != [] {
      assert tail == LE(0, 4) + tail[4..];
      StoredSplit(m, p, LE(0, 4), tail[4..]);
      WordReads(m, p, 0);
    }
  }

  // --------------------------------------------------------- what can be printed where

  predicate WordFormat(format: int) { format in {ABSPTR, UDATA4, SDATA4} }

  /** The records are in order wherever they are put: every CIE is valid and gives its FDEs a
      pc-relative pointer of four bytes, every FDE has an earlier CIE and a byte to spare. */
  predicate WordRecords(rs: seq<Record>, owners: nat) {
    rs == [] ||
    match rs[0]
    case CieRecord(c) => c.Valid() && WordFormat(FdeFormat(c)) && WordRecords(rs[1..], owners + 1)
    case FdeRecord(owner, _, _, rest) => owner < owners && rest != [] && WordRecords(rs[1..], owners)
  }

  function RecordSize(r: Record): nat {
    var n := 4 + if r.CieRecord? then |r.cie.Body()| else 12 + |r.rest|;
    n + |Padding(n)|
  }

  function TotalSize(rs: seq<Record>): nat {
    if rs == [] then 0 else RecordSize(rs[0]) + TotalSize(rs[1..])
  }

  ghost predicate WordOwners(p: int, cies: seq<Placed>) {
    forall c :: c in cies ==> c.at <= p && WordFormat(FdeFormat(c.cie))
  }

  lemma WordRecordPrintable(r: Record, p: Addr, cies: seq<Placed>)
    requires WordOwners(p, cies) && p + 16 <= ADDRESS_SPACE
    requires if r.CieRecord? then r.cie.Valid() && WordFormat(FdeFormat(r.cie)) else r.owner < |cies| && r.rest != []
    ensures RecordOk(r, p, cies) && NextAt(r, p, cies) == p + RecordSize(r)
    ensures WordOwners(p + RecordSize(r), Place(r, p, cies))
  {
    hide Fits, Delta, LE, Padding;
    if r.FdeRecord? {
      var c := cies[r.owner];
      assert c in cies;
      DeltaFits(FdeFormat(c.cie), p + 8, r.pcBegin);
      assert |PcBeginBytes(r, p, cies)| == 4;
    }
  }

  /** Such records can be printed at any address from which they fit, however many there are. */
  lemma {:induction false} WordRecordsPrintable(rs: seq<Record>, p: int, cies: seq<Placed>)
    requires WordRecords(rs, |cies|) && WordOwners(p, cies) && 0 <= p && p + TotalSize(rs) <= UINT32_MAX
    ensures SectionOk(rs, p, cies) && |Section(rs, p, cies)| == TotalSize(rs)
    decreases |rs|
  {
    if rs != [] {
      hide RecordFits, WordOwners, RecordSize, Padded, Body;
      FitsBefore(rs, p, |cies|);
      WordRecordPrintable(rs[0], p, cies);
      WordRecordsPrintable(rs[1..], NextAt(rs[0], p, cies), Place(rs[0], p, cies));
    }
  }

  lemma FitsBefore(rs: seq<Record>, p: int, owners: nat)
    requires rs != [] && WordRecords(rs, owners) && 0 <= p && p + TotalSize(rs) <= UINT32_MAX
    ensures p + 16 <= p + RecordSize(rs[0]) < ADDRESS_SPACE
  {
  }

  /** `handle_eh_frame` recovers what was printed: exactly the FDEs' ranges, in order. */
  lemma RoundTrip(m: Memory, start: Addr, end: Addr, rs: seq<Record>, tail: seq<Byte>)
    requires start % 4 == 0 && SectionOk(rs, start, [])
    requires Stored(m, start, Section(rs, start, []) + tail)
    requires end == start + |Section(rs, start, [])| + |tail|
    requires tail == [] || LE(0, 4) <= tail
    ensures Walk(m, start, end) == Yields(Ranges(rs), None)
  {
    WalkReads(m, start, end, rs, [], tail);
  }
}
