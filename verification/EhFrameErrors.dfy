/** The exceptions and early ends of the `.eh_frame` walk, from the bytes that cause them. */
module EhFrameErrors {
  import opened Machine
  import opened DataViews
  import opened PointerEncoding
  import opened EhFrame
  import opened EhFramePrinter

  /** A CIE with an extended length, an id, or a version other than 1 is refused, in this order. */
  lemma CieRefused(m: Memory, a: Addr, length: Addr, id: Addr, version: Byte)
    requires Stored(m, a, LE(length, 4) + (LE(id, 4) + [version]))
    ensures CiePointerEncoding(m, a)
            == if length == UINT32_MAX then Err(ExtendedLength)
               else if id != 0 then Err(NotACie)
               else if version != 1 then Err(UnsupportedVersion)
               else CieFields(m, a + 9)
  {
    hide Stored, LE, Load32, CieFields;
    StoredSplit3(m, a, LE(length, 4), LE(id, 4), [version]);
    WordReads(m, a, length);
    WordReads(m, a + 4, id);
    StoredNotEmpty(m, a + 8, [version]);
  }

  /** Without a leading 'z' the FDE pointers are absolute, and no augmentation data is read. */
  lemma PlainCie(m: Memory, a: Addr, letters: string, code: seq<Byte>, data: seq<Byte>, register: Byte)
    requires Narrow(letters) && (letters == "" || letters[0] != 'z') && IsULEB(code) && IsSLEB(data)
    requires Stored(m, a, (Chars(letters) + [0]) + (code + (data + ([register] + []))))
    ensures CieFields(m, a) == Ok(0)
  {
    hide Stored, StringAt, UlebAt, SlebAt, IsULEB, IsSLEB;
    var stringBytes := Chars(letters) + [0];
    StoredSplit(m, a, stringBytes, code + (data + ([register] + [])));
    StringUndoesStore(m, a, letters);
    var at := AlignmentsRead(m, a + |stringBytes|, code, data, register, []);
  }

  /** Behind known letters, one that is not z, R, L or P throws. */
  lemma UnknownLetterThrows(m: Memory, a: Addr, augs: seq<Augmentation>, c: char, more: string, encoding: Byte)
    requires Stored(m, a, AugmentationData(augs)) && forall g :: g in augs ==> g.Valid()
    requires c !in {'z', 'R', 'L', 'P'}
    ensures Augmentations(m, a, Letters(augs) + ([c] + more), encoding) == Err(UnknownAugmentation)
  {
    hide Stored, Letters, AugmentationData, LastPointerEncoding;
    AugmentationsThen(m, a, augs, [c] + more, encoding);
  }

  /** Behind known letters, a personality that is omitted throws. */
  lemma OmittedPersonalityThrows(m: Memory, a: Addr, augs: seq<Augmentation>, more: string, encoding: Byte)
    requires Stored(m, a, AugmentationData(augs) + [OMIT]) && forall g :: g in augs ==> g.Valid()
    ensures Augmentations(m, a, Letters(augs) + ("P" + more), encoding) == Err(NoPersonality)
  {
    hide Stored, Letters, AugmentationData, LastPointerEncoding, FormatAt;
    StoredSplit(m, a, AugmentationData(augs), [OMIT]);
    AugmentationsThen(m, a, augs, "P" + more, encoding);
    StoredNotEmpty(m, a + |AugmentationData(augs)|, [OMIT]);
  }

  /** The encodings the reader does not accept, and what becomes of the omitted one. */
  lemma OtherEncodings(m: Memory, a: Addr, encoding: Byte)
    ensures encoding == OMIT ==> PointerAt(m, a, encoding) == Ok((None, a)) && RawAt(m, a, encoding) == Ok((None, a))
    ensures encoding != OMIT && !KnownFormat(encoding % 16) ==>
              PointerAt(m, a, encoding) == RawAt(m, a, encoding) == Err(UnknownFormat)
    ensures encoding != OMIT && FormatAt(m, a, encoding % 16).Ok? && encoding / 16 != 1 ==>
              PointerAt(m, a, encoding) == Err(UnknownApplication)
    ensures encoding != OMIT && FormatAt(m, a, encoding % 16).Err? ==>
              PointerAt(m, a, encoding) == Err(FormatAt(m, a, encoding % 16).error)
  {
    if encoding / 16 != 1 { assert encoding - encoding % 16 == 16 * (encoding / 16); }
  }

  /** Where a pass stops or throws before it looks at the record. */
  lemma RecordRefused(m: Memory, p: Addr, end: Addr, length: Addr)
    requires Stored(m, p, LE(length, 4))
    ensures p >= end || p + 4 >= end || length == 0 ==> RecordPass(m, p, end) == Stop
    ensures p + 4 < end && length == UINT32_MAX ==> RecordPass(m, p, end) == Throw([], ExtendedLength)
  {
    hide Stored, LE, Load32, RecordAt;
    WordReads(m, p, length);
  }

  /** An FDE throws as its CIE does; without a pointer to its begin it throws. */
  lemma FdeRefused(m: Memory, p: Addr, end: Addr, length: Addr, id: Addr)
    requires Stored(m, p, LE(length, 4) + LE(id, 4)) && p + 4 < end && 0 < length < UINT32_MAX && id != 0
    ensures var cie := CiePointerEncoding(m, (p + 4 - id) % ADDRESS_SPACE);
            && (cie.Err? ==> RecordPass(m, p, end) == Throw([], cie.error))
            && (cie.Ok? && cie.value == OMIT ==> RecordPass(m, p, end) == Throw([], NoPcBegin))
            && (cie.Ok? && PointerAt(m, p + 8, cie.value).Err? ==>
                  RecordPass(m, p, end) == Throw([], PointerAt(m, p + 8, cie.value).error))
  {
    hide Stored, LE, Load32, Load, LoadLE, Add32, Sub32, RecordPass, RecordAt, CiePointerEncoding, PointerAt, FdeAt;
    StoredSplit(m, p, LE(length, 4), LE(id, 4));
    WordReads(m, p, length);
    WordReads(m, p + 4, id);
    LengthRead(m, p, end, length);
    BackPointer(p + 8, id);
    FdeFails(m, p + 8, id);
    AtFde(m, p + 4, id, Add32(p + 4, length));
  }

  lemma BackPointer(a: Addr, id: Addr)
    requires a >= 4
    ensures Sub32(Sub32(a, id), 4) == (a - 4 - id) % ADDRESS_SPACE
  {
  }

  lemma FdeFails(m: Memory, a: Addr, id: Addr)
    ensures var cie := CiePointerEncoding(m, Sub32(Sub32(a, id), 4));
            && (cie.Err? ==> FdeAt(m, a, id) == Err(cie.error))
            && (cie.Ok? && cie.value == OMIT ==> FdeAt(m, a, id) == Err(NoPcBegin))
            && (cie.Ok? && PointerAt(m, a, cie.value).Err? ==> FdeAt(m, a, id) == Err(PointerAt(m, a, cie.value).error))
  {
    hide CiePointerEncoding, FormatAt, Load32;
  }

  lemma AtFde(m: Memory, idAt: Addr, id: Addr, nextRecord: Addr)
    requires idAt + 4 < ADDRESS_SPACE && Load32(m, idAt) == Ok((id, idAt + 4)) && id != 0
    ensures FdeAt(m, idAt + 4, id).Err? ==>
              RecordAt(m, idAt, nextRecord) == Throw([], FdeAt(m, idAt + 4, id).error)
  {
    hide Load32, FdeAt;
  }
}
