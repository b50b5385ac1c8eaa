# Verified model of the vtable scanner, the zone tracker and the offset resolver

The plugin finds C++ vtables in the loaded 32-bit ELF modules of a game process, from raw bytes
up to a table of vtables per module, and resolves named offsets through that table. Around that
pipeline it flattens networked property tables, runs one worker per module behind a wait group,
and mirrors the game's telemetry zones into a profiler. This project models those parts and
proves what they keep, for every memory content, every tree, every interleaving.

`dafny verify dfyconfig.toml` checks everything.

## How it is laid out

| file | models |
|---|---|
| `Machine.dfy`, `Bits.dfy` | 32-bit addresses, byte memory, little-endian words, bitwise operators |
| `Leb128.dfy`, `Leb128Properties.dfy` | the two LEB128 decoders (DWARF 4, section 7.6), their exactness, round trips |
| `DataViews.dfy`, `PointerEncoding.dfy` | the reading cursor and encoded pointers (LSB Core Generic 5.0, section 10.5.1) |
| `EhFrame.dfy`, `EhFramePrinter.dfy`, `EhFrameErrors.dfy`, `ModuleRanges.dfy` | the `.eh_frame` walk (LSB Core Generic 5.0, section 10.6.1), a printer and the round trip, its exceptions, all sections of a module |
| `RangeChecker.dfy` | the bitset standing for a union of intervals |
| `Rtti.dfy`, `Runs.dfy`, `VtableScan.dfy`, `CandidateProperties.dfy`, `ScanMeaning.dfy` | candidate search, run filter, chunker (Itanium C++ ABI, sections 2.5.2 and 2.9.5) |
| `Offsets.dfy` | the vtable table end to end, vtable offsets, masked signature search |
| `InitOffsets.dfy`, `Interleavings.dfy`, `Races.dfy` | the worker stage as interleaved steps, when interleavings agree, and when no two workers race |
| `Resolution.dfy` | module scans, interleaved workers and offset lookup taken together |
| `Telemetry.dfy`, `TelemetryProperties.dfy`, `TelemetryCalls.dfy` | the zone tracker as interleaved steps, and what one call does in a run |
| `ClientClasses.dfy` | flattening of property tables and the map built from it |

Code that changes state step by step is a method or a class with the same loops and branches, and
its `ensures` ties it to a function of the inputs or of the old state; the lemmas are about those
functions. A generator is the sequence it yields and the exception it ends with (`Yields`). An
exception is an `Err`. A read of an unmapped address is `Err(Fault)`, and a result that C++ leaves
undefined is marked `Undef` or `Err(Undefined)`.

## What memory is

Memory is a finite map from addresses to bytes in which address 0 and address 2^32 - 1 are never
mapped. That is the only assumption about it. It makes every multi-byte read stay within the
address space, and it is why the record walk needs no assumption about alignment not wrapping: a
walk that wraps reaches address 0 and faults there. Addresses and sizes otherwise wrap at 2^32
(`Add32`, `Sub32`), and the decoders' 64-bit shifts, ORs and conversions are written out.

## Main results

- `EhFramePrinter.RoundTrip`: any printed list of CIEs and FDEs at an aligned address is walked back
  to exactly the FDEs' ranges, in order, without an exception; `WordRecordsPrintable` says that every
  well-formed list with four-byte pc-relative pointers can be printed wherever it fits.
- `ModuleRanges.ModuleRoundTrip`: the same for all printed sections of a module, each walked from its
  begin to its end.
- `EhFrame.PassProgress`, with the termination of `Walk`: on arbitrary memory the walk ends.
- `Leb128Properties.UlebIsExact`, `Leb128Properties.SlebIsExact`: the overflow-checked loops return
  the mathematical value exactly when it is representable.
- `PointerEncoding.PcrelUndoesWrite`: pc-relative decoding inverts storing the difference, for every
  format that can hold it; `NarrowDeltaFits` says when a two-byte one can.
- `ScanMeaning.CandidatesExact`, `ScanMeaning.ModuleCandidatesExact`,
  `CandidateProperties.SectionOrderIrrelevant`: which addresses the two-pass search returns, in terms of
  sections, memory words, typeinfo symbols and FDE ranges, in whatever order sections come.
- `Offsets.FirstClaimInTable`, `Offsets.ModuleOffsetResolves`: through filter, chunker and
  first-insert-wins table, a name leads to exactly the first chunk, in address order, of a typeinfo that
  has the name and is followed by a survivor of another typeinfo, and to nothing if there is none (the
  last chunk is never flushed). That chunk has the whole first run of the typeinfo's vftables as a
  prefix, extended by the survivors right behind it that carry the same typeinfo; `FirstRunAlone` says
  when there are none, `LaterVftableCanJoin` that there can be.
- `Races.DefinedExactlyWhenApart`: no run of the worker stage has a data race, and every run that passes
  the wait has the sequential outcome, if and only if modules that share a base name are kept apart:
  none of them has ranges and at most one has vtables. Unique base names are the ordinary case
  (`WaitReturnsSequentialOutcome`). Taking every access to a shared container as one step,
  `Interleavings.AgreesExactlyWhenCommuting` says when the outcomes agree, but `CommutingCanRace`: such
  modules can still race, which C++ leaves undefined.
- `InitOffsets.RunsProgress`: whatever the names, a run that has not passed the wait can go on, and no
  schedule is longer than the work there is.
- `Resolution.EveryRunResolves`, `Resolution.EveryRunReadsTheSlot`: in every interleaving, an offset
  looked up after the wait is resolved through the scan of its own module; from the bytes, it is the
  word stored at its slot of its vftable, if its class's typeinfo holds its name.
- `TelemetryCalls.EnterInRun`, `TelemetryCalls.LeaveInRun`: what one enter and one leave do, whatever
  other threads and ticks do between their level check and their rest.
- `TelemetryProperties.EveryTraceIsBracketed`, `TelemetryProperties.OpenZonesShareObservedState`,
  `TelemetryProperties.EveryContextEndsOnce`: bracketing and level agreement in every run, and, when the
  profiler library hands out no context twice, each context ended at most once, by the thread that
  began it, and exactly once when that thread has exited.
- `ClientClasses.ParseTbl`, `ClientClasses.LastSiteWins`, `ClientClasses.MissingExactly`: one entry per
  root-to-leaf path, depth first, and which of them the built map answers with.

## Model

| member | source | states |
|---|---|---|
| Machine.LoadUndoesStore | src/util/data_view.hpp:42-48 | Reading a word of any width where its little-endian bytes were stored gives the number back and moves past it. |
| Leb128.DecodeULEB128 | src/util/leb128.hpp:14-45 | The shift-and-add loop returns value, byte count and error of the arithmetic scan `Uleb`, on any memory and end pointer; once the 32-bit shift counter has wrapped around, those of the loop itself. |
| Leb128.DecodeSLEB128 | src/util/leb128.hpp:48-86 | The shift-and-OR loop with its sign extension returns value, byte count and error of the arithmetic scan `Sleb`, with the same provision for a wrapped counter. |
| Leb128.OverflowCheck | src/util/leb128.hpp:32-39 | Shifting a slice left and back loses bits exactly when the running total no longer fits 64 bits; otherwise the 64-bit addition is the exact one. |
| Leb128.OrGroup | src/util/leb128.hpp:68-76 | In every position the signed loop reaches, ORing in the shifted slice adds it, the tenth group's sign included. |
| Leb128.FinalValue | src/util/leb128.hpp:80-82 | ORing in the ones above the last group subtracts 2^(7n) exactly for a set sign bit. |
| Leb128Properties.UlebIsExact | src/util/leb128.hpp:14-45 | For every terminated byte string, overlong ones included: its sum and length when below 2^64, else an error, value 0, and the count of bytes before the first at which the partial sum reaches 2^64. |
| Leb128Properties.SlebIsExact | src/util/leb128.hpp:48-86 | For every terminated byte string: its two's-complement value and length if that is a 64-bit number, else an error that counts the bytes before the first group that is no copy of the sign; past ten bytes the answer may instead be that C++ leaves it undefined. |
| Leb128Properties.UlebCutOff | src/util/leb128.hpp:24-30 | A byte string that goes on past the end pointer is an error with value 0 that counts its bytes. |
| Leb128Properties.SlebCutOff | src/util/leb128.hpp:59-65 | The same for the signed decoder. |
| Leb128Properties.UlebUndoesEncoding | src/util/leb128.hpp:14-45 | Every unsigned 64-bit number is decoded from its canonical encoding, at most 10 bytes, whatever follows. |
| Leb128Properties.SlebUndoesEncoding | src/util/leb128.hpp:48-86 | Every signed 64-bit number is decoded from its canonical encoding, at most 10 bytes, whatever follows. |
| DataViews.DataView.constructor | src/util/data_view.hpp:40 | The cursor starts at the given address. |
| DataViews.DataView.ReadUnsigned | src/util/data_view.hpp:42-48 | Little-endian value of the next bytes; the cursor moves past them, or stays when the read faults. |
| DataViews.DataView.ReadWord | src/util/data_view.hpp:42-48 | The same for four bytes, an address. |
| DataViews.DataView.ReadSigned | src/util/data_view.hpp:42-48 | The same in two's complement. |
| DataViews.DataView.ReadString | src/util/data_view.hpp:50-55 | The bytes up to the next NUL; the cursor moves past the NUL. |
| DataViews.DataView.ReadUleb128 | src/util/data_view.hpp:57-69 | The decoded value with no end pointer; the cursor moves by exactly the decoder's count, and a decoder error is thrown with the cursor in place. |
| DataViews.DataView.ReadSleb128 | src/util/data_view.hpp:71-83 | The same, signed. |
| DataViews.DataView.ReadDwarfEncodedNoApplication | src/util/data_view.hpp:85-142 | Nothing for the omit encoding; otherwise one of nine formats by the low four bits, or an unknown-format error. |
| DataViews.DataView.ReadDwarfEncoded | src/util/data_view.hpp:144-171 | The address of the field plus the value, modulo 2^32, for pcrel; an error for every other application, with the cursor already past the value. |
| DataViews.FormatBound | src/util/data_view.hpp:92-141 | Whatever the memory holds, a decoded value lies in [-2^63, 2^64), so the 128-bit sum cannot overflow. |
| DataViews.WideTruncation | src/util/data_view.hpp:152-167 | Going through an unsigned 128-bit number does not change the address modulo 2^32, negative sums included. |
| PointerEncoding.ReadUndoesWrite | src/util/data_view.hpp:85-142 | In each of the nine formats, reading a field gives back any number it can hold and ends behind its bytes. |
| PointerEncoding.PcrelReads | src/util/data_view.hpp:144-171 | For every format pc-relative decoding yields (field address + decoded value) mod 2^32. |
| PointerEncoding.PcrelUndoesWrite | src/util/data_view.hpp:144-171 | Decoding a stored difference yields the target, for every field address, target and format that can hold the difference. |
| PointerEncoding.DeltaFits | src/util/data_view.hpp:92-132 | Every format of at least four bytes can hold every difference. |
| PointerEncoding.NarrowDeltaFits | src/util/data_view.hpp:104-124 | A two-byte format can hold it if and only if some number it can hold reaches the target modulo 2^32. |
| EhFrame.HandleCie | src/offsets/eh_frame.cpp:11-83 | Follows the CIE's fields and returns the FDE pointer encoding, or the first of its exceptions, as `CiePointerEncoding` says. |
| EhFrame.ReadCieFields | src/offsets/eh_frame.cpp:34-82 | The fields from the augmentation string on; without a leading 'z' the encoding is 0. |
| EhFrame.ReadAugmentations | src/offsets/eh_frame.cpp:50-79 | The letter loop equals reading letter by letter from the cursor. |
| EhFrame.HandleRecord | src/offsets/eh_frame.cpp:90-149 | One pass stops, throws (after possibly yielding a range) or moves to the aligned next record, as `RecordPass` says. |
| EhFrame.ReadFde | src/offsets/eh_frame.cpp:120-133 | The range of an FDE through its CIE's encoding, PC Range always four bytes. |
| EhFrame.Align | src/offsets/eh_frame.cpp:148-149 | The byte-by-byte loop reaches the next multiple of 4, modulo 2^32. |
| EhFrame.HandleEhFrame | src/offsets/eh_frame.cpp:85-151 | The record loop yields exactly the ranges of `Walk`, and ends with its exception, if any. |
| EhFrame.GetEhFrameRanges | src/offsets/eh_frame.cpp:153-168 | All `.eh_frame` sections in order, up to the first exception. |
| EhFrameErrors.CieRefused | src/offsets/eh_frame.cpp:14-32 | From the bytes: an extended length, an id other than 0 and a version other than 1 throw, in this order. |
| EhFrameErrors.PlainCie | src/offsets/eh_frame.cpp:34-45 | Without a leading 'z' the encoding is 0 and no augmentation data is read. |
| EhFrameErrors.UnknownLetterThrows | src/offsets/eh_frame.cpp:74-77 | Behind any known letters and their data, any other letter throws. |
| EhFrameErrors.OmittedPersonalityThrows | src/offsets/eh_frame.cpp:66-72 | Behind any known letters and their data, an omitted personality throws. |
| EhFrameErrors.OtherEncodings | src/util/data_view.hpp:87-169 | The omitted encoding reads nothing, an unknown format throws, and any application but pcrel throws. |
| EhFrameErrors.RecordRefused | src/offsets/eh_frame.cpp:89-105 | A pass stops at the end, behind its length word at the end, and at a zero length; an extended length throws. |
| EhFrameErrors.FdeRefused | src/offsets/eh_frame.cpp:120-133 | An FDE throws as the CIE its id points back to does, when the begin is omitted, and when it cannot be read. |
| EhFrame.PassProgress | src/offsets/eh_frame.cpp:89-150 | On arbitrary memory a pass that goes on moves strictly forward to a 4-aligned address, or wraps to 0 exactly when the record's end rounds up to 2^32. |
| EhFramePrinter.AugmentationsRead | src/offsets/eh_frame.cpp:50-79 | For letters z, R, L, P in any order and number, the last R's byte results and the cursor ends behind all their data. |
| EhFramePrinter.CieReads | src/offsets/eh_frame.cpp:11-83 | For any printed version 1 CIE the byte in the last R position is returned, 0 if there is none, whatever the widths of the alignment factors, the augmentation length and personality values. |
| EhFramePrinter.RecordReads | src/offsets/eh_frame.cpp:89-149 | One pass over a printed record yields its range and stops at the next printed record. |
| EhFramePrinter.SpareByteNeeded | src/offsets/eh_frame.cpp:133-144 | A written FDE is passed over if and only if it keeps a byte that is not read; otherwise its range is yielded and then the walk throws. |
| EhFramePrinter.WalkThrows | src/offsets/eh_frame.cpp:89-151 | When a pass throws behind printed records, their ranges and what that pass yielded come first, then the exception. |
| EhFramePrinter.WalkReads | src/offsets/eh_frame.cpp:89-151 | The same for any list of records after any CIEs already placed, by the section's end or at a zero length word. |
| EhFramePrinter.WordRecordsPrintable | src/offsets/eh_frame.cpp:85-151 | Any list of valid CIEs with pc-relative four-byte pointers and FDEs after their CIEs, each with a byte to spare, can be printed from any address where its total size fits, so the round trip covers all of them. |
| EhFramePrinter.RoundTrip | src/offsets/eh_frame.cpp:85-151 | Walking a printed section yields exactly its FDEs' (pc begin, pc range) pairs, in order, and no exception. |
| ModuleRanges.ModuleRoundTrip | src/offsets/eh_frame.cpp:153-168 | Printed sections stored at their begins, each as long as printed, yield the concatenation of their FDEs' ranges in section order and no exception. |
| ModuleRanges.FirstExceptionStops | src/offsets/eh_frame.cpp:153-168 | The first section whose walk, from its begin to its end modulo 2^32, throws ends everything, behind what came before. |
| RangeChecker.DataRangeChecker.constructor | src/util/data_range_checker.hpp:25-29 | A new checker marks nothing. |
| RangeChecker.DataRangeChecker.AddRange | src/util/data_range_checker.hpp:31-35 | Marks exactly the interval's addresses besides the old ones; throws if and only if one has no bit, keeping those before it. |
| RangeChecker.DataRangeChecker.IsPositionInRange | src/util/data_range_checker.hpp:37-39 | Whether the address is marked; throws past the window. |
| ScanMeaning.WindowIs | src/util/data_range_checker.hpp:10 | The window is the 150 MiB from the base address on, modulo 2^32. |
| RangeChecker.AddRanges | src/offsets/rtti.cpp:185-190 | After any sequence of additions within the window, an address is marked if and only if some added interval contains it. |
| RangeChecker.OrderIrrelevant | src/util/data_range_checker.hpp:31-39 | Membership depends on which intervals were added, not on their order or repetition. |
| Rtti.GetTypeinfoSize | src/offsets/rtti.cpp:88-111 | 8, 12 or 16 + 8 * base count modulo 2^32 by the vtable symbol's suffix; an unknown address or suffix throws. |
| ScanMeaning.TypeinfoExtent | src/offsets/rtti.cpp:88-111 | From the symbol's ending and the stored base count: 8, 12, or 16 and 8 for each base, modulo 2^32. |
| ScanMeaning.NoTypeinfoExtent | src/offsets/rtti.cpp:89-108 | An address without a symbol, and any other symbol, throws. |
| Rtti.ScanOne | src/offsets/rtti.cpp:129-139 | One word of the search: recorded, with its typeinfo's extent marked, exactly when it is outside all functions and names a typeinfo. |
| Rtti.ScanSection | src/offsets/rtti.cpp:127-140 | Every fourth address of the section in turn, up to the first exception. |
| Rtti.LocateCandidates | src/offsets/rtti.cpp:117-153 | Both passes, the transformation and the sort give `Candidates`, for function ranges held in a bitset. |
| CandidateProperties.ScanSucceeds | src/offsets/rtti.cpp:126-141 | The search throws if and only if it does so at some scanned word. |
| ScanMeaning.ScannedExact | src/offsets/rtti.cpp:126-128 | The words looked at are exactly those a whole number of words from a section's begin and before its end, each as often as sections hold it. |
| ScanMeaning.CandidatesExact | src/offsets/rtti.cpp:117-153 | The result is ascending and holds exactly a + 4 for words a of sections that lie outside all functions, name a typeinfo, and lie outside every typeinfo so named, as often as sections hold a. |
| ScanMeaning.SearchThrowsExactly | src/offsets/rtti.cpp:126-141 | The search throws if and only if some word of a section cannot be read, is past the window, or names a typeinfo of unknown size or past the window. |
| ScanMeaning.ModuleCandidatesExact | src/offsets/rtti.cpp:180-206 | A module's candidates are those of its sections, with its FDEs' ranges as functions and its typeinfo relocations as known typeinfos. |
| ScanMeaning.ModuleThrowsExactly | src/offsets/rtti.cpp:185-206 | It throws for a function range past the window, else as its `.eh_frame` walk does, else if some word stops the search. |
| CandidateProperties.SectionOrderIrrelevant | src/offsets/rtti.cpp:126-153 | Permuting the sections changes neither whether the search throws nor its result. |
| CandidateProperties.DisjointSectionsAscendStrictly | src/offsets/rtti.cpp:126-153 | With disjoint sections no candidate appears twice. |
| VtableScan.FilterRuns | src/offsets/rtti.cpp:155-177 | The loop over the previous and the seen typeinfos keeps exactly the candidates `Kept` describes. |
| Runs.FilteredExact | src/offsets/rtti.cpp:158-177 | The survivors are exactly the candidates but those whose typeinfo differs from their immediate predecessor's and occurred before, each once and in order. |
| Runs.FirstRunSurvives | src/offsets/rtti.cpp:162-176 | Each typeinfo's first maximal run passes the filter whole. |
| VtableScan.TypeinfoReads | src/offsets/rtti.cpp:113-115 | From the bytes: a vftable's typeinfo is the word stored before it. |
| VtableScan.NameReads | src/offsets/rtti.cpp:211-213 | From the bytes: a chunk's name is the NUL-terminated string that the typeinfo's second word points to. |
| Offsets.EmitStops | src/offsets/rtti.cpp:209-213 | Chunks are yielded named and in order up to the first whose name cannot be read. |
| Offsets.YieldsExactly | src/offsets/rtti.cpp:180-221 | A module yields nothing but the exception if its scan throws, and all its chunks if and only if every name can be read. |
| VtableScan.BuildChunks | src/offsets/rtti.cpp:203-220 | The chunk loop yields, named, all maximal runs but the last, up to the first name that cannot be read. |
| Runs.RunsPartition | src/offsets/rtti.cpp:205-220 | The runs are nonempty, of one typeinfo each, neighbours differ, and together they are the entries. |
| Runs.ChunksPartition | src/offsets/rtti.cpp:205-220 | The yielded chunks together are the entries minus their last run of equal typeinfo. |
| VtableScan.CollectTypeinfoRelocs | src/offsets/rtti.cpp:192-201 | The insertion loop builds `TypeinfoRelocs`. |
| VtableScan.TypeinfoRelocsFirst | src/offsets/rtti.cpp:192-201 | The map holds at each address the symbol of the first typeinfo relocation there, and nothing else. |
| VtableScan.GetVtablesFromModule | src/offsets/rtti.cpp:180-221 | From a loaded module's bytes to its yielded vtables, with the exceptions of each stage in their order. |
| VtableScan.CandidatesHaveTypeinfo | src/offsets/rtti.cpp:113-115 | The word before every candidate can be read. |
| Runs.FirstInsertWins | src/offsets/offsets.cpp:153-157 | Inserting yielded vtables keeps, under each name, the value that was there or the first one inserted. |
| Offsets.SplitAtFirstRun | src/offsets/rtti.cpp:155-220 | At a typeinfo's first run the surviving entries split into earlier runs of other typeinfos, then it, extended by the survivors right behind it of the same typeinfo; that run is the last one if and only if nothing of another typeinfo survives later. |
| Offsets.FirstClaimInTable | src/offsets/offsets.cpp:153-157 | End to end, whatever names coincide: a name is in the table if and only if some flushed first run's typeinfo has it, and its entry is exactly the chunk of the first such run in address order. |
| Offsets.FirstRunInTable | src/offsets/offsets.cpp:153-157 | With distinct names, the table's entry is exactly the first chunk (first run and the same-type survivors right behind it) if it is flushed, and there is none under that name otherwise. |
| Offsets.StoredNameInTable | src/offsets/offsets.cpp:153-157 | From the bytes: the flushed first chunk of a typeinfo that holds a name is yielded under exactly that name, and is the table's entry unless an earlier run claimed it. |
| Offsets.FirstRunAlone | src/offsets/rtti.cpp:162-220 | The entry is the first run alone if and only if the next survivor carries another typeinfo. |
| Offsets.LaterVftableCanJoin | src/offsets/rtti.cpp:162-220 | Typeinfos 2, 1, 2, 1, 1, 3: the filter lets a vftable of a later run join the first run's chunk. |
| Offsets.VtableOffsetResolves | src/offsets/offsets.cpp:41-47 | An offset reads its slot, kept modulo 2^16, from the k-th vftable of the class's first chunk, which inside the first run is the run's k-th; past the chunk it is out of range, and a word stored at that slot is the result. |
| Offsets.SlotReads | src/offsets/offsets.cpp:46 | From the bytes: slot n of a vftable is the word stored 4n bytes behind it. |
| Offsets.VtableKeyParts | src/offsets/offsets.cpp:45 | The key is the decimal digits of the name's length, without leading zeros, then the name. |
| Offsets.UnclaimedIsOutOfRange | src/offsets/offsets.cpp:44-45 | A module that was not scanned, or a class no flushed first run claims, is out of range. |
| Offsets.ModuleOffsetResolves | src/offsets/offsets.cpp:41-47 | The same from a loaded module's sorted candidates through scan and table. |
| Offsets.FindSignature | src/offsets/offsets.cpp:64-84 | The least position at which every byte agrees on all mask bits; an error if and only if there is none. |
| Bits.AndAgrees | src/offsets/offsets.cpp:75-78 | Equal masked bytes means agreement on exactly the mask's bits. |
| Offsets.LooserMaskHitsEarlier | src/offsets/offsets.cpp:73-81 | Clearing mask bits never loses a hit and never moves it later. |
| InitOffsets.EveryRunKeepsShape | src/offsets/offsets.cpp:130-168 | In every interleaving, whatever the names, the wait count is the number of unfinished tasks, slots exist for exactly the modules the main thread has got to, and the first module of a name keeps its range. |
| InitOffsets.RunsProgress | src/offsets/offsets.cpp:130-168 | A run that has not passed the wait can go on, and the length of any schedule plus the steps still left is at most the work at the start. |
| Interleavings.SequentialMeaning | src/offsets/offsets.cpp:131-157 | With unique names, one-by-one processing leaves each module's range, all its ranges in order, and the first of its vtables under each name. |
| Interleavings.FirstRangeKept | src/offsets/offsets.cpp:133 | Of modules of one base name the first one's range is kept. |
| Interleavings.EveryWorkerOwnsItsSlots | src/offsets/offsets.cpp:135-157 | With unique names each slot always holds exactly its own worker's progress. |
| Interleavings.WaitReturnsSequentialOutcome | src/offsets/offsets.cpp:128-172 | When `wait` returns, before any address is cached, all ranges and vtables equal those of processing the modules one after another. |
| Races.DefinedExactlyWhenApart | src/offsets/offsets.cpp:135-168 | For all modules: no reachable state has two workers about to touch one container with one of them writing, and every run that passes the wait has the sequential outcome, if and only if of any two modules of one base name neither has ranges and one has no vtables. |
| Races.SharedContainerRaces | src/offsets/offsets.cpp:135-157 | Any other two modules of one name have a run in which their workers race on the ranges or on the table. |
| Races.UniqueNamesNeverRace | src/offsets/offsets.cpp:135-157 | With unique base names no run has a race. |
| Races.CommutingCanRace | src/offsets/offsets.cpp:153-157 | Two modules of one name with a vtable each under different names: every order of steps agrees, yet the insertions race. |
| Interleavings.RangesCanDiffer | src/offsets/offsets.cpp:131-151 | Even with accesses one at a time, two modules of one name whose ranges do not commute have two complete runs that end with different ranges. |
| Interleavings.TablesCanDiffer | src/offsets/offsets.cpp:131-157 | Even with accesses one at a time, two modules of one name whose tables differ at a common name have two complete runs that end with different tables. |
| Interleavings.SharedNameCanDisagree | src/offsets/offsets.cpp:131-136 | Two modules of one base name with a different range each: some run ends with other ranges than sequential processing. |
| Resolution.SlotsHoldTheScan | src/offsets/offsets.cpp:135-157 | After the wait a module's slots hold the ranges and the table its own scan yields. |
| Resolution.EveryRunResolves | src/offsets/offsets.cpp:168-172 | In every interleaving an offset looked up after the wait resolves through its module's own candidates, or is out of range past the class's chunk. |
| Resolution.EveryRunReadsTheSlot | src/offsets/offsets.cpp:41-47 | From the bytes: with distinct names, an offset to a vftable of a class's flushed first run resolves in every interleaving to the word stored at its slot, if the class's typeinfo holds its name. |
| Telemetry.ContextStack.constructor | src/modules/profiler.cpp:41 | A new stack is empty. |
| Telemetry.ContextStack.PushZone | src/modules/profiler.cpp:44-54 | Emits the zone's begin and puts it on top. |
| Telemetry.ContextStack.PopZone | src/modules/profiler.cpp:56-63 | Nothing on an empty stack; otherwise emits the top zone's end and removes it. |
| Telemetry.ContextStack.ClearZones | src/modules/profiler.cpp:65-68 | Ends all open zones, innermost first. |
| Telemetry.ThreadState.constructor | src/modules/profiler.cpp:82-85 | A thread starts with no zones and the zero state observed. |
| Telemetry.ThreadState.CheckLevelState | src/modules/profiler.cpp:100-109 | Reports a change if and only if the global state differs from the last observed one, takes it over and closes everything. |
| Telemetry.ThreadState.TmCoreEnter | src/modules/profiler.cpp:131-153 | A changed state swallows the enter; a name starting with "Wait" opens nothing; else one zone is opened. |
| Telemetry.ThreadState.TmCoreLeave | src/modules/profiler.cpp:155-164 | A changed state swallows the leave; else the top zone, if any, ends. |
| Telemetry.TelemetryTick | src/modules/profiler.cpp:183-206 | On a change installs the replacement at the level only, or everywhere, and publishes the new state; otherwise changes nothing. A level past the 32 contexts is undefined. |
| TelemetryCalls.EnterInRun | src/modules/profiler.cpp:131-153 | In every run, an enter whose check finds the state unchanged opens exactly one zone under that state, or nothing for a "Wait" name, whatever comes between check and rest, and touches no other thread. |
| TelemetryCalls.LeaveInRun | src/modules/profiler.cpp:155-164 | In every run, a leave whose check finds the state unchanged emits exactly the end of the innermost zone and removes it, or changes nothing on an empty stack, whatever comes between. |
| TelemetryCalls.SwallowedInRun | src/modules/profiler.cpp:100-109 | A call whose check finds the state changed is over and has closed everything, as the methods do. |
| TelemetryCalls.CallsAreDetermined | src/modules/profiler.cpp:131-164 | What an enter or leave leaves behind is determined, so the calls in a run and the methods agree. |
| TelemetryCalls.ExitEndsAll | src/modules/profiler.cpp:42 | A thread that exits ends its open zones, innermost first. |
| TelemetryCalls.TickInRun | src/modules/profiler.cpp:203-204 | A tick publishes its state to all checks until the next tick and touches no thread. |
| TelemetryProperties.EveryRunKeepsInv | src/modules/profiler.cpp:100-164 | In every interleaving each thread's trace reads back as its stack and last observed state. |
| TelemetryProperties.EveryTraceIsBracketed | src/modules/profiler.cpp:39-72 | Each thread's zone events are a prefix of a well-bracketed word whose open zones are its stack, fully bracketed after the thread exits, unmatched leaves and skipped enters included. |
| TelemetryProperties.OpenZonesShareObservedState | src/modules/profiler.cpp:100-163 | Every open zone was opened under the thread's last observed state, even when a tick lands between check and push, and all along the trace a state was in force for every zone begun under it. |
| TelemetryProperties.ChangeSwallowsEvent | src/modules/profiler.cpp:100-161 | An enter or leave that finds the state changed emits exactly the ends of the open zones in reverse order, and no zone of its own. |
| TelemetryProperties.EveryContextEndsOnce | src/modules/profiler.cpp:44-68 | Over all threads, if no context is supplied twice: each begun context is ended at most once, only by the thread that began it and after its begin, and exactly once when that thread has exited. |
| ClientClasses.ParseTbl | src/offsets/clientclasses.cpp:20-44 | The recursive traversal yields one entry per root-to-leaf path: entered table names and leaf name joined by "::", the sum of the offsets, the leaf's type. |
| ClientClasses.AllLeafPathsExact | src/offsets/clientclasses.cpp:20-44 | The paths listed are exactly the root-to-leaf paths, each once, in depth-first order. |
| ClientClasses.LeafEntry | src/offsets/clientclasses.cpp:39-42 | A leaf contributes its own name, offset and type. |
| ClientClasses.EnterSubTable | src/offsets/clientclasses.cpp:31-37 | Prefixing a path adds the entered table's name in front and the property's own offset. |
| ClientClasses.ClientClassManager.constructor | src/offsets/clientclasses.cpp:46-60 | The built map holds, for each class and name, the value of the last path with that key, and nothing else. |
| ClientClasses.ClientClassManager.GetPropOffset | src/offsets/clientclasses.hpp:32-35 | The offset stored for class and name; out of range if either key is missing. |
| ClientClasses.LastSiteWins | src/offsets/clientclasses.cpp:50-58 | Over all classes in list order and paths in depth-first order, the last site of a key decides what the map answers, even across classes of one name. |
| ClientClasses.MissingExactly | src/offsets/clientclasses.hpp:32-35 | A lookup fails if and only if no leaf of any class of that name has that name. |

## Left out

- Leb128Properties.SlebIsExact: an encoding of more than ten bytes can make the decoder shift a nonzero slice by 64 or more, for which C++ gives no result; the model answers `Undef` there and promises nothing about it.
- Leb128Properties.UlebIsExact: and its signed counterpart are stated for byte strings on which the 32-bit shift counter does not wrap around (613 million bytes). The decoders themselves are modelled beyond that too; a zero slice shifted by 64 or more is read as 0.
- EhFramePrinter.RoundTrip: prints what the code accepts, version 1 CIEs with a leading 'z' and R, L, P, pc-relative FDE pointers in any format that can hold the difference, a four-byte PC Range and at least one unread byte per FDE; personality values are not printed with the omit or the aligned encoding, whose padding the code does not skip.
- EhFrame.ReadCieFields: an empty augmentation string is read as not starting with 'z'; the code compares the NUL behind it.
- Extended 64-bit lengths and other augmentations: the code throws on them, and so does the model; their contents are not modelled.
- ELF files, their relocation and symbol accessors, and the addresses they relocate to: section ranges, `.eh_frame` ranges and relocations are inputs.
- The end address computed for a module (src/offsets/offsets.cpp:110-114): module ranges are inputs and nothing rests on them.
- `dl_iterate_phdr`, `dlopen`, `dlsym`, and the offset kinds that only look up a base address, a symbol or a constant.
- Offsets.FindSignature: takes the module's bytes and start address; finding the module by name and decoding the hexadecimal signature text are not part of this model.
- Interleavings.AgreesExactlyWhenCommuting: and the other lemmas about modules that share a name take each access to a shared container as one step; where accesses race C++ gives no outcome, and `Races.DefinedExactlyWhenApart` says where.
- Interleavings.WaitReturnsSequentialOutcome: each worker is what it produces without an exception; what the scheduler library does with one that escapes a worker is not part of this model. The iteration order of the hash map of modules is arbitrary (any order is a list of modules).
- Coroutine laziness: a generator's consumer sees the yielded items and then the exception, which is all the code here relies on.
- Formatting of names, message and dynamic-string hooks and the second zone stack of the profiler module are left out.
- Property offsets are unbounded integers; overflow of the pointer-sized sum is undefined in C++. Writing the table to a file is left out.
- Hooks, game modules, overlays, interfaces, memory mapping and logging.
