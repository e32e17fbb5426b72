# Verified model of the signer, the mirror pipeline and their helpers

This project models the parts of the repository that edit, sign and rebuild Mach-O files, the server
and the formats of the screen mirror, and three smaller cores: the Base64 codec, the batch file move and
the continuations of the refresh handler. It proves what those parts promise.

A mapped file is a sequence of bytes; every store into it is one `Splice`. Objects whose methods
update fields are classes here as well (`ZArchO`, `ZMachO`, the mirror `Client` and `Server`, the
`FileSystem`, the refresh `Handler`); their methods are proved against functions on values, and the
theorems are about those functions and about runs of the state machines. Hash functions, the plist reader
and the CMS signer are arguments.

Main results:

- **Whole-file signing.** `ZMachO.Sign` always ends, recursing at most once. On a file whose earlier signatures
  can be read and whose lengths stay in 32-bit range (see "Left out"), it succeeds exactly when every slice has
  room for its signature; or when no reallocation was made before, *every* slice can be lengthened,
  and the bytes each signature then needs besides its page hashes fit what lengthening leaves beside them.
  That is more than 16384 bytes, so with signatures that need no more the second pass never lacks room; with
  longer ones it can, and then signing fails for good. A slice that is long enough already cannot be
  lengthened, so one such slice beside one without room makes signing fail.
- **Stale hashes.** A reallocation always changes load commands, which are part of the hashed code, and an
  unforced signature takes over page hashes stored before. Where those were right before, and the hashes tell
  the changed pages apart, the signature is the one the code calls for exactly when it is forced, has no
  directories, or found nothing to take over. After a successful unforced signing that reallocated, every slice
  the first pass had signed with two directories is stale, and so is every other slice that stored usable page
  hashes.
- **The gap before `__text`.** One injection never reaches the section; two injections that are both let
  through, and a signature command added by a reallocation, can, and it is said exactly when.
- **What a signature says.** Every slice of a successfully signed file carries a signature that a verifier, going
  through its index, reads as speaking of that very slice: directories over its code with the right fields and
  flags, whose special slots are the hashes of the blobs found under the same numbers; the entitlement text and the
  DER that decodes to its value exactly when the encoder is faithful to it; a requirement for the identifier and
  the certificate's subject; and the CMS blob over the directories stored. Reuse of stored hashes equals rehashing
  exactly when they are the page hashes.
- **Growing a slice** changes, of all its commands, two sizes of one segment and one signature command, by amounts
  that are said exactly.
- **Load-command edits.** Both removers refine one filter, and leave the same bytes exactly when full paths and
  last components pick the same commands; injecting and removing undo each other exactly when the gap was zero.
- **DER.** Round trip exactly for values without integers other than 1 and without keys of 128 bytes or more.
- **Mirror server.** Under every interleaving it is said exactly who is attached and which clients a packet is given
  to; no client gets one before its parameter sets, and the in-flight counter is the pending sum, bounded by 4 MiB
  and one packet.
- **Batch move.** A batch that passes the preflight fails first at the first move whose source or destination
  lies below an earlier source. A batch that goes through leaves the simultaneous renaming exactly when no
  source lies above the destination of an earlier move; it goes through in every order exactly when no source
  lies above another move's source or destination.
- **Continuations** are resumed at most once, with success exactly when success is reported while they wait, and
  lost exactly by an interruption during a launch or by an overwrite.

Where the code does something else than its names or comments say, the model follows the code:

- Shared/MirrorServer.swift:201 says config packets always go out. One for a client that is primed and over
  the limit does not.
- The batch move is called atomic. A passed preflight does not rule out a failure half-way, and the moves made
  by then stay.
- `ByteAlign` lengthens an already aligned value by a full unit, and so do the paddings of a rebuilt file.
- A universal file with a single slice is a thin file after a reallocation.
- A zero free-space counter means that nothing is known, and lets every injection through; a positive one is
  not lowered by an injection.
- A new signature command of 16 bytes is let through with 4 bytes of free space.
- The removal script's re-export constant is not the one of the file format.

## Model

| member | source | states |
|---|---|---|
| `ParseMeaning.FoundMeans` | LiveContainerRuntime/ZSign/archo.cpp:33-110 | told from the bytes of the commands, a parse finds the last `__LINKEDIT` segment, the last signature command with its offset, the memory size of the last `__TEXT` segment, and how far behind the commands the last `__text` section behind them starts; without a signature the code is as long as the slice, rounded up to 16 |
| `LoadCommands.StrippedIsFiltered` | LiveContainerRuntime/ZSign/archo.cpp:688-730 | removing commands leaves a buffer of the same length that walks as the old list filtered in order, with matching counts, a zeroed tail and every other byte untouched |
| `LoadCommands.StrippedTwice` | LiveContainerRuntime/ZSign/archo.cpp:688-730 | removing again changes nothing, and dropping nothing is the identity |
| `LoadCommands.RebuiltWalks` | LiveContainerRuntime/ZSign/archo.cpp:667-683 | a rewritten area is well formed and walks as exactly the commands written |
| `LoadCommands.RebuiltBytes` | LiveContainerRuntime/ZSign/archo.cpp:722-728 | byte by byte: the new commands, zeros where only old ones were, everything else as before |
| `LoadCommands.RebuiltTwice` | LiveContainerRuntime/ZSign/archo.cpp:633-730 | a second edit over zeroed ground leaves what it would have left alone |
| `LoadCommands.FlattenWalks` | LiveContainerRuntime/ZSign/archo.cpp:45-110 | commands laid end to end are found again by walking `cmdsize` |
| `LoadCommands.DylibCommandReads` | LiveContainerRuntime/ZSign/archo.cpp:659-680 | a new dylib command is a multiple of 8 bytes, NUL-terminated, and reads back its kind and name |
| `LoadCommands.DylibCommandWords` | LiveContainerRuntime/ZSign/archo.cpp:669-680 | word by word: command 12 or 0x80000018, its size, the name behind 24 bytes, time stamp 2, both versions zero, then the name and only NULs |
| `CommandEdits.EditOne` | LiveContainerRuntime/ZSign/archo.cpp:648-650 | a store inside one command replaces that one list element and nothing else |
| `CommandEdits.AppendOne` | LiveContainerRuntime/ZSign/archo.cpp:668-683 | a command written behind the area with both counts raised appends one element |
| `SliceFacts.FoundStep` | LiveContainerRuntime/ZSign/archo.cpp:46-110 | what one more command adds to the findings of the parse: the last signature, `__LINKEDIT` and `__text` win |
| `SliceFacts.RoundUp16` | LiveContainerRuntime/ZSign/archo.cpp:34 | the next multiple of 16, zero at the end of the 32-bit range |
| `SliceFacts.FreeSpaceMeaning` | LiveContainerRuntime/ZSign/archo.cpp:76-79 | a positive free-space counter is the distance from the commands to a `__text` section; zero exactly when none lies behind them |
| `ArchO.ZArchO.Init` | LiveContainerRuntime/ZSign/archo.cpp:26-113 | accepts exactly non-empty 64-bit slices and leaves every field saying what the commands say |
| `ArchO.ZArchO.ParseCommands` | LiveContainerRuntime/ZSign/archo.cpp:45-110 | the loop over the commands finds what the list says |
| `ArchO.ZArchO.ParseCommand` | LiveContainerRuntime/ZSign/archo.cpp:48-107 | the findings after one command of the switch |
| `SliceFacts.ScanSections` | LiveContainerRuntime/ZSign/archo.cpp:74-83 | the last `__text` section behind the commands decides the counter |
| `ArchO.ZArchO.InjectDylib` | LiveContainerRuntime/ZSign/archo.cpp:633-686 | succeeds exactly when the library is loaded already or the counter lets the command through; then the list is the old one with that load retyped or one command appended; a refusal changes no byte |
| `ArchO.ZArchO.FindDylib` | LiveContainerRuntime/ZSign/archo.cpp:639-657 | finds the first load of the name, or that there is none |
| `ArchO.ZArchO.AppendDylib` | LiveContainerRuntime/ZSign/archo.cpp:667-683 | the four stores add up to one more command at the end of the list |
| `ArchO.ZArchO.RemoveDylibs` | LiveContainerRuntime/ZSign/archo.cpp:688-730 | leaves the stripped buffer for the set of names |
| `ArchO.ZArchO.CopySurvivors` | LiveContainerRuntime/ZSign/archo.cpp:697-721 | the scratch buffer holds exactly the surviving commands, and the two counters what was dropped |
| `ArchO.ZArchO.NamedAt` | LiveContainerRuntime/ZSign/archo.cpp:704-708 | whether a command loads one of the names |
| `InjectRemove.InjectedReads` | LiveContainerRuntime/ZSign/archo.cpp:633-686 | after an injection the first load of the name has the requested kind |
| `InjectRemove.InjectMeans` | LiveContainerRuntime/ZSign/archo.cpp:639-686 | an injection sets the kind of the first command that loads the library and no other byte of any command, or adds one command at the end |
| `InjectRemove.RemoveMeans` | LiveContainerRuntime/ZSign/archo.cpp:697-721 | a removal takes the commands one after the other and leaves out exactly those that load one of the libraries |
| `InjectRemove.InjectKeepsArea` | LiveContainerRuntime/ZSign/archo.cpp:633-686 | an injection keeps the area well formed and all names readable |
| `InjectRemove.InjectAbsentAppends` | LiveContainerRuntime/ZSign/archo.cpp:659-686 | an absent library gets exactly one command behind all others; no byte outside the counts and that command changes |
| `InjectRemove.InjectTwice` | LiveContainerRuntime/ZSign/archo.cpp:639-657 | a second identical injection changes no byte |
| `InjectRemove.RemoveUndoesInject` | LiveContainerRuntime/ZSign/archo.cpp:633-730 | removing what was just injected restores every byte exactly when the gap was zero |
| `TextGap.OneInjectionKeepsText` | LiveContainerRuntime/ZSign/archo.cpp:661-683 | with a positive counter one accepted injection leaves every byte from the `__text` section on that the counter was measured to |
| `TextGap.TwoInjectionsKeepText` | LiveContainerRuntime/ZSign/archo.cpp:661-683 | the counter is not lowered, so two accepted injections do so exactly when their commands together fit the counter, or the bytes written past it are there already |
| `TextGap.SecondInjectionOverwrites` | LiveContainerRuntime/ZSign/archo.cpp:661-683 | a slice in which both injections are accepted and the second overwrites the first byte of the code |
| `StripDylib.StripFromSlice` | tools/strip_injected_dylib.py:49-77 | returns the targeted names in order and leaves the stripped buffer, untouched when nothing is targeted |
| `StripDylib.Survivors` | tools/strip_injected_dylib.py:54-68 | what the loop keeps and what it names |
| `StripDylib.StripMeans` | tools/strip_injected_dylib.py:54-68 | one command after the other: left out, and reported by its full name, exactly when it is of one of the three kinds and what follows the last slash of its name is a target |
| `StripDylib.NamesCount` | tools/strip_injected_dylib.py:70-76 | every command is either kept or named, so the written count is right |
| `StripDylib.RemoversAgree` | tools/strip_injected_dylib.py:49-77 | the two removers leave the same bytes exactly when, for every library load, its full path is named if and only if its last component is targeted, and no command of the kind only the script looks at is targeted |
| `StripDylib.BasenamesAgree` | tools/strip_injected_dylib.py:60-63 | with the last components of the names as targets: exactly when no other library has one of these last components |
| `StripDylib.OnlyReexportsStay` | tools/strip_injected_dylib.py:33-34 | after the script some command still loads a target exactly when one of the real re-export kind did before, because the constant lacks the high bit |
| `StripDylib.ReexportStays` | tools/strip_injected_dylib.py:33-34 | such a command |
| `CodeDirectory.PagesPartition` | LiveContainerRuntime/ZSign/signing.cpp:443-446 | full pages and the remainder partition the code; the slot count is the ceiling of length / 4096 |
| `CodeDirectory.PageHashesAt` | LiveContainerRuntime/ZSign/signing.cpp:511-528 | hash k is the hash of page k |
| `CodeDirectory.BuildCodeDirectory` | LiveContainerRuntime/ZSign/signing.cpp:372-532 | the step-by-step builder writes the specified blob, nothing when it refuses |
| `CodeDirectory.UsedSpecialSlots` | LiveContainerRuntime/ZSign/signing.cpp:419-441 | the special slots with the unused ones in front dropped |
| `CodeDirectory.DropEmpty` | LiveContainerRuntime/ZSign/signing.cpp:437-441 | the search and erase drop exactly the leading empty slots |
| `CodeDirectory.HashPages` | LiveContainerRuntime/ZSign/signing.cpp:511-528 | the two hashing loops produce the page hashes in order |
| `CodeDirectory.BlobLayout` | LiveContainerRuntime/ZSign/signing.cpp:448-502 | the length field is the blob size; identifier and team strings are NUL-terminated where the offsets point |
| `CodeDirectory.HeaderFields` | LiveContainerRuntime/ZSign/signing.cpp:399-417 | every byte of the 88-byte header: lengths, offsets and counts, version, flags, hash size and kind, page size as a power of two, executable segment, and zeros elsewhere |
| `CodeDirectory.CodeSlotAt` | LiveContainerRuntime/ZSign/signing.cpp:504-528 | code slot i is at hashOffset + i * hashSize; it is the one handed in when slots of the right length were, and else the hash of page i |
| `CodeDirectory.SpecialSlotAt` | LiveContainerRuntime/ZSign/signing.cpp:281-287 | every kept negative slot holds its intended hash, every dropped one was zero, and the farthest kept one is not |
| `CodeDirectory.ReuseIsRehash` | LiveContainerRuntime/ZSign/signing.cpp:508-510 | reusing slots of the right length equals rehashing exactly when they are the page hashes; other lengths are ignored |
| `SuperBlob.BuildSuperBlob` | LiveContainerRuntime/ZSign/archo.cpp:430-514 | the counting, indexing and appending steps assemble the non-empty slots |
| `SuperBlob.CountSlots` | LiveContainerRuntime/ZSign/archo.cpp:437-443 | the running count is the number of non-empty slots |
| `SuperBlob.IndexWords` | LiveContainerRuntime/ZSign/archo.cpp:454-495 | the six conditional entries are the index of the non-empty slots |
| `SuperBlob.AssembledLayout` | LiveContainerRuntime/ZSign/archo.cpp:445-514 | length and count fields are true and each index offset locates exactly its blob, one behind the other without gaps |
| `SuperBlob.GetExistsCodeSlotsData` | LiveContainerRuntime/ZSign/signing.cpp:702-745 | the loop returns the last region of each directory kind and whether both are non-empty |
| `SuperBlob.LastRegionMeans` | LiveContainerRuntime/ZSign/signing.cpp:717-742 | in any signature the last directory of a kind that declares more than eight bytes gives the region: from its hash offset on, its slots times its hash size in 32 bits |
| `SuperBlob.LastRegionFound` | LiveContainerRuntime/ZSign/signing.cpp:718-742 | in an assembled signature a directory kind leads to the region of its one entry |
| `SuperBlob.LastRegionAbsent` | LiveContainerRuntime/ZSign/signing.cpp:718-742 | and to none when the slot is empty |
| `SuperBlob.DirectoryRegion` | LiveContainerRuntime/ZSign/signing.cpp:723-727 | the declared region of a directory is exactly its code slots |
| `RequirementSet.BuildRequirements` | LiveContainerRuntime/ZSign/signing.cpp:136-195 | the builder writes the specified requirement blob |
| `RequirementSet.RequirementsLayout` | LiveContainerRuntime/ZSign/signing.cpp:147-194 | both lengths are true, the inner requirement starts where the index says, each name follows its own length |
| `RequirementSet.RequirementsRead` | LiveContainerRuntime/ZSign/signing.cpp:136-195 | a reader of the requirement language finds the empty set when a name is missing, else one designated requirement: this identifier, anchored with Apple, a leaf certificate with this subject, an issuer with the developer extension |
| `Signing.WrappedLength` | LiveContainerRuntime/ZSign/signing.cpp:233-269 | a wrapped blob states its own length and keeps its contents |
| `Signing.BuildCodeSignature` | LiveContainerRuntime/ZSign/archo.cpp:315-529 | the steps produce the specified signature for the input, with stored code slots offered unless forced |
| `SignatureReader.ReadBack` | LiveContainerRuntime/ZSign/archo.cpp:454-514 | a reader that goes through the index finds, for each of the six kinds, the blob of its slot, or none when that is empty, whatever follows the signature |
| `SignatureMeaning.SignatureMeans` | LiveContainerRuntime/ZSign/archo.cpp:315-529 | what the bytes of any signature say: which directories there are and over which hash, with their fields, names and flags; in each, special slot -k is the hash of the blob found under index type k, for 2, 5 and 7, and zeros when there is none; type 5 wraps the entitlement text of an executable, type 7 the DER that decodes to its value exactly when that is faithful; the requirement; and the CMS blob made of the two directories stored |
| `Signing.DirectoryVouches` | LiveContainerRuntime/ZSign/archo.cpp:315-428 | each directory vouches for the other blobs: special slot -k holds the hash of the very blob in the slot it stands for |
| `SignAgain.WrittenSlotsFound` | LiveContainerRuntime/ZSign/signing.cpp:702-745 | reading any signature the builder made finds exactly the code slots it wrote, whatever follows it in memory |
| `SignAgain.SlotsReadBack` | LiveContainerRuntime/ZSign/signing.cpp:702-745 | in a forced signature those are the SHA-1 and SHA-256 page hashes of the code |
| `SignAgain.ReuseHarmless` | LiveContainerRuntime/ZSign/signing.cpp:508-510 | offered slots that are the page hashes, or of a wrong length, do not change a directory |
| `SignAgain.ResignIsSign` | LiveContainerRuntime/ZSign/archo.cpp:360-366 | signing the same code again without force equals signing with force |
| `Der.BuiltinClzll` | LiveContainerRuntime/ZSign/common/util.cpp:152-186 | the cascade of comparisons computes the true leading-zero count |
| `Der.AppendLength` | LiveContainerRuntime/ZSign/signing.cpp:7-19 | the loop appends the specified length octets |
| `Der.LengthIsMinimalDefinite` | LiveContainerRuntime/ZSign/signing.cpp:7-19 | they are the definite form of section 8.1.3 and the shortest form of section 10.1 of ITU-T X.690 |
| `Der.DumpBytes` | LiveContainerRuntime/ZSign/signing.cpp:33-37 | the shifting loop appends the bytes of the integer, most significant first |
| `Der.BuildDer` | LiveContainerRuntime/ZSign/signing.cpp:21-84 | the accumulating recursion produces the specified encoding |
| `Der.BuildItems` | LiveContainerRuntime/ZSign/signing.cpp:44-48 | array items are encoded one behind the other |
| `Der.BuildEntries` | LiveContainerRuntime/ZSign/signing.cpp:53-68 | dictionary entries are encoded one behind the other |
| `Der.AppendEntry` | LiveContainerRuntime/ZSign/signing.cpp:60-67 | one entry, its size computed as if the key length took one byte |
| `Der.DecodeUndoes` | LiveContainerRuntime/ZSign/signing.cpp:21-84 | a decoder for these conventions gives back every faithful value, consuming exactly its bytes |
| `Der.OnlyFaithfulDecodes` | LiveContainerRuntime/ZSign/signing.cpp:21-84 | a value that decodes to itself is faithful and was decoded from its whole encoding |
| `Der.RoundTrip` | LiveContainerRuntime/ZSign/signing.cpp:21-84 | a value survives exactly when it has no integer but 1 and no key of 128 bytes or more |
| `Der.IntegerTwoIsLost` | LiveContainerRuntime/ZSign/signing.cpp:31-37 | the integer 2 does not survive |
| `Der.IntegerLayout` | LiveContainerRuntime/ZSign/signing.cpp:29-38 | an integer is its tag, a length field that holds its value, and its bytes without leading zeros |
| `Der.EntryLayout` | LiveContainerRuntime/ZSign/signing.cpp:55-67 | an entry is a sequence of key and value whose length counts two bytes for the key header, whatever it takes |
| `Strings.StringSplit` | LiveContainerRuntime/ZSign/common/util.cpp:114-126 | the search loop lists the pieces between separators, an empty last one left out |
| `Strings.SplitJoin` | LiveContainerRuntime/ZSign/common/util.cpp:114-126 | joining the parts gives the string back exactly when it is empty or something lies behind the last cut |
| `Strings.RecoveredWhen` | LiveContainerRuntime/ZSign/common/util.cpp:114-126 | that is not ending in the separator, for all strings exactly when no proper end of the separator is also a beginning of it; two overlapping separators are the exception |
| `Strings.PiecesAreFree` | LiveContainerRuntime/ZSign/common/util.cpp:118-122 | no part contains the separator |
| `Strings.StringReplace` | LiveContainerRuntime/ZSign/common/util.cpp:103-112 | the in-place loop puts the replacement between exactly those pieces, never looking into text already replaced |
| `Strings.ReplaceBySelf` | LiveContainerRuntime/ZSign/common/util.cpp:103-112 | replacing something by itself changes nothing |
| `Bytes.SwapReversesBytes` | LiveContainerRuntime/ZSign/common/util.cpp:76-81 | the swap reverses the four bytes and undoes itself |
| `ArchO.ZArchO.Sign` | LiveContainerRuntime/ZSign/archo.cpp:531-570 | writes the signature behind the code exactly when there is a place for it and it fits; otherwise asks for room and changes no byte |
| `ArchO.ZArchO.ReallocCodeSignSpace` | LiveContainerRuntime/ZSign/archo.cpp:572-631 | when it gives up, what it had changed by then; else `__LINKEDIT` stretched, the signature command sized or added, and the slice padded to the new length |
| `ArchO.ZArchO.StretchLinkEdit` | LiveContainerRuntime/ZSign/archo.cpp:592-599 | the two stores into the segment command |
| `GrownMeaning.GrowthMeans` | LiveContainerRuntime/ZSign/archo.cpp:576-628 | told from the bytes: a lengthened slice leaves the least room, in whole pages, that is more than 52 bytes for every page begun and one more, and 16384 bytes on top; the segment changes in its two sizes only, ends where the slice ends, and its memory is whole pages larger by what the slice is longer and at most a page; the signature command gets its size or is written behind all others; no other command and no byte behind the commands changes; the rest is zeros |
| `GrownMeaning.GrowsWhen` | LiveContainerRuntime/ZSign/archo.cpp:576-607 | a slice can be lengthened exactly when it has a `__LINKEDIT` segment, is shorter than it would become, and has a signature command or 4 bytes of free space |
| `ArchO.ZArchO.AddSignature` | LiveContainerRuntime/ZSign/archo.cpp:604-617 | the stores that add a signature command |
| `ArchO.ZArchO.SizeSignature` | LiveContainerRuntime/ZSign/archo.cpp:617 | the store into an existing one |
| `TextGap.GrowthKeepsText` | LiveContainerRuntime/ZSign/archo.cpp:604-617 | lengthening leaves every byte from the measured `__text` section on exactly when the slice has a signature command, or the gap holds the 16 bytes of a new one where the code asks for 4, or the bytes written past it are there already |
| `SignSpace.ByteAlignAbove` | LiveContainerRuntime/ZSign/common/util.cpp:91-94 | the result is a multiple strictly above the value, at most a full unit above |
| `SignSpace.NewLengthRoom` | LiveContainerRuntime/ZSign/archo.cpp:576 | the new length leaves the hash room and more than 16384 bytes behind the code, in whole pages |
| `SignSpace.SignatureSize` | LiveContainerRuntime/ZSign/archo.cpp:445-452 | a signature is its overhead and its page hashes |
| `SignSpace.FitsAfterGrowth` | LiveContainerRuntime/ZSign/archo.cpp:560-576 | a signature fits a grown slice exactly when its overhead fits what is left beside the hashes, which is more than 16384 bytes |
| `SignSpace.GrownIsConsistent` | LiveContainerRuntime/ZSign/archo.cpp:581-617 | after a reallocation segment and signature end at the new length and the signature takes whole pages; the segment memory is whole pages, has grown by as much as the slice and at most a page more where 32 bits suffice, and still covers its file bytes if it did and ended at the old length |
| `SliceSigning.Relocated` | LiveContainerRuntime/ZSign/macho.cpp:68-80 | a slice parses the same wherever it lies |
| `SliceSigning.SignedKeeps` | LiveContainerRuntime/ZSign/archo.cpp:567 | signing changes no command and no code byte, and leaves a readable signature |
| `SliceSigning.GrownGood` | LiveContainerRuntime/ZSign/archo.cpp:572-631 | a grown slice is well formed, announces a signature and keeps its code length |
| `SliceSigning.GrownTail` | LiveContainerRuntime/ZSign/archo.cpp:619-628 | behind the code length a grown slice holds what was there, then zeros |
| `SliceSigning.GrownCanSign` | LiveContainerRuntime/ZSign/archo.cpp:560-576 | a grown slice has room exactly when what its signature needs besides page hashes fits what lengthening leaves beside them, which is more than 16384 bytes |
| `SliceSigning.ModestCanSign` | LiveContainerRuntime/ZSign/archo.cpp:576 | so it always has when signatures need at most 16384 bytes besides page hashes |
| `SliceSigning.BuildableWhen` | LiveContainerRuntime/ZSign/archo.cpp:445-452 | that signatures stay in 32-bit range can be told from the lengths of names, entitlements and the CMS blob |
| `SliceSigning.ModestWhen` | LiveContainerRuntime/ZSign/archo.cpp:445-452 | and so can that they need at most 16384 bytes besides page hashes |
| `StaleHashes.GrowthChangesHead` | LiveContainerRuntime/ZSign/archo.cpp:581-617 | growing changes the header or the commands of every slice, signed before or not: `__LINKEDIT` never keeps its memory size |
| `StaleHashes.GrowthChangesCode` | LiveContainerRuntime/ZSign/archo.cpp:581-617 | so the hashed code of a slice with a signature always changes |
| `StaleHashes.HashesTell` | LiveContainerRuntime/ZSign/signing.cpp:511-528 | codes of one length have the same page hashes exactly when they are the same, as far as the hash tells their pages apart |
| `StaleHashes.SlotsRight` | LiveContainerRuntime/ZSign/signing.cpp:504-528 | a signature made with slots offered is the one hashing anew gives exactly when every run of a usable length is the page hashes |
| `StaleHashes.WrittenCurrent` | LiveContainerRuntime/ZSign/signing.cpp:702-745 | and exactly then the code slots a reader finds in it are those of the code |
| `StaleHashes.OwnSignature` | LiveContainerRuntime/ZSign/archo.cpp:360-366 | over a forced signature of its own code a slice stores current slots; there are none to take over when it has no directories or SHA-256 only |
| `StaleHashes.GrownSlotsRight` | LiveContainerRuntime/ZSign/archo.cpp:360-366 | the signature for a grown slice whose stored slots were current is the one hashing anew gives exactly when it is forced, has no directories, or found no slots of a usable length |
| `StaleHashes.GrownCurrent` | LiveContainerRuntime/ZSign/archo.cpp:360-366 | the same of what a reader finds in the slice after signing it |
| `StaleHashes.FirstPassCurrent` | LiveContainerRuntime/ZSign/macho.cpp:143-147 | a slice signed in the first pass is current, and stores what the second pass takes over unless it has SHA-256 only |
| `StaleHashes.FinalCurrent` | LiveContainerRuntime/ZSign/macho.cpp:143-147 | which slices of a file are current after a reallocation and the second pass, those signed in the first pass included |
| `StaleExample.SigningAgainGoesStale` | LiveContainerRuntime/ZSign/archo.cpp:360-366 | a file whose stored page hashes are those of its code, and are no longer after an unforced signing that succeeds |
| `FatFile.OffsetIsWritten` | LiveContainerRuntime/ZSign/macho.cpp:196-239 | cumulative offset padding and per-file padding come to the same positions, all multiples of 16384 |
| `FatFile.RewrittenLayout` | LiveContainerRuntime/ZSign/macho.cpp:196-242 | every recorded offset and size locates exactly the file written there, with room before the next; processor fields are kept |
| `FatFile.RewrittenIsTight` | LiveContainerRuntime/ZSign/macho.cpp:196-239 | the first file starts within 16384 bytes of the table, each next one within 16384 bytes of the one before, with only zeros between |
| `FatFile.AlignmentIsWritten` | LiveContainerRuntime/ZSign/macho.cpp:203 | each table entry gives the alignment 2^14 |
| `FatFile.OpenRecovers` | LiveContainerRuntime/ZSign/macho.cpp:68-80 | opening the rebuilt file finds exactly the files, in order and disjoint |
| `FatFile.RewriteFat` | LiveContainerRuntime/ZSign/macho.cpp:181-242 | the layout loop and the writing loop produce that file; refused when table and slices differ in number |
| `FatFile.ReadersAgree` | tools/strip_injected_dylib.py:40-46 | the script and the signer read the same offsets from a big-endian table |
| `MachO.ZMachO.NewArchO` | LiveContainerRuntime/ZSign/macho.cpp:39-48 | one more parsed slice, or none |
| `MachO.ZMachO.OpenFile` | LiveContainerRuntime/ZSign/macho.cpp:61-93 | succeeds exactly when there are slices and all are 64-bit images, and then holds exactly them |
| `MachO.SlicesMean` | LiveContainerRuntime/ZSign/macho.cpp:66-80 | a file that starts with CA FE BA BE, or with these bytes reversed, has the slices its table names in that byte order; any other file is its own only slice |
| `MachO.ZMachO.SignNext` | LiveContainerRuntime/ZSign/macho.cpp:143-151 | one slice becomes its outcome, all others stay |
| `MachO.ZMachO.SignPass` | LiveContainerRuntime/ZSign/macho.cpp:123-152 | slices are signed in turn up to the first without room |
| `MachO.ZMachO.ReallocCodeSignSpace` | LiveContainerRuntime/ZSign/macho.cpp:157-251 | succeeds exactly when every slice can be lengthened, and then holds exactly the grown slices |
| `MachO.ZMachO.Sign` | LiveContainerRuntime/ZSign/macho.cpp:117-155 | recurses at most once; succeeds exactly when the specification does, with exactly its slices |
| `MachO.SignArch` | LiveContainerRuntime/ZSign/archo.cpp:531-570 | in a file with several slices, signing one touches only it |
| `MachO.ReallocArch` | LiveContainerRuntime/ZSign/archo.cpp:572-631 | growing one yields its grown bytes and touches only it |
| `MachO.SucceedsWhen` | LiveContainerRuntime/ZSign/macho.cpp:143-152 | signing a file succeeds exactly when every slice has room; or no reallocation was made yet, every slice can be lengthened, and what each signature then needs besides page hashes fits what lengthening leaves |
| `MachO.ModestSucceeds` | LiveContainerRuntime/ZSign/macho.cpp:143-152 | when signatures need at most 16384 bytes besides page hashes, the last condition always holds |
| `MachO.SecondPass` | LiveContainerRuntime/ZSign/macho.cpp:143-147 | the second pass signs all grown slices exactly when each has room by then, and else fails for good |
| `MachO.ForcedMatchesCode` | LiveContainerRuntime/ZSign/archo.cpp:531-570 | a forced signature carries exactly the page hashes of the slice it ends up in |
| `MachO.RetriedIsConsistent` | LiveContainerRuntime/ZSign/macho.cpp:143-151 | after the retry segment and signature of a slice both end where the slice ends, and the segment memory is whole pages, has grown with the slice and covers its bytes if it did |
| `SignedFile.OutcomeKeeps` | LiveContainerRuntime/ZSign/archo.cpp:560-569 | signing a slice writes the signature where its command says and changes no other byte |
| `SignedFile.OutcomeSays` | LiveContainerRuntime/ZSign/archo.cpp:531-570 | a slice that has been signed carries, where its last signature command points, a signature that says what it should of this very slice, whether code slots were taken over or not |
| `SignedFile.SignedFileSays` | LiveContainerRuntime/ZSign/macho.cpp:117-155 | when signing a file succeeds, with or without a reallocation, every slice of the result does |
| `MachO.ThinOpens` | LiveContainerRuntime/ZSign/macho.cpp:174-180 | a single grown slice is a file that opens to itself |
| `MachO.FatOpens` | LiveContainerRuntime/ZSign/macho.cpp:181-247 | a rebuilt universal file opens to exactly its grown slices |
| `MirrorServer.GivenExactly` | Shared/MirrorServer.swift:198-220 | after any run, a packet of any kind is given exactly to the attached clients that were given one before, or are offered a config packet, and have at most 4 MiB pending |
| `MirrorServer.OthersGiveNothing` | Shared/MirrorServer.swift:123-172 | no other step gives a packet, and only a completion takes one out of what is pending |
| `MirrorServer.AttachedExactly` | Shared/MirrorServer.swift:123-172 | after any run, the client attached under a key is the one accepted last, unless the key was removed or the server stopped since |
| `MirrorServer.Client.Offer` | Shared/MirrorServer.swift:203-218 | one client takes a packet exactly when it is a config packet or the client is primed, and it is not over the limit |
| `MirrorServer.Server.Accept` | Shared/MirrorServer.swift:144-165 | a new client, unprimed, under its key |
| `MirrorServer.Server.Send` | Shared/MirrorServer.swift:176-220 | every attached client is offered the packet once; the list holds exactly those that took it; the packet is header and payload |
| `MirrorServer.Server.Complete` | Shared/MirrorServer.swift:225-230 | the counter goes down by the size of that packet |
| `MirrorServer.Server.Remove` | Shared/MirrorServer.swift:167-172 | the key is gone and its client returned |
| `MirrorServer.Server.Stop` | Shared/MirrorServer.swift:123-134 | no client is attached any more |
| `MirrorServer.Server.HasClients` | Shared/MirrorServer.swift:136-140 | true exactly when some client is attached |
| `MirrorServer.StepKeeps` | Shared/MirrorServer.swift:123-232 | every step keeps: unprimed means nothing in flight, primed means already given a packet, the first one is config, packets in order of sending, counter equals the pending sum |
| `MirrorServer.RunKeeps` | Shared/MirrorServer.swift:123-232 | so does every run under every interleaving |
| `MirrorServer.EveryRunIsSound` | Shared/MirrorServer.swift:123-232 | in every reachable state, and the counter is never negative |
| `MirrorServer.RunIsBounded` | Shared/MirrorServer.swift:213-217 | no client ever has more in flight than 4 MiB and one largest packet |
| `MirrorServer.PrimingIsNeverDropped` | Shared/MirrorServer.swift:203-215 | a config packet reaches every attached client that has had none |
| `MirrorServer.ConfigDropped` | Shared/MirrorServer.swift:203-215 | a later config packet is dropped exactly when the client is over the limit |
| `MirrorServer.ConfigCanBeDropped` | Shared/MirrorServer.swift:203-215 | and a run in which it is, for config packets and frames of any size: enough frames behind a first config packet |
| `MirrorServer.DetachedGetsNothing` | Shared/MirrorServer.swift:123-172 | a removed client is never given another packet |
| `MirrorProtocol.EncodeHeader` | Shared/MirrorProtocol.swift:128-139 | the appended fields are the documented 24 bytes |
| `MirrorProtocol.HeaderRoundTrip` | Shared/MirrorProtocol.swift:17-26 | reading the documented offsets gives the header back |
| `MirrorProtocol.HeaderBytes` | Shared/MirrorProtocol.swift:17-60 | the header starts with the four letters ECMV, the number of its kind, the flags and two zeros |
| `MirrorProtocol.ReceiveMore` | Shared/MirrorProtocol.swift:17-26 | receiving in two portions is receiving at once |
| `MirrorProtocol.ChunkingIsIrrelevant` | Shared/MirrorProtocol.swift:17-26 | however the bytes are cut up, the receiver ends in the same state |
| `MirrorProtocol.FramingRoundTrip` | Shared/MirrorProtocol.swift:128-139 | any packets, cut into any chunks, arrive unchanged with nothing left over |
| `MirrorProtocol.DeliveredIsPrefix` | Shared/MirrorProtocol.swift:128-139 | at any moment the packets delivered are the first of those sent |
| `MirrorProtocol.EncodeDescriptor` | Shared/MirrorProtocol.swift:98-105 | the appended fields are the documented 8 bytes |
| `MirrorProtocol.DescriptorRoundTrip` | Shared/MirrorProtocol.swift:86-90 | reading them gives the descriptor back; the last byte is zero |
| `Audio.ClampMeaning` | Broadcast/SampleHandler.swift:285-293 | the scaled sample cut off towards zero and brought into range; louder never becomes quieter |
| `Audio.CopyPlane` | Broadcast/SampleHandler.swift:252-262 | the inner loop fills exactly its plane |
| `Audio.Interleave` | Broadcast/SampleHandler.swift:240-264 | every sample is at frame * planes + plane, zero for missing and short planes |
| `Audio.ConvertAll` | Broadcast/SampleHandler.swift:228-239 | every sample of the interleaved buffer converted in place |
| `Audio.PcmS16` | Broadcast/SampleHandler.swift:157-283 | the payload for the buffers, or none under exactly the guards |
| `Audio.SentWhen` | Broadcast/SampleHandler.swift:157-222 | buffers are sent exactly for little-endian floats or 16-bit integers of at least one channel whose first buffer holds a frame |
| `Audio.SamplesRoundTrip` | Broadcast/SampleHandler.swift:274-279 | reading the sample bytes gives the samples back |
| `Audio.PayloadRoundTrip` | Broadcast/SampleHandler.swift:268-281 | a receiver reads back the rate, the channel count and all samples |
| `Audio.PlanesRecovered` | Broadcast/SampleHandler.swift:240-264 | the receiver reads rate, planes and format, and every frame of every plane: an integer sample as it is, a level as 32767 times it, cut off towards zero and brought into range, and zero for a missing or short plane |
| `Audio.InterleavedRecovered` | Broadcast/SampleHandler.swift:223-239 | interleaved samples arrive so, in order, under the format channel count |
| `AnnexB.ConvertToAnnexB` | Shared/H264Encoder.swift:270-290 | the units of the longest valid prefix behind start codes, none when there are none |
| `AnnexB.SameLength` | Shared/H264Encoder.swift:266-269 | both forms of a unit list are equally long |
| `AnnexB.UnitsOfAvcc` | Shared/H264Encoder.swift:277-286 | a well-formed list with a bad tail behind it converts to exactly its units |
| `AnnexB.LongestPrefix` | Shared/H264Encoder.swift:277-281 | the converted units are a prefix of the input and every valid prefix is part of them |
| `AnnexB.StreamRecovered` | Shared/H264Encoder.swift:282-284 | section B.2 of ITU-T H.264 recovers the units exactly when they are free of 000000 and 000001 and none but the last ends in zero |
| `AnnexB.ConversionRecovered` | Shared/H264Encoder.swift:270-290 | units that obey section 7.4.1 come through the conversion and a decoder unchanged |
| `Base64.LookupsInverse` | LiveContainerRuntime/ZSign/common/base64.cpp:30-54 | the two lookups are inverse to each other on the alphabet |
| `Base64.Table` | LiveContainerRuntime/ZSign/common/base64.cpp:30-54 | they are Table 1 of RFC 4648 |
| `Base64.Vectors` | LiveContainerRuntime/ZSign/common/base64.cpp:56-97 | the test vectors of section 10 of RFC 4648 |
| `Base64.ShiftsCutSextets` | LiveContainerRuntime/ZSign/common/base64.cpp:74-77 | the shifts of the code cut 24 bits into their six-bit pieces |
| `Base64.Encode` | LiveContainerRuntime/ZSign/common/base64.cpp:56-97 | loop and tail together are the encoding of section 4 of RFC 4648 |
| `Base64.Decode` | LiveContainerRuntime/ZSign/common/base64.cpp:104-157 | loop and tail together are the specified decoding |
| `Base64.DecodeEncode` | LiveContainerRuntime/ZSign/common/base64.cpp:56-157 | decoding what was encoded gives back every byte string |
| `Base64.EncodedIsCanonical` | LiveContainerRuntime/ZSign/common/base64.cpp:56-97 | every encoding is canonical |
| `Base64.EncodeDecode` | LiveContainerRuntime/ZSign/common/base64.cpp:104-157 | encoding a decoded text gives the text back exactly when it is canonical |
| `BatchMove.FileSystem.CheckMove` | LiveContainerRuntime/LiveContainerSwiftUI/Utilities/LCUtilsExtensions.swift:440-501 | the first failing check decides the error |
| `BatchMove.FileSystem.RunPreflight` | LiveContainerRuntime/LiveContainerSwiftUI/Utilities/LCUtilsExtensions.swift:439-502 | the first failing move decides |
| `BatchMove.FirstWrongIsReported` | LiveContainerRuntime/LiveContainerSwiftUI/Utilities/LCUtilsExtensions.swift:439-502 | told without the checks: the preflight reports the first of twelve things that is wrong with the first move that has anything wrong with it, and nothing when there is no such move |
| `BatchMove.FileSystem.MoveFiles` | LiveContainerRuntime/LiveContainerSwiftUI/Utilities/LCUtilsExtensions.swift:424-517 | a failed preflight leaves the tree untouched; otherwise the moves before the first failing one are made |
| `BatchMove.RenamedMeaning` | LiveContainerRuntime/LiveContainerSwiftUI/Utilities/LCUtilsExtensions.swift:508 | one move takes exactly the subtree and keeps every content |
| `BatchMove.RenamedIsProper` | LiveContainerRuntime/LiveContainerSwiftUI/Utilities/LCUtilsExtensions.swift:508 | and leaves a file system tree |
| `BatchMove.PreflightMeaning` | LiveContainerRuntime/LiveContainerSwiftUI/Utilities/LCUtilsExtensions.swift:439-502 | the preflight passes exactly when every move could be made alone and nothing is named twice |
| `BatchMove.FirstFailure` | LiveContainerRuntime/LiveContainerSwiftUI/Utilities/LCUtilsExtensions.swift:506-516 | after a passed preflight the first move to fail is the first with an earlier source above its source or destination |
| `BatchMove.LeavesFollowed` | LiveContainerRuntime/LiveContainerSwiftUI/Utilities/LCUtilsExtensions.swift:506-516 | whatever the batch, the moves made before the first failing one leave every node, with its content, where they took it one after the other, and nothing else |
| `BatchMove.RenamesWhen` | LiveContainerRuntime/LiveContainerSwiftUI/Utilities/LCUtilsExtensions.swift:506-516 | a batch that goes through leaves the simultaneous renaming, innermost source first, exactly when no source lies above the destination of an earlier move |
| `BatchMove.SimultaneousRenaming` | LiveContainerRuntime/LiveContainerSwiftUI/Utilities/LCUtilsExtensions.swift:506-516 | independent moves all go through and leave the simultaneous renaming of the original tree |
| `BatchMove.OrderIsIrrelevant` | LiveContainerRuntime/LiveContainerSwiftUI/Utilities/LCUtilsExtensions.swift:506-516 | in any order, with the same tree |
| `BatchMove.EveryOrder` | LiveContainerRuntime/LiveContainerSwiftUI/Utilities/LCUtilsExtensions.swift:506-516 | a passed batch goes through in every order exactly when it is independent |
| `BatchMove.PassesAndFails` | LiveContainerRuntime/LiveContainerSwiftUI/Utilities/LCUtilsExtensions.swift:424-517 | a concrete batch that passes the preflight, makes its first move and fails at the second |
| `RefreshHandler.Handler.StartRefresh` | LiveContainerRuntime/SideStore/SideStore.swift:83-163 | the handler up to its first suspension |
| `RefreshHandler.Handler.LaunchBegun` | LiveContainerRuntime/SideStore/SideStore.swift:143-155 | the pid and the launch continuation are stored |
| `RefreshHandler.Handler.LaunchDone` | LiveContainerRuntime/SideStore/SideStore.swift:157-161 | a good launch stores the refresh continuation, a failed one ends the refresh |
| `RefreshHandler.Handler.TimerFired` | LiveContainerRuntime/SideStore/SideStore.swift:148-154 | ends whatever launch is being waited for |
| `RefreshHandler.Handler.FinishRefresh` | LiveContainerRuntime/SideStore/SideStore.swift:169-177 | resumes the refresh, if any, with success or error |
| `RefreshHandler.Handler.LaunchFinished` | LiveContainerRuntime/SideStore/SideStore.swift:184-187 | resumes the launch, if any |
| `RefreshHandler.Handler.Interrupt` | LiveContainerRuntime/SideStore/SideStore.swift:136-141 | resumes the refresh and clears the launch unresumed |
| `RefreshHandler.OutcomeExplained` | LiveContainerRuntime/SideStore/SideStore.swift:83-187 | a run resumes a continuation with an outcome exactly when it takes a step that means this outcome while the continuation waits |
| `RefreshHandler.NeverBoth` | LiveContainerRuntime/SideStore/SideStore.swift:83-187 | no continuation waits for a refresh at one moment and for a launch at another |
| `RefreshHandler.RefreshOutcome` | LiveContainerRuntime/SideStore/SideStore.swift:84-177 | so a refresh is resumed with success exactly when success is reported while it waits, and with an error exactly when one is reported, an interruption comes, or another refresh finds the process gone |
| `RefreshHandler.LaunchOutcome` | LiveContainerRuntime/SideStore/SideStore.swift:146-187 | and a launch with success exactly when it is reported finished while it waits, with an error exactly when the timer fires |
| `RefreshHandler.SlotsAreAwaited` | LiveContainerRuntime/SideStore/SideStore.swift:83-163 | the continuation in a slot is always one that exactly one refresh waits on |
| `RefreshHandler.StartMeans` | LiveContainerRuntime/SideStore/SideStore.swift:83-163 | how a refresh starts: refused while another one waits and the process is there, launching when that is gone and no launch is awaited, else waiting at once |
| `RefreshHandler.GoesOnWhenLaunched` | LiveContainerRuntime/SideStore/SideStore.swift:146-161 | a launched refresh goes on to wait exactly when its launch was reported finished while it waited for it |
| `RefreshHandler.ProcessMeans` | LiveContainerRuntime/SideStore/SideStore.swift:136-155 | the process looked at is the one begun last unless an interruption came since; an interruption leaves nothing waiting |
| `RefreshHandler.StepKeeps` | LiveContainerRuntime/SideStore/SideStore.swift:83-187 | every step keeps: no continuation was resumed twice, a stored one not at all |
| `RefreshHandler.ResumedAtMostOnce` | LiveContainerRuntime/SideStore/SideStore.swift:83-187 | in every interleaving no continuation is resumed twice |
| `RefreshHandler.LeavesSlot` | LiveContainerRuntime/SideStore/SideStore.swift:83-187 | a stored continuation leaves its slot by being resumed or by one of three losses, never both |
| `RefreshHandler.LossesExplained` | LiveContainerRuntime/SideStore/SideStore.swift:83-187 | a run loses a continuation exactly when it takes one of those steps with the slot filled |
| `RefreshHandler.NothingLost` | LiveContainerRuntime/SideStore/SideStore.swift:83-187 | from the start, nothing is lost exactly in careful runs |
| `RefreshHandler.LostForGood` | LiveContainerRuntime/SideStore/SideStore.swift:83-187 | what is lost is never resumed later |
| `RefreshHandler.SecondRefreshIsLost` | LiveContainerRuntime/SideStore/SideStore.swift:104-161 | a concrete run in which a second refresh is overwritten and waits for ever |

## Left out

- 32-bit and foreign-order Mach-O images: load-command editing is modelled for 64-bit headers in native byte order, where raw and swapped header fields agree (`RemoveDylibs` uses raw ones); byte swapping stays in universal headers and signature fields.
- Allocation, mapping, appending, renaming and removing files, and their failures: a file is its bytes.
- The embedded property list, encryption flag, stored signature length, architecture names and all printing of a slice.
- `ZMachO.Sign` taking a missing bundle identifier and missing property-list hashes from the slice: they are arguments here.
- `ZMachO.InjectDylib`, a loop over the slices that adds nothing to the injection of one.
- Certificates, CMS, SHA internals and property-list parsing: arguments with known output lengths.
- Entitlements that are neither boolean, integer, string, array nor dictionary, which the builder asserts away.
- The CMS slot of an ad-hoc signature: the caller never asks for it.
- The branch for an empty signature blob: the blob is never shorter than 12 bytes.
- An entitlement text that is not NUL-terminated where it is searched: the search ends at the text, or at a zero byte in it. Without entitlements the code searches eight bytes behind an empty string, and finds nothing here.
- ArchO.ZArchO.Init: requires a slice that is no 32-bit or byte-swapped image, and commands whose structures lie inside them, because the code reads them unchecked.
- ArchO.ZArchO.ParseCommands: requires a list without `LC_SEGMENT` commands, which belong to 32-bit images.
- ArchO.ZArchO.ParseCommand: likewise for the one command.
- ArchO.ZArchO.InjectDylib: requires room in the file, and in the 32-bit size of the commands, when a command is appended, because the code writes without looking where the file ends.
- ArchO.ZArchO.AppendDylib: requires the same.
- ArchO.ZArchO.AddSignature: requires 16 bytes of room in the file where the code checks for 4 bytes of free space before writing 16.
- ArchO.ZArchO.ReallocCodeSignSpace: requires the same, and a code length whose sums stay in 32 bits.
- ArchO.ZArchO.Sign: requires the regions an earlier signature declares to lie inside memory unless forced, because the code follows them unchecked, and lengths and a signature below 2 GiB, because room is computed in signed 32-bit numbers.
- MachO.ZMachO.NewArchO: does not take 32-bit and byte-swapped slices.
- MachO.ZMachO.OpenFile: likewise, and the slices lie in order behind the table without overlapping.
- MachO.ZMachO.Sign: is stated for such files, with readable earlier signatures, at least 16 bytes inside the slice where a signature command may be added, and all lengths and rebuilt offsets in 32-bit range; what a failing call leaves in the file is not stated.
- Name offsets of dylib commands are taken to point behind the fixed part and to a string that ends inside the command.
- Der.BuildDer: a shift by 64 or more, which C++ leaves undefined, is taken to give zero; it happens only for the integer 0, where the wrapping byte count makes the loop emit 2^29 zero bytes.
- Strings.StringReplace: requires a non-empty pattern, because an empty one is found again for ever; `Strings.StringSplit` likewise.
- `StringTrim` and the 16- and 64-bit swaps: only easy members.
- The script's choice of executable inside an archive, its resource-manifest cleaning, and the text decoding of names, which is an argument.
- Sockets, Bonjour, the retry without advertisement and the hand-over of a packet to the transport: only the locked sections and their callbacks are steps, so order means order of admission.
- A receiver of the stream is not in the repository; the one here is written from the documented layout.
- StaleHashes.FinalCurrent: the hash functions are only assumed to tell apart the pages that growing changes; that SHA-1 and SHA-256 do is not part of this model.
- Audio.PcmS16: floating-point rounding of the scaling; samples are real numbers or not finite. A sample rate or channel count that its field cannot hold traps in the code and is required not to occur.
- Encoder sessions, parameter sets and key-frame requests around `convertToAnnexB`.
- Base64.Decode: covers texts without NUL bytes; eight-byte loads and stores are modelled as the bytes whose values are used, not what else they touch.
- Base64 encoding of an empty C string of unknown length, and buffers kept by the codec object.
- BatchMove.FileSystem.MoveFiles: failures of the file system other than missing or existing items, wrong kinds and permissions; URL standardization, symbolic links and case folding.
- Processes, the listener, progress and the extension's launch: the refresh steps take their outcomes as arguments; a launch timer may fire at any time.
