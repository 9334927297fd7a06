# Monomyth client bootstrap: verified model

This project models the self-contained algorithms and state machines of the Monomyth client
DLL (`dinput8.dll` for the EverQuest ROF2 client) in Dafny and proves what they promise. It
covers the integrity checks that decide whether the DLL may touch the client at all (hash, code
comparison, marker scan), the class-mask cache it keeps on disk, and the packet observers with
the stores behind them.

`dafny verify dfyconfig.toml` checks everything.

## Files

| file | subject |
|---|---|
| `Arithmetic.dfy`, `Wire.dfy`, `PacketReader.dfy`, `ClassMask.dfy`, `Sorting.dfy` | quotients, bytes and words, bounds-checked reads, class masks, the library sort |
| `Sha256Spec.dfy`, `Sha256Constants.dfy`, `Sha256Example.dfy` | FIPS 180-4 as a definition, what its constants are, and its example "abc" |
| `Sha256.dfy`, `FileHash.dfy` | the streaming implementation, and the hash of a file as text |
| `Relocation.dfy`, `InstructionForms.dfy` | the comparison of loaded code with pinned bytes, and the instructions it recognises |
| `MarkerScan.dfy` | the chunked scan of the executable for its build date and time |
| `CacheText.dfy`, `CacheFormat.dfy`, `CacheLines.dfy`, `MulticlassCache.dfy` | the cache file: text pieces, parser and printer, accepted lines, stores and lookups |
| `CacheRuns.dfy`, `CacheLookups.dfy`, `CacheExamples.dfy` | what stores and lookups come to, over every run and every sort, and files that show it |
| `TimedCast.dfy`, `CastPackets.dfy` | the timed-cast tracker and its packets |
| `CorrelationBudget.dfy`, `Publication.dfy` | protocols over compare-and-swap and over separate atomics |
| `RemoteIdentity.dfy`, `IdentityStore.dfy` | the identity packet and its store |
| `ServerAuthStats.dfy`, `StatsSent.dfy` | the statistics packet and what is published of what was sent |
| `SpawnPacket.dfy`, `PetRoster.dfy`, `PetHistory.dfy` | the spawn packet, the pet roster, and both in terms of the packets received |
| `WhoList.dfy`, `WhoRows.dfy` | the who-list response, its capture and its consumers, and the rows they see |

Objects whose methods change fields are classes; loops are loops with invariants. Each method is
proved equal to a function of its inputs or of the old state, and the main theorems are about
those functions: over every input, every run, every interleaving. They end in terms of what a
sender, an assembler or a caller wrote: encoded packets and instructions, the calls' own
arguments, and for the hash the numbers its constants come from.

## What came out

* **Hash.** For every way of cutting a message into Update calls the result is the FIPS 180-4
  digest of the concatenation, including the 64-bit wrap of the length field.
* **Relocated code.** The comparison is sound and complete for *every* nonzero load delta, not
  only for multiples of 64 KiB: no shifted window and no earlier instruction form can show the
  delta by accident. When the loader's 32-bit addition is modelled with its wrap, an image at a
  64 KiB boundary is accepted exactly when no operand wraps. Loaded at or above 0x8040_0000, an
  image with a single operand that points into itself is rejected; `RejectedLoad` is one.
* **Cache file.** A store is sure to be found afterwards if and only if its names fit on a line,
  its class id does not narrow to zero, the name is not in use on another server and the file
  stays within 64 KiB; and a run of stores keeps the file a map if and only if every call meets
  these conditions. Each can fail silently. With a name on two servers the C++ standard lets the
  sort write either line last, and only the last is read. A file that grows too long reads as
  empty, and the next store writes its own entry only. A file of version 1 or 2 loses every
  *other* character on the first store, because those entries are printed without a server and
  such a line is rejected on the next read.
* **Published statistics.** A snapshot that reports a class mask always carries a published one.
  The fields that can be cleared have this guarantee exactly when no stray zero is possible.
* **Correlation windows.** The budget is conserved in every interleaving, resets included. A
  consumer reads the activation number after it has consumed. What it reports is exact if and
  only if no draw took effect between the draw of its arm and the read, as long as the counter is
  not reset in between; otherwise it may be newer. After a reset it may be older, and the exact
  condition for that case is proved too.
* The repository's README says the statistics handler stores only the class mask; the code also
  publishes skill masks, pet hit points and the focused pet, and the model follows the code.

## Model

| member | source | states |
|---|---|---|
| Sha256Spec.RotateRightIsRotation | src/spell_usability_discovery.cpp:273-275 | the two shifts are a circular right shift for all ten amounts the hash uses |
| Sha256Spec.ZeroBytesIsSmallest | src/spell_usability_discovery.cpp:400-413 | the padding of section 5.1.1 uses the least number of zero bytes that leaves room for the length |
| Sha256Spec.PadFillsBlocks | src/spell_usability_discovery.cpp:400-419 | a padded message is a whole number of blocks |
| Sha256Spec.HashOneMoreBlock | src/spell_usability_discovery.cpp:295-363 | hashing blocks one at a time from the front is hashing them one at a time at the end |
| Sha256Spec.WordOfWordBytes | src/spell_usability_discovery.cpp:421-426 | the digest bytes of a word read back as the word |
| Sha256.Schedule | src/spell_usability_discovery.cpp:302-323 | the in-place schedule of 64 words is the recursive message schedule of section 6.2.2 |
| Sha256.ProcessBlock | src/spell_usability_discovery.cpp:295-363 | the rolling a..h loop adds exactly the compression function of section 6.2.2 to the state |
| Sha256.Context.Init | src/spell_usability_discovery.cpp:277-293 | a fresh context has taken in the empty message, from the initial value of section 5.3.3 |
| Sha256.Context.FlushBuffer | src/spell_usability_discovery.cpp:386-389 | a full buffer moves into the hash value and the message taken in is unchanged |
| Sha256.Context.Update | src/spell_usability_discovery.cpp:365-391 | the message taken in grows by exactly the data, whatever was buffered; fewer than 64 bytes stay buffered |
| Sha256.Context.Append | src/spell_usability_discovery.cpp:379-384 | bytes copied behind the buffered ones extend the message by themselves |
| Sha256.Context.FillTo | src/spell_usability_discovery.cpp:404-413 | a fill extends the message by zero bytes up to the given buffer size |
| Sha256.Context.PadBeforeLength | src/spell_usability_discovery.cpp:401-413 | both padding branches leave 56 bytes buffered and append 0x80 and the right number of zeros |
| Sha256.Context.AppendLength | src/spell_usability_discovery.cpp:415-418 | the eight shifted bytes are the 64-bit length, most significant first |
| Sha256.Context.AbsorbPadding | src/spell_usability_discovery.cpp:400-419 | after padding the hash value covers exactly the padded message |
| Sha256.Context.Final | src/spell_usability_discovery.cpp:393-427 | the digest is the FIPS 180-4 digest of everything taken in |
| Sha256.WriteState | src/spell_usability_discovery.cpp:421-426 | the 32 output bytes are the eight state words, most significant byte first |
| Sha256.BigEndianByte | src/spell_usability_discovery.cpp:415-418 | a right shift and a mask pick one byte of the length |
| Sha256.LengthField | src/spell_usability_discovery.cpp:373-400 | the 64-bit counter times eight, with its wrap, gives the length field of the standard |
| Sha256Constants.FirstPrimes | src/spell_usability_discovery.cpp:227-239 | the 64 primes used below are the first 64: in increasing order, all those up to 311 and no other number |
| Sha256Constants.RoundConstantsAreCubeRoots | src/spell_usability_discovery.cpp:227-239 | round constant t is the first 32 bits of the fractional part of the cube root of prime number t + 1, by integer bounds on the cubes |
| Sha256Constants.InitialWordsAreSquareRoots | src/spell_usability_discovery.cpp:277-293 | the eight initial words are the same of the square roots of the first eight primes |
| Sha256Example.DigestOfAbc | src/spell_usability_discovery.cpp:277-427 | the digest of "abc" is the published one, through padding, all 64 words of the schedule and all 64 rounds |
| FileHash.ComputeFileSha256 | src/spell_usability_discovery.cpp:452-502 | hashing a file read by read gives the lower-case text of the digest of everything delivered up to the empty read, and nothing when a read fails before |
| FileHash.ContentsOfChunks | src/spell_usability_discovery.cpp:475-485 | the contents do not depend on how the file is cut into nonempty reads |
| FileHash.NoContentsIffFailed | src/spell_usability_discovery.cpp:475-485 | there is no hash if and only if a read fails before the end, behind nonempty reads only |
| FileHash.ContentsEndAtEmptyRead | src/spell_usability_discovery.cpp:475-485 | whatever comes behind an empty read does not count |
| FileHash.HexTextSpells | src/spell_usability_discovery.cpp:493-500 | each byte is two lower-case digits, high half first, whose values make the byte |
| FileHash.HexTextIsInjective | src/spell_usability_discovery.cpp:493-500 | the text tells the bytes |
| FileHash.FingerprintMatchesIff | src/spell_usability_discovery.cpp:522-524 | the texts agree if and only if the digests do |
| Relocation.TryMatchRelocatableInstruction | src/spell_usability_discovery.cpp:713-790 | an instruction matches exactly when its form is one of the six, its leading bytes agree and its 32-bit operand differs by the delta; it consumes the whole instruction |
| InstructionForms.RecognisedIffEncoded | src/spell_usability_discovery.cpp:713-790 | an operand is recognised k bytes into the code at a place if and only if an instruction stands there, encoded from opcode, register, scale and index numbers, whose last four bytes are k bytes in |
| Relocation.BytesMatchWithModuleRelocation | src/spell_usability_discovery.cpp:792-832 | the greedy loop accepts exactly what the scan accepts from the start, with the 32-bit signed delta |
| Relocation.ScanIsSound | src/spell_usability_discovery.cpp:812-831 | everything a scan accepts are operands of disjoint recognised instructions that moved by the delta, all other bytes equal |
| Relocation.AcceptedImagesAreRelocations | src/spell_usability_discovery.cpp:792-832 | soundness for the whole comparison, with the fields it accepted as witness |
| Relocation.OriginalIsDetermined | src/spell_usability_discovery.cpp:699-711 | image, accepted fields and delta leave one possible original |
| Relocation.OnlyTheOperandItselfShowsTheDelta | src/spell_usability_discovery.cpp:699-711 | a window laid off an operand never differs by the aligned delta, with or without wrap |
| Relocation.MatchIsNextOperand | src/spell_usability_discovery.cpp:713-790 | for every nonzero delta, whatever form matches at a scan position is the next moved operand |
| Relocation.ScanFindsEveryOperand | src/spell_usability_discovery.cpp:812-831 | the greedy scan of a relocated image succeeds and consumes exactly the moved operands |
| Relocation.LoadedImageAcceptedIffNoWrap | src/spell_usability_discovery.cpp:792-832 | an image whose operands a loader moved modulo 2^32 by a multiple of 64 KiB is accepted if and only if no operand wrapped |
| Relocation.AcceptedIffRelocated | src/spell_usability_discovery.cpp:792-832 | accepted if and only if the differences are operands of disjoint recognised instructions, each moved by the load delta, for every base but the preferred one |
| Relocation.AcceptedAtPreferredBase | src/spell_usability_discovery.cpp:792-803 | at the preferred base 0x0040_0000 a nonempty image is accepted if and only if nothing differs |
| Relocation.HighLoadIsRejected | src/spell_usability_discovery.cpp:805-831 | every image loaded at a 64 KiB boundary from 0x8040_0000 on with an operand that points into it is rejected |
| Relocation.RejectedLoad | src/spell_usability_discovery.cpp:792-832 | push 0x0040_1000, loaded at 0x9000_0000, is such an image |
| MarkerScan.FindMarker | src/fingerprint.cpp:206-211 | the search finds a marker exactly when it occurs |
| MarkerScan.FindKnownMarkers | src/fingerprint.cpp:206-211 | both flags are containment of the build date and the build time |
| MarkerScan.CarryIsEnough | src/fingerprint.cpp:147-185 | a marker that straddles a read occurs in the window of carried and new bytes |
| MarkerScan.ScanChunk | src/fingerprint.cpp:166-184 | one round finds what occurs so far and carries the last ten bytes, within the window buffer |
| MarkerScan.StoppingEarly | src/fingerprint.cpp:162-175 | leaving the loop early answers the same as reading on |
| MarkerScan.ScanFile | src/fingerprint.cpp:120-189 | each flag is containment in everything the file delivered, however it was cut; failure exactly for an unacceptable size or a failed read before both markers were seen |
| CacheText.OneKeyIffSameName | src/multiclass_cache.cpp:43-55 | two names have one key if and only if their lengths agree and at each place they have the same character or one ASCII letter in its two cases |
| CacheText.KeyOfKey | src/multiclass_cache.cpp:43-55 | the key of a name is the name without upper-case letters, and its own key |
| CacheText.KeyEndsAtNul | src/multiclass_cache.cpp:46-49 | what follows a NUL does not count |
| CacheText.ParseHexU32 | src/multiclass_cache.cpp:133-161 | accepts exactly 0x-prefixed nonempty digit strings whose value fits 32 bits, and returns that value |
| CacheText.HexFieldIff | src/multiclass_cache.cpp:133-161 | the fields accepted as a given mask are 0x or 0X and the digits of that mask in either case, with any number of leading zeros |
| CacheText.SixteenDigits | src/multiclass_cache.cpp:143-151 | the sixteen digits in order, in either case, and no other character |
| CacheText.HexFieldOfMask | src/multiclass_cache.cpp:352-360 | eight printed digits parse back to the mask, for every 32-bit mask |
| CacheText.AtoiOfDecimal | src/multiclass_cache.cpp:362-363 | a printed class id parses back to itself |
| CacheText.LinesCons | src/multiclass_cache.cpp:192-202 | splitting at newlines undoes joining with newlines |
| CacheFormat.ParseCacheEntries | src/multiclass_cache.cpp:163-291 | the line loop succeeds exactly on the three headers and yields the fold of its accepted lines into the entries |
| CacheFormat.UpsertInPlace | src/multiclass_cache.cpp:260-282 | the first entry of that name is overwritten in place, or the entry goes to the end |
| CacheLines.ThreeHeaders | src/multiclass_cache.cpp:185-190 | the three headers, told apart by their last character |
| CacheLines.ParseLineIff | src/multiclass_cache.cpp:204-258 | a line is accepted as an entry if and only if it is its joined fields: name and mask in version 1, a class id of 1 to 255 behind them in version 2, a server behind it in version 3 |
| CacheFormat.EntriesAreAnOrderedMap | src/multiclass_cache.cpp:260-282 | each name once, at the rank of its first line, with the contents of its last |
| CacheFormat.ParseIsAnOrderedMap | src/multiclass_cache.cpp:163-291 | any accepted file, of any version, parses to the ordered map of its accepted lines, names unique |
| CacheFormat.RejectedLineIsInert | src/multiclass_cache.cpp:192-288 | deleting a rejected line from a file, with its newline or as the last line without one, leaves the parse result unchanged |
| CacheFormat.PrintedLineParses | src/multiclass_cache.cpp:352-367 | a printed entry parses back field for field, or is rejected when it lacks a class id or a server |
| CacheFormat.ParseOfPrint | src/multiclass_cache.cpp:337-371 | parsing a printed file gives exactly the complete entries, merged by name |
| CacheFormat.ParsedEntriesArePrintable | src/multiclass_cache.cpp:163-291 | everything read from a file can be written again without changing its meaning |
| CacheExamples.PrintedFile | src/multiclass_cache.cpp:345-367 | the text of a written file, byte for byte |
| Sorting.Sort | src/multiclass_cache.cpp:338-343 | a rearrangement with nothing out of place, for any order with ties |
| MulticlassCache.NamesAreOrdered | src/multiclass_cache.cpp:341-343 | the comparison of normalised names is an order the sort may be given |
| MulticlassCache.BeforeIsLexicographic | src/multiclass_cache.cpp:341-343 | the first different character decides, and a proper prefix comes first |
| MulticlassCache.WrittenInOrder | src/multiclass_cache.cpp:338-371 | a written file lists its entries in that order of their lower-cased names |
| MulticlassCache.CacheFile.ReadCacheEntries | src/multiclass_cache.cpp:293-335 | a missing, oversized or foreign file reads as no entries |
| MulticlassCache.CacheFile.StoreCharacterClassMask | src/multiclass_cache.cpp:565-611 | stored exactly when both names are nonempty and the write succeeds; the file then holds a sorted printing of the entries with the new one in place |
| MulticlassCache.CacheFile.TryLookupCharacterClassMask | src/multiclass_cache.cpp:472-514 | the mask of the entry of that name, unless server or class id contradict it |
| MulticlassCache.TryLookupUniqueClassMask | src/multiclass_cache.cpp:516-563 | answers a mask if and only if some entry matches class and server and all that match agree |
| MulticlassCache.OtherNamesAreKept | src/multiclass_cache.cpp:565-611 | a store leaves every other name its complete entry |
| MulticlassCache.StoredNameIsReplaced | src/multiclass_cache.cpp:565-611 | with the name on no other server, the new entry is found, if it is complete |
| MulticlassCache.OneOfTwoLines | src/multiclass_cache.cpp:586-608 | with the name on another server, the answer is one of the two lines |
| MulticlassCache.StoreStepExact | src/multiclass_cache.cpp:565-611 | these three together: every name, after a store of names that fit on a line into a file the reader takes in |
| CacheRuns.OutcomeSize | src/multiclass_cache.cpp:337-371 | whether the written file stays within 64 KiB does not depend on the sort |
| CacheRuns.OldLineMayWin | src/multiclass_cache.cpp:338-343 | with the name on another server, some permitted order of the lines loses a store that reports success |
| CacheRuns.NewLineMayWin | src/multiclass_cache.cpp:338-343 | and some permitted order loses the other server's entry |
| CacheRuns.TakesEffectIffSafe | src/multiclass_cache.cpp:565-611 | on any file and for any call, every permitted outcome finds the new entry if and only if the names fit on a line, the class id does not narrow to zero, the name is on no other server and the file stays within 64 KiB |
| CacheRuns.OversizedFileIsForgotten | src/multiclass_cache.cpp:317-321 | a store that takes the file past 64 KiB makes every name unreadable, and the next store writes its own entry only |
| CacheRuns.WellBehavedRunHolds | src/multiclass_cache.cpp:565-611 | after a run of safe stores the file holds exactly the stored entries, and every name reads as its last store |
| CacheRuns.KeepsMapIffWellBehaved | src/multiclass_cache.cpp:565-611 | over every sequence of calls from an absent file: every permitted run reads as the map to the last store after every call if and only if every call is safe, which is decided by the calls alone |
| CacheLookups.LookupIsLastStore | src/multiclass_cache.cpp:472-514 | after every well-behaved run a lookup answers a mask if and only if the last store under that name, in any case, had it, with the class id asked for or none asked, and the server asked for or none asked |
| CacheLookups.MatchesAreLastStores | src/multiclass_cache.cpp:533-550 | after such a run an entry matches a class if and only if the last store of some name had this class, a mask that holds it and the server asked for |
| CacheLookups.UniqueMaskIsOfLastStores | src/multiclass_cache.cpp:516-563 | and the lookup by class answers the mask on which all these stores agree, if there is one |
| CacheExamples.VersionOneAnswers | src/multiclass_cache.cpp:489-506 | a version 1 file answers for its character in any case and for any class, as long as no server is asked for, and for nobody else |
| CacheExamples.SecondServerLost | src/multiclass_cache.cpp:586-608 | a file that holds one store, a second store of the name on another server that succeeds, and the name found on the first server only |
| CacheExamples.TwoServersExample | src/multiclass_cache.cpp:586-608 | character "a" on servers "x" and "y" is such a case |
| MulticlassCache.OneServerPerName | src/multiclass_cache.cpp:260-271 | no file answers one name for two servers |
| MulticlassCache.RoundTrip | src/multiclass_cache.cpp:337-371 | printing complete entries with distinct names in order and parsing returns them, field for field |
| MulticlassCache.UniqueNamesSortOneWay | src/multiclass_cache.cpp:338-343 | distinct names leave the sort one possible result |
| MulticlassCache.RewritingIsStable | src/multiclass_cache.cpp:337-371 | reading a written file and writing it again gives the same bytes |
| MulticlassCache.UpgradeLosesOtherNames | src/multiclass_cache.cpp:227-257 | after the first store into a version 1 or 2 file no other name is found |
| CacheExamples.UpgradeLosesIt | src/multiclass_cache.cpp:227-257 | a version 1 file that answers a name before a store of another one and not after |
| CacheExamples.AnotherNameExample | src/multiclass_cache.cpp:227-257 | character "a" in the file and a store of "b" is such a case |
| TimedCast.Tracker.ClearTimedCastState | src/packet_observer.cpp:308-311 | clears the cast in progress and leaves the window alone |
| TimedCast.Tracker.ObserveSend | src/packet_observer.cpp:1469-1472 | only a decoded, successful cast request opens the window, for two seconds |
| TimedCast.Tracker.ConsumeLocalBeginCastWindow | src/packet_observer.cpp:318-332 | open exactly until its deadline, and closed by the question |
| TimedCast.Tracker.ObserveTimedCastPacket | src/packet_observer.cpp:334-363 | an interrupt clears; a well-formed begin-cast starts a cast or clears; anything else changes nothing |
| TimedCast.Tracker.ObserveReceive | src/packet_observer.cpp:1338-1343 | entering a world clears too |
| TimedCast.Tracker.IsTimedCastActive | src/packet_observer.cpp:1647-1660 | active until the deadline, then cleared |
| TimedCast.Tracker.GetTimedCastSpellId | src/packet_observer.cpp:1662-1668 | the spell of the active cast, zero when there is none |
| TimedCast.RunIsExplained | src/packet_observer.cpp:308-363 | after any run the state is explained by the latest unused send and the undisturbed begin-cast |
| TimedCast.ActiveIffJustified | src/packet_observer.cpp:1647-1668 | with a monotone clock a cast is reported if and only if a send and a begin-cast justify it, undisturbed and within its time, and the spell is that packet's |
| TimedCast.JustifiedTimes | src/packet_observer.cpp:81-84 | a justification has the begin-cast within 2000 ms of the send and the question within cast time plus 250 ms |
| TimedCast.SendJustifiesOneCast | src/packet_observer.cpp:318-332 | one send justifies at most one cast over a whole run |
| CastPackets.EventOfIff | src/packet_observer.cpp:334-363 | a begin-cast packet begins the spell and cast time it starts with, little-endian with two caster bytes between; interrupt and enter-world clear with any payload; nothing else means anything |
| CastPackets.RequestedCastIsReported | src/packet_observer.cpp:1647-1668 | after any run, a successful request and then such a packet: taken in within 2000 ms its spell is reported up to 250 ms past its cast time, later nothing is |
| CorrelationBudget.StepKeepsInvariant | src/packet_observer.cpp:189-208 | each atomic load, swap, store, draw and reset keeps the conservation invariant |
| CorrelationBudget.BudgetIsConserved | src/packet_observer.cpp:189-240 | in every interleaving, with spurious failures, arms between load and swap, and resets at any moment, budget left plus consumptions since the last store is what that store put there, every refusal means none was left, and every activation number is the counter's |
| CorrelationBudget.TicketsAreDistinct | src/packet_observer.cpp:1670-1694 | between two stores no ticket is handed out twice, so at most the budget succeed |
| CorrelationBudget.ReportIsExactIff | src/packet_observer.cpp:1619-1633 | every report of every run belongs to one arm; with no reset since its draw it is the number drawn plus the draws since, so exact if and only if there were none before the read |
| CorrelationBudget.ReportIsExactAfterResetIff | src/packet_observer.cpp:1233-1243 | with a reset in between it is the number of draws since the last one, so exact if and only if that is the number drawn |
| CorrelationBudget.ReportMayBeNewer | src/packet_observer.cpp:1619-1633 | a run in which a consumer of the first arm reports the second activation |
| CorrelationBudget.ReportMayBeOlder | src/packet_observer.cpp:1233-1243 | a run in which a consumer of the first arm reports activation zero after an initialisation |
| Publication.StepKeepsInvariant | src/server_auth_stats_observer.cpp:157-179 | whoever has raised, is about to raise or has seen the flag finds a published value, after every atomic step |
| Publication.RunKeepsInvariant | src/server_auth_stats_observer.cpp:157-179 | the same over every interleaving of writers and readers |
| Publication.SetOnlyFieldIsAlwaysGenuine | src/server_auth_stats_observer.cpp:157-160 | every snapshot that reports the class mask carries a mask some payload published |
| Publication.ClearableFieldIsGenuineIff | src/server_auth_stats_observer.cpp:162-179 | for the other fields this holds if and only if the payloads leave no stray zero |
| Publication.StrayRun | src/server_auth_stats_observer.cpp:407-421 | the run in which a reader sees the flag of one payload and the zero of the next |
| Publication.LateSnapshotReports | src/server_auth_stats_observer.cpp:157-160 | once a publication of the class mask has been completed, every snapshot begun after it, in every interleaving, reports a published mask |
| Publication.QuietSnapshotIsExact | src/server_auth_stats_observer.cpp:407-421 | a snapshot of any field begun while no payload is being published, and finished before the next, reports exactly what the field holds |
| Publication.UndisturbedPublication | src/server_auth_stats_observer.cpp:157-179 | which, after a writer nobody overtook, is what its payload said, absence included |
| PacketReader.TryReadCString | src/remote_multiclass_identity.cpp:58-82 | the byte loop reads up to the first NUL and fails when there is none |
| PacketReader.CStringIsExact | src/remote_multiclass_identity.cpp:58-82 | a string is read if and only if the packet holds it there, free of NUL and followed by one |
| PacketReader.U32IsExact | src/remote_multiclass_identity.cpp:42-56 | a word is read if and only if its four bytes, least significant first, stand there |
| RemoteIdentity.ParsePayload | src/remote_multiclass_identity.cpp:110-168 | the cursor loop gives exactly the specified result: validity, all four counts, the entries, and no entry when invalid |
| ClassMask.HasBitOfMask | src/multiclass_identity.cpp:156-159 | the bits of the mask of a set of classes are its members |
| ClassMask.HasClassOfMask | src/multiclass_identity.cpp:156-159 | a mask has a class if and only if the class is 1 to 16 and in the set |
| ClassMask.EveryMaskIsOfASet | src/multiclass_identity.cpp:134-140 | every 32-bit mask is the mask of a set of classes |
| ClassMask.PlayableIffClasses | src/multiclass_identity.cpp:152-154 | a mask is playable if and only if its classes are at most 16 |
| RemoteIdentity.AcceptableIffMember | src/remote_multiclass_identity.cpp:84-96 | an entry is acceptable if and only if it is named, its mask is of classes 1 to 16 only and its native class is one of them |
| RemoteIdentity.DecodeEntryIsExact | src/remote_multiclass_identity.cpp:133-144 | an entry decodes if and only if its encoding stands there |
| RemoteIdentity.DecodeIsExact | src/remote_multiclass_identity.cpp:131-164 | a list of entries decodes if and only if its encoding stands there |
| RemoteIdentity.DecodedCount | src/remote_multiclass_identity.cpp:131-153 | the count kept by a rejected packet reaches the declared one exactly when all entries decode |
| RemoteIdentity.BoundIsSafe | src/remote_multiclass_identity.cpp:98-106 | the early bound of nine bytes an entry turns away no packet that decodes |
| RemoteIdentity.ParseOfCarried | src/remote_multiclass_identity.cpp:110-168 | a packet that carries entries is valid, accepted plus rejected is parsed is declared, and the entries are the acceptable ones in order |
| RemoteIdentity.ValidIffCarries | src/remote_multiclass_identity.cpp:110-168 | a packet is valid if and only if it starts with the encoding of some list, and of only one |
| RemoteIdentity.ParseOfEncode | src/remote_multiclass_identity.cpp:110-168 | parsing an encoded list, with or without bytes after it, returns its acceptable members |
| IdentityStore.IdentityStore.StoreCharacterClassMask | src/remote_multiclass_identity.cpp:170-207 | an acceptable record under usable names replaces its own key only; anything else is refused; the eight-bit class id loses nothing |
| IdentityStore.IdentityStore.TryLookupCharacterClassMask | src/remote_multiclass_identity.cpp:209-248 | the map entry of the two lower-cased names, when no class or its class is expected; the second acceptability test never fails |
| IdentityStore.IdentityStore.Clear | src/remote_multiclass_identity.cpp:250-253 | empties the map |
| IdentityStore.IdentityStore.HandlePacket | src/packet_observer.cpp:1090-1156 | a packet of 4 to 4096 bytes writes its acceptable entries for the current server, in order; the count is of those stored |
| IdentityStore.AsMapHas | src/remote_multiclass_identity.cpp:225-245 | the first match in the vector is the map's value, because keys are unique |
| IdentityStore.AsMapOverwritten | src/remote_multiclass_identity.cpp:191-198 | overwriting an entry in place changes its key only and keeps keys unique |
| IdentityStore.AsMapAppended | src/remote_multiclass_identity.cpp:200-206 | appending an absent key adds it only and keeps keys unique |
| IdentityStore.RunIsLastWrite | src/remote_multiclass_identity.cpp:170-253 | after any writes and clears a key holds the record of its last write since the last clear, if and only if there is one |
| IdentityStore.LookupIsLastAnnouncement | src/packet_observer.cpp:1090-1156 | the same for lookups after any run of packets, good or malformed, and clears |
| IdentityStore.PacketWritesWhatWasSent | src/packet_observer.cpp:1146-1156 | a packet writes each acceptable entry it carries, and on a named server none is refused |
| IdentityStore.OneKeyIffSameParts | src/remote_multiclass_identity.cpp:178-189 | two pairs of server and name have one key if and only if each part agrees without regard to case; an empty or missing part gives none |
| IdentityStore.AnnouncedIsFound | src/packet_observer.cpp:1090-1156 | after any run, a packet with an acceptable entry for a character makes the lookup of server and character, in any case, answer the mask of the last such entry, if its class or none is expected |
| IdentityStore.OtherAnswersAreKept | src/packet_observer.cpp:1090-1156 | and changes no other answer |
| IdentityStore.OtherPacketsChangeNothing | src/packet_observer.cpp:1090-1156 | a packet that carries no list of entries, is longer than 4096 bytes or comes without a server changes no answer |
| IdentityStore.NothingAfterClear | src/remote_multiclass_identity.cpp:250-253 | after a clear nothing is found |
| ServerAuthStats.ReadU64Le | src/server_auth_stats_observer.cpp:106-127 | the byte loop reads the little-endian 64-bit value, in bounds |
| ServerAuthStats.Account | src/server_auth_stats_observer.cpp:325-376 | one pass of the switch turns the summary of the entries so far into that of one more |
| ServerAuthStats.ReadStat | src/server_auth_stats_observer.cpp:304-323 | within the length test neither offset wraps and neither read fails |
| ServerAuthStats.ParseEntries | src/server_auth_stats_observer.cpp:303-377 | the loop ends with the summary of all entries: last in-range value, duplicate from the second on, counts |
| ServerAuthStats.ParsePayload | src/server_auth_stats_observer.cpp:270-382 | valid, or malformed for exactly one of four reasons, with the declared count kept |
| ServerAuthStats.FieldOfSnoc | src/server_auth_stats_observer.cpp:325-376 | one more entry changes the field of its own key, if in range, and no other |
| ServerAuthStats.SummarySnoc | src/server_auth_stats_observer.cpp:325-376 | how every field and both counters move with one more entry; an oversized pet id counts on both sides |
| ServerAuthStats.ParseOfEncode | src/server_auth_stats_observer.cpp:270-382 | parsing sent statistics gives exactly their summary |
| ServerAuthStats.ValidIffEncoding | src/server_auth_stats_observer.cpp:289-301 | valid if and only if the length is 4 + 12 * count, if and only if it is an encoding |
| ServerAuthStats.Observer.ObserveReceivePayload | src/server_auth_stats_observer.cpp:384-405 | a malformed payload changes nothing; a valid one replaces every field, the class mask only if it carried one |
| ServerAuthStats.Observer.StoreClassesBitmask | src/server_auth_stats_observer.cpp:157-160 | value and flag set, nothing else |
| ServerAuthStats.Observer.StoreActivatedSkillMasks | src/server_auth_stats_observer.cpp:162-167 | both masks and flags as parsed, nothing else |
| ServerAuthStats.Observer.StoreExtraPetHp1000 | src/server_auth_stats_observer.cpp:169-174 | both slots as parsed, nothing else |
| ServerAuthStats.Observer.StoreFocusedPetId | src/server_auth_stats_observer.cpp:176-179 | id and flag as parsed, nothing else |
| ServerAuthStats.Observer.GetSnapshot | src/server_auth_stats_observer.cpp:407-422 | all fields as published |
| ServerAuthStats.ParsedFits | src/server_auth_stats_observer.cpp:334-371 | the narrowing of class mask and pet id to 32 bits loses nothing |
| ServerAuthStats.MirrorsLastValid | src/server_auth_stats_observer.cpp:384-405 | after any run, skill masks, pet hit points and focused pet are those of the last valid payload, including absence |
| ServerAuthStats.NothingBeforeFirstValid | src/server_auth_stats_observer.cpp:384-391 | malformed payloads alone leave nothing published |
| ServerAuthStats.ClassMaskIsNeverLost | src/server_auth_stats_observer.cpp:395-397 | after any run, the class mask is that of the last valid payload with an in-range one, and known as soon as there was one |
| StatsSent.PublishedFromSent | src/server_auth_stats_observer.cpp:384-405 | whatever came before, a payload publishes the last value sent under keys 2, 3, 100, 101 and 102, or its absence, and under key 1 if it sends one that fits 32 bits |
| StatsSent.OthersPublishNothing | src/server_auth_stats_observer.cpp:384-391 | a payload that is no list of entries publishes nothing |
| StatsSent.MalformedReasons | src/server_auth_stats_observer.cpp:270-301 | which reason a malformed payload is given, by its length and declared count |
| SpawnPacket.ParseSingleSpawnPayload | src/multipet_spawn_observer.cpp:167-229 | the cursor walk gives name, id and owner exactly when every part fits |
| SpawnPacket.ShortIsUndecodable | src/multipet_spawn_observer.cpp:176-178 | the early length test turns away nothing that would decode |
| SpawnPacket.DecodeOfEncode | src/multipet_spawn_observer.cpp:183-228 | a payload that starts with an encoded spawn yields its name, id and owner |
| SpawnPacket.DecodeIsExact | src/multipet_spawn_observer.cpp:167-229 | a payload is accepted if and only if it starts with an encoded spawn that has a name |
| PetRoster.Roster.ObserveSpawnPayload | src/multipet_spawn_observer.cpp:231-255 | a spawn with an owner updates its entry in place or is appended with the next order; any other payload changes nothing |
| PetRoster.Roster.ObserveDeleteSpawnPayload | src/multipet_spawn_observer.cpp:257-280 | the entry of that id, if any, becomes inactive and keeps its place |
| PetRoster.Roster.FindEntryBySpawnId | src/multipet_spawn_observer.cpp:109-117 | the position of the id, or past the end |
| PetRoster.Roster.GetSnapshot | src/multipet_spawn_observer.cpp:282-330 | filter, sort and fill give the first two active pets of the focused pet's owner, in vector order, with their display names |
| PetRoster.Roster.Clear | src/multipet_spawn_observer.cpp:332-338 | the roster is empty and orders start at one |
| PetRoster.StepKeeps | src/multipet_spawn_observer.cpp:231-280 | every event keeps ids unique and orders 1, 2, 3, ... along the vector |
| Sorting.SortIsDetermined | src/multipet_spawn_observer.cpp:312-320 | without ties there is one sorted arrangement |
| PetRoster.CandidatesAreSorted | src/multipet_spawn_observer.cpp:303-320 | on candidates of a reachable roster the sort is the identity |
| PetRoster.RosterReflectsHistory | src/multipet_spawn_observer.cpp:231-280 | after any run the vector lists the pets first seen since the last clear, in that order, active with owner and name exactly as the history says |
| PetRoster.SnapshotFromHistory | src/multipet_spawn_observer.cpp:282-330 | the snapshot is a function of the history alone: the first two pets first seen, still there, of the focused pet's owner, other than it |
| PetRoster.RespawnKeepsRank | src/multipet_spawn_observer.cpp:241-252 | a pet that goes and comes back leaves the roster as if it had only been seen again |
| PetHistory.SpawnEventIff | src/multipet_spawn_observer.cpp:231-240 | a spawn packet is seen as a pet if and only if it starts with an encoded spawn that has a name and an owner; id, owner and name are those |
| PetHistory.DeleteEventIff | src/multipet_spawn_observer.cpp:257-270 | a delete packet takes away the pet whose id it starts with |
| PetHistory.SuffixIsCut | src/multipet_spawn_observer.cpp:128-134 | a name in front of "000" is shown without it |
| PetHistory.OtherNamesAreShown | src/multipet_spawn_observer.cpp:128-134 | every other name is shown as it is |
| PetHistory.PetNowIff | src/multipet_spawn_observer.cpp:241-280 | a pet is there with an owner and a name if and only if it was last seen so, and neither a delete nor a clear came since |
| PetHistory.FirstSeenIff | src/multipet_spawn_observer.cpp:241-252 | the vector has the pets with a first sight since the last clear |
| PetHistory.FirstSeenInOrder | src/multipet_spawn_observer.cpp:241-252 | in the order of their first sights |
| PetHistory.SlotsFromHistory | src/multipet_spawn_observer.cpp:282-330 | the first slot shows the companion of the focused pet first seen, the second the one seen next, and neither shows anything else |
| PetHistory.NoSlotsWithoutFocus | src/multipet_spawn_observer.cpp:282-300 | without a focused pet that is there both slots are empty |
| WhoList.TryReadEntry | src/packet_observer.cpp:952-997 | one row is read exactly when all its parts fit, with name and class id |
| WhoList.EntryTakesRoom | src/packet_observer.cpp:952-997 | a row takes 51 bytes or more |
| WhoList.Players | src/packet_observer.cpp:898-1031 | no response that is looked at yields more than 79 players, whatever count it declares |
| WhoList.DecodeOfRow | src/packet_observer.cpp:952-997 | an encoded row reads back as its player |
| WhoList.DecodeEntryIsExact | src/packet_observer.cpp:952-997 | a row is read if and only if an encoded row stands there |
| WhoList.PlayersAreTheLongestRun | src/packet_observer.cpp:933-1031 | a response, whole or cut short, yields exactly the players of the longest run of encoded rows behind its header, up to the declared count |
| WhoList.PlayersOfResponse | src/packet_observer.cpp:933-1031 | in particular those of all declared rows, when it holds them |
| WhoList.Capture.Begin | src/packet_observer.cpp:396-401 | nothing captured, nothing pending |
| WhoList.Capture.Append | src/packet_observer.cpp:403-430 | below the cap the entry goes behind the others, its name cut to 63 bytes and marked so; at the cap nothing changes |
| WhoList.Capture.ObserveResponse | src/packet_observer.cpp:894-1031 | an acceptable response replaces the capture by the entries of all its players, none dropped by the cap; any other changes nothing |
| WhoList.Capture.CapturePlayers | src/packet_observer.cpp:933-1031 | the row loop captures every player up to the first row that does not decode |
| WhoList.Capture.TryConsume | src/packet_observer.cpp:1696-1717 | hands out the first pending named entry, or nothing when none is pending |
| WhoList.NothingLostOrRepeated | src/packet_observer.cpp:396-430 | in every interleaving of appends and consumers, what was delivered followed by what is pending is the named part of what was appended |
| WhoList.NamedPlayers | src/packet_observer.cpp:1706-1714 | the named entries are those of the players with a name, in packet order |
| WhoList.ConsumersGetPlayersInOrder | src/packet_observer.cpp:1696-1717 | until the next response, consumers are handed the named players of this one in packet order, each at most once |
| WhoRows.CapturedRows | src/packet_observer.cpp:403-430 | a response of 64 to 4096 bytes is captured as the entries of its rows, each with its class, its place, its name up to 63 bytes and the mark that it was cut |
| WhoRows.ConsumersSeeRows | src/packet_observer.cpp:1696-1717 | until the next response consumers are handed the named rows of this one in order, each at most once, and all of them when nothing is pending |

## Left out

* Windows calls: file handles, `ReadFile`, `MoveFileExW`, INI lookup, PE headers, page protection and access faults. A file is a string or a sequence of reads, replacing it is one assignment that may fail, and copying a payload always succeeds. A read of an existing cache file that fails is not modelled.
* All logging and the log-rate rules, and the metadata the packet observer only logs.
* Which opcode leads to which handler, except in the timed-cast tracker.
* `src/hook_manager.cpp`, `src/monomyth_pet_window.cpp`, `src/dinput_proxy.cpp`, `src/dllmain.cpp`: calls into the client, patching and export forwarding.
* `src/class_display_discovery.cpp`: a second copy of the relocation matcher.
* `src/runtime_capabilities.cpp`, `src/spell_usability_discovery_policy.cpp`, `src/opcode_reference.cpp` and the fixed tables and loops over sixteen classes: only easy members.
* `src/receive_dispatch_discovery.cpp`: heuristic thresholds without a specification.
* Locale and encoding: letters are lowered in ASCII.
* Bit tests and unions of disjoint bits are written as arithmetic, except in the hash and the instruction masks, which use bit vectors.
- CacheText.AtoiOfDecimal: integer overflow in `atoi`, which C leaves undefined, does not occur in the model.
- Relocation.BytesMatchWithModuleRelocation: for bases 0x8000_0000 to 0x803F_FFFF the signed subtraction overflows, which C++ leaves undefined; the model wraps.
- FileHash.FingerprintMatchesIff: the value of the pinned digest is not part of the model.
- Sorting.Sort: the order of entries that tie is left open, as the C++ standard leaves it for `std::sort`, and the algorithm is an insertion sort; a library that keeps short ranges stable always writes the newer line last there. The theorems range over every choice the contract allows.
- MulticlassCache.CacheFile.TryLookupCharacterClassMask: a null name or server pointer is the empty string, which the code treats alike.
- TimedCast.ActiveIffJustified: each call is one step, so two threads inside the tracker at once are not modelled; the clock stays below 2^63.
- CorrelationBudget.BudgetIsConserved: the two or three detail fields stored beside a budget are not modelled, they can be as new as the activation number can; nor is the wrap of the activation counter after 2^64 draws.
- Publication.SetOnlyFieldIsAlwaysGenuine: one field at a time; that a snapshot mixes fields of different payloads is not stated.
- SpawnPacket.ParseSingleSpawnPayload: the partly filled entry left behind by a failed parse, which no caller looks at.
- PetRoster.Roster.GetSnapshot: the focused pet comes in as a parameter instead of from the statistics observer, and the two flags of a slot are one.
- ServerAuthStats.ParsePayload: the four reasons a read fault or an offset overflow would give are absent, since they cannot happen.
- WhoList.Capture.ObserveResponse: the row's fields that are only logged are read for their presence but not kept.
