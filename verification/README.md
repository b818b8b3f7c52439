# A Dafny model of the AOT toolchain and its measurement arithmetic

This project models the parts of the repository where a wrong answer would be silent, and proves
what those parts promise:

- **The WASI task runtime** (`WasiHost`, `WasiRun`, `WasiExecutor`). A guest is an arbitrary
  deterministic step machine; the host gives it stdin, a capped stdout, a counting stderr, a
  seeded byte stream and a pinned import table. Whole runs are compared in pairs: nothing a node
  may choose for itself (its clocks, entropy, diagnostics cap, speed) reaches the guest.
- **Two binary readers and their writers** (`Elf`, `ElfLayout`, `Features`, `FeatureWriter`,
  `Stubs`). The ELF64 screen (System V gABI, chapters 4 and 5) and the WebAssembly
  `target_features` reader (WebAssembly Core Specification, sections 5.2.2, 5.5.2 and 5.5.3), each
  proved against a description of a file, with round trips and prefix stability.
- **The lifting driver** (`Text`, `Image`, `Scan`, `CacheKey`, `LiftRecord`, `Lift`, `DockerGate`, `Cli`). What the
  world answers (client outcomes, clock readings, file results) is an arbitrary trace; safety and
  time bounds hold over every trace.
- **The measurement arithmetic** (`Stats`, `Harness`, `Connectivity`, `PerfGate`, `Pricing`). Order
  statistics, a gate whose pass has to mean something, and banded pricing.

`Common` and `Ordering` hold what these share. Code that works step by step is a method with loops
or a class with mutable fields, proved equal to a function of its inputs or of its old state; the
laws are lemmas about those functions. Randomness, clocks, the blockstore, SHA-256, DAG-CBOR
encoding and the WASI shim are parameters: arbitrary functions, with injectivity assumed only where
a `requires` says so.

## Where a promise ends

The code differs here from its documentation, or keeps a promise only up to a point. The model
follows the code in each case.

- `tools/aot/stubs.ts:103` calls `acceptableElf` the smallest byte string the screen accepts. It is 192
  bytes long; a file of 64 bytes is accepted, and nothing shorter is (`Stubs.LeastAcceptedLength`).
- `tools/aot/stubs.ts:146` writes every length as one byte, so what it writes is a valid section
  exactly while the payload is shorter than 128 bytes (`Stubs.StubEncodesExactlyUnder128`).
- Moving the section count into section 0 leaves every fact alone except when section 0 is itself
  called `.eh_frame` and no unwind section has content (`ElfLayout.EscapesMakeNoDifference`): the
  count is then taken for the section's size.
- `packages/bench/src/stats.ts:22` labels small samples so that a tail percentile which is only the
  maximum is not taken for more. The label ends at 10 observations; the p95 can be nothing but the
  maximum up to 19 and the p99 up to 99, and the promise fails exactly there
  (`Stats.LabelledExactlyOutside`).
- The output cap is blamed only on a guest that ended. One that traps after a refused write is
  reported as trapped (`WasiExecutor.OverflowIsReportedAsTheHosts`).
- A passing gate vouches for exactly the inputs that no later one has the node count of; an earlier
  input at the same node count may be replaced by any other without a word
  (`PerfGate.ExactlyTheShadowedAreNeverLookedAt`).
- With falling rates splitting a purchase never pays (`Pricing.SplittingNeverPays`); under a free
  allowance it pays wherever anything has a price (`Pricing.AllowanceRewardsSplitting`).

## Model

| member | source | states |
|---|---|---|
| WasiHost.SeededStream.Fill | packages/aot/src/wasi-executor.ts:281-299 | a request gets the next bytes of one stream: byte i is byte i mod 32 of the digest of the seed and the little-endian 32-bit block number, whatever was asked before |
| WasiHost.StreamIgnoresRequestSizes | packages/aot/src/wasi-executor.ts:281-299 | over any sequence of request lengths the answers laid end to end are the same stream |
| WasiHost.FillAll | packages/aot/src/wasi-executor.ts:281-299 | the live stream object gives exactly those answers |
| WasiHost.StreamByteIs | packages/aot/src/wasi-executor.ts:281-299 | byte i of the stream, spelled out: byte i mod 32 of the digest of the seed followed by the block number in four bytes, least significant first, the number wrapping at 32 bits |
| WasiHost.TaskStdin.FdRead | packages/aot/src/wasi-executor.ts:465-470 | a read gives exactly as many bytes as were asked for and are left, the next ones, and stands behind them |
| WasiHost.CappedSink.FdWrite | packages/aot/src/wasi-executor.ts:516-526 | a write is kept whole or refused whole with ENOSPC and remembered; the cap is never exceeded |
| WasiHost.CappedSink.Bytes | packages/aot/src/wasi-executor.ts:528-536 | the result is every accepted write, end to end |
| WasiHost.DiagnosticSink.FdWrite | packages/aot/src/wasi-executor.ts:594-605 | every write is acknowledged in full; the head is kept up to the cap and the rest counted |
| WasiHost.DiagnosticSink.Text | packages/aot/src/wasi-executor.ts:607-616 | the diagnostic is the decoding of every retained byte, end to end |
| WasiRun.StderrKeepsTheHead | packages/aot/src/wasi-executor.ts:544-617 | after any number of steps of any guest, stderr holds the first min(cap, total) bytes written, and kept plus dropped is the total |
| WasiRun.StdoutIsAllOrOverflowed | packages/aot/src/wasi-executor.ts:473-542 | a sink that did not overflow holds every byte written to it; it overflowed exactly when more than the cap was written, even if later small writes were taken |
| WasiRun.ReadsAreFull | packages/aot/src/wasi-executor.ts:465-470 | one use of stdin: as much as was asked for and is left, nothing only at the end of the input |
| WasiRun.ReadsAreTheInput | packages/aot/src/wasi-executor.ts:465-470 | over any run the reads laid end to end are the input, from where stdin stood to where it stands |
| WasiRun.WritesAreWhole | packages/aot/src/wasi-executor.ts:516-605 | one use of stdout: taken whole or refused whole with ENOSPC; of stderr: always taken |
| WasiRun.PinnedMeans | packages/aot/src/wasi-executor.ts:326-401 | what a guest finds in its memory and its errno after every pinned call: the two fixed clocks, a resolution of 1, the next bytes of its stream, no events, refusals; and nothing else in its memory changed |
| WasiRun.ReplacedCallsAreAnsweredHere | packages/aot/src/wasi-executor.ts:326-401 | each of the ten replaced calls is answered as pinned, whatever the shim is, and the guest goes on with that answer |
| WasiRun.OtherCallsAreTheShims | packages/aot/src/wasi-executor.ts:833-896 | any other call is decided by the shim, step by step; an exit ends the run with its status, an end of the start function with 0 |
| WasiRun.CallsAreCounted | packages/aot/src/wasi-executor.ts:936-943 | over any run the count is the number of calls the guest made, the last one included |
| WasiRun.HostNeverLeaks | packages/aot/src/wasi-executor.ts:326-401 | one guest on two hosts with different clocks, entropy and stderr caps is given the same answers in the same order and is in lock step at every step (same calls, same uses of the descriptors, same stdin position, stdout and call count), for any two shims that behave alike on unpinned calls from related hidden states |
| WasiRun.StderrCapNeverLeaks | packages/aot/src/wasi-executor.ts:544-559 | two stderr caps on one host, whatever its shim remembers: the same answers and the same run, but for what is kept of stderr |
| WasiRun.ShimsMayRemember | packages/aot/src/wasi-executor.ts:840-852 | a shim with a running clock, a table of descriptors that can be closed and renumbered, and writes that go out buffer by buffer meets the hypothesis whatever its clock shows |
| WasiRun.StepInStep | packages/aot/src/wasi-executor.ts:326-401 | one step: the same answer to the guest, if any, and both sides in step again |
| WasiRun.CapIsInvisibleWhileItHolds | packages/aot/src/wasi-executor.ts:473-542 | a run that did not overflow is, step for step, the run under any other cap its output fits |
| WasiRun.DeadlineIsIrrelevantOnceOver | packages/aot/src/wasi-executor.ts:879-896 | a run that is over at two deadlines is the same run |
| WasiRun.EveryPinIsNeeded | packages/aot/src/wasi-executor.ts:226-237 | leave any function out of the pinned table, and on a shim made to answer that function out of its hidden state two hosts that differ in nothing else end one guest with different exit codes |
| WasiExecutor.LabelIdentifiesTheTask | packages/aot/src/wasi-executor.ts:262-267 | two tasks have the same entropy label exactly when they are the same module, input and shard |
| WasiExecutor.LabelIsSpelledOut | packages/aot/src/wasi-executor.ts:262-267 | the label is the domain tag, both CIDs and both shard numbers in decimal, a bar between them |
| WasiExecutor.EntropyIsTheTasks | packages/aot/src/wasi-executor.ts:262-299 | at any point of any run of a task, the bytes of a random_get are those of the stream seeded with the digest of the label of that very task |
| WasiExecutor.ServePinned | packages/aot/src/wasi-executor.ts:326-401 | the pinned imports: refusal before memory is known, bounds faults, fixed clocks, entropy from the task's stream, refusals |
| WasiExecutor.Serve | packages/aot/src/wasi-executor.ts:436-617 | the live descriptors, the stream, the import table and the shim take the host's turn exactly as the host machine does |
| WasiExecutor.Use | packages/aot/src/wasi-executor.ts:465-605 | one use of a live descriptor object is the use the machine makes of the value it keeps |
| WasiExecutor.RunGuest | packages/aot/src/wasi-executor.ts:833-896 | the objects of a run, driven by their own methods, go through the machine's run |
| WasiExecutor.Run | packages/aot/src/wasi-executor.ts:803-943 | every ending of a task, in the documented order of blame, as a function of the final state of its run |
| WasiExecutor.SuccessIsTheWholeOutput | packages/aot/src/wasi-executor.ts:898-943 | a task succeeds exactly when its guest ended with status 0 having written something that fits and decodes, and the value is decoded from every byte it wrote |
| WasiExecutor.OverflowIsReportedAsTheHosts | packages/aot/src/wasi-executor.ts:898-903 | the cap is blamed, before the exit status, exactly when the guest ended having written more than the cap; a guest that traps instead is blamed for its trap |
| WasiExecutor.DiagnosticsKeepTheHead | packages/aot/src/wasi-executor.ts:883-921 | a reported diagnostic is the text of the first min(cap, total) bytes the guest wrote, with the exact number of bytes it lacks |
| WasiExecutor.ConsumptionIsWhatWasRead | packages/aot/src/wasi-executor.ts:930-943 | a success reports as consumed what its guest read, which begins the input, and the input whole as input bytes |
| WasiExecutor.CostIsWhatWasUsed | packages/aot/src/wasi-executor.ts:936-943 | and as host calls the calls made, and as pages the whole pages of its memory |
| WasiExecutor.WhatStopsATask | packages/aot/src/wasi-executor.ts:803-832 | a task is refused for its shard, its module or its input, exactly when that is the first thing wrong with it |
| WasiExecutor.WhatStopsAModule | packages/aot/src/wasi-executor.ts:833-878 | a module that does not compile, or has no memory or no start function, is called so, and runs otherwise |
| WasiExecutor.EndingsAreNamed | packages/aot/src/wasi-executor.ts:879-943 | abandoned, trapped, nonzero exit, no output and not decodable, each exactly when the run stands, trapped, or wrote what it did |
| WasiExecutor.HostPolicyNeverReachesTheOutcome | packages/aot/src/wasi-executor.ts:544-559 | two nodes with one output cap, whose shims agree from where they start, report one outcome for one task, success or failure, whatever their clocks, entropy, diagnostics caps and deadlines, unless one gives up first |
| WasiExecutor.DiagnosticsCapNeverReachesTheOutcome | packages/aot/src/wasi-executor.ts:544-559 | on one node, with any shim at all, the diagnostics cap and the deadline change no outcome, unless the run is given up |
| WasiExecutor.CapOnlyDecidesWhetherItFits | packages/aot/src/wasi-executor.ts:473-542 | a success under one output cap is the identical success under exactly the caps its output fits |
| WasiExecutor.TwoSuccessesAgree | packages/aot/src/wasi-executor.ts:803-943 | no two nodes whose shims agree from where they start succeed on one task with different values, whatever their caps, clocks and deadlines |
| Elf.NameAt | packages/aot/src/elf.ts:228-236 | a name is the bytes up to the first NUL inside the string table |
| Elf.ParseSections | packages/aot/src/elf.ts:291-341 | the table is read or the first fault in it reported, with both gABI escapes, without leaving the file for any 64-bit offset and any stride |
| Elf.ScreenElf | packages/aot/src/elf.ts:357-452 | the screen rules on every byte string as the ruling function does |
| Elf.AcceptsExactly | packages/aot/src/elf.ts:357-452 | a file is accepted exactly when it meets a description of an ELF64 file: identity, machine, not dynamic, tables inside the file, a symbol table or non-empty unwind tables |
| Elf.RefusesForTheFirstUnmet | packages/aot/src/elf.ts:343-452 | a refusal is for the first requirement, in the documented order, that the file fails on its own showing, and carries the figures of that failure |
| Elf.RefusesExactlyTheUnfit | packages/aot/src/elf.ts:343-452 | a file is refused exactly when it fails some requirement, and then there is a first one |
| Elf.EvidenceIsComplete | packages/aot/src/elf.ts:397-419 | segment evidence has each kind once, exactly when some segment has it, in order of first appearance |
| Elf.NamesNeedATable | packages/aot/src/elf.ts:302-342 | where the name table index is 0 or past the sections, no section has a name, none counts as unwind tables, and no name table has to be in the file |
| Elf.DynamicRefusalIsComplete | packages/aot/src/elf.ts:397-421 | a dynamic-linking refusal names every reason the file shows, each once, and at least one |
| Elf.CStringSpells | packages/aot/src/elf.ts:228-236 | reading a NUL-free name at an offset gives that name exactly when the bytes there spell it |
| ElfLayout.ParseRecovers | packages/aot/src/elf.ts:291-341 | parsing a table laid out for a list of sections recovers its count, names, types and sizes, in all four forms of the header |
| ElfLayout.EscapesMakeNoDifference | packages/aot/src/elf.ts:291-341 | two files for one list, in any two forms, show the same facts, with the exact condition of the one exception |
| ElfLayout.EscapedCountCanChangeTheVerdict | packages/aot/src/elf.ts:291-341 | the exception is real: one writable list is refused in one form and accepted in the other |
| ElfLayout.WriteThenScreen | packages/aot/src/elf.ts:357-452 | the screen's whole verdict on a written file, from what was written: which evidence of dynamic linking, and otherwise type, machine, entry point, section names and count, stripped or not, unwound or not, for any segments, any type, strides declared or left out, in all four forms |
| ElfLayout.FieldReadsBack | packages/aot/src/elf.ts:181-209 | reading a little-endian field inverts storing it |
| Features.Cursor.U32 | tools/aot/features.ts:133-152 | decodes one LEB128 number of at most five bytes and consumes exactly its bytes, or fails |
| Features.ParseSection | tools/aot/features.ts:156-198 | the entries of a section, or the first failure, each classified as documented |
| Features.ReadTargetFeatures | tools/aot/features.ts:208-253 | the walk over any byte string ends, in the answer of the module description |
| FeatureWriter.FinalAnswersAreStable | tools/aot/features.ts:208-253 | an answer not caused by the end of input is the answer on every module that begins with those bytes |
| FeatureWriter.TruncationNeverYieldsAnotherSet | tools/aot/features.ts:105-152 | cutting a module short gives a failure or the very same feature set |
| FeatureWriter.LebRoundTrip | tools/aot/features.ts:133-152 | LEB128 decoding inverts encoding and stops right behind it |
| FeatureWriter.WriteThenRead | tools/aot/features.ts:156-253 | a feature section behind arbitrary other sections and before anything at all reads back as its pairs in order, with required the strictly sorted set of names not marked `-` |
| FeatureWriter.BrokenEntryIsTold | tools/aot/features.ts:156-198 | a section that breaks behind whole entries says in which entry and how: ended, unknown prefix, no length, name past the end |
| FeatureWriter.BrokenModuleIsTold | tools/aot/features.ts:208-253 | a module that ends or breaks off behind whole sections says so, with the offset and what was missing |
| FeatureWriter.BrokenPreambleIsTold | tools/aot/features.ts:208-226 | what has no magic number, what ends before its version, and what has another version, read as a signed 32-bit number |
| Stubs.AcceptableElf | tools/aot/stubs.ts:113-127 | the fixture built by stores into a zeroed buffer is a file the screen accepts, with two sections and a symbol table |
| Stubs.LeastAcceptedLength | tools/aot/stubs.ts:102-127 | the screen accepts some file of 64 bytes and none shorter |
| Stubs.FeatureSection | tools/aot/stubs.ts:146-154 | pushes the section id, one length byte and the payload |
| Stubs.StubEncodesExactlyUnder128 | tools/aot/stubs.ts:146-154 | that is the section's encoding exactly while the payload is under 128 bytes |
| Stubs.StubReadsBack | tools/aot/stubs.ts:146-154 | in that range the reader returns the pairs that were written |
| Ordering.NormalFormIsTheSet | packages/aot/src/cache-key.ts:76-79 | two feature lists normalise alike exactly when they have the same members |
| Ordering.SortedListIsItsSet | packages/aot/src/cache-key.ts:76-79 | a strictly sorted list is determined by its members |
| Ordering.LessIsDictionaryOrder | packages/aot/src/cache-key.ts:76-79 | the order of the normal form is dictionary order: a proper prefix first, else the first difference decides |
| DockerGate.ProbeDockerReach | tools/aot/docker-gate.ts:380-409 | at most four questions; all but the last never left the host; another is put only if the slowest so far would still fit before the deadline; giving up means the attempts or the deadline, counted from the first reading, ran out; if calls keep to the budget R it is over within 2R and four waits for a clock reading |
| DockerGate.GateOnImage | tools/aot/docker-gate.ts:419-452 | the same for the gate: a reach run, then at most four inspects, each followed up only where it has to be, another only if the longest so far would still fit; its deadline counts from the reading after the reach run; within 2T + 4R and twelve such waits, T the inspect budget |
| DockerGate.AbsentWasAnsweredBeforeAndAfter | tools/aot/docker-gate.ts:321-372 | image-absent is said only if a daemon answered before the failing inspect and again after it |
| DockerGate.PresentWasInspected | tools/aot/docker-gate.ts:321-372 | image-present is said only if an inspect exited 0 after a daemon answered |
| DockerGate.NothingIsAskedAboutTheImageWithoutADaemon | tools/aot/docker-gate.ts:419-452 | the image is asked about exactly when the reach probe ended in an answering daemon |
| DockerGate.VerdictIsOfTheLastCalls | tools/aot/docker-gate.ts:292-372 | every verdict of a run, by errno and exit status: of the first daemon asked if that did not answer, else of the last inspect and, where it settles nothing, of the daemon asked after it |
| DockerGate.RetriesFollowHostExhaustion | tools/aot/docker-gate.ts:380-452 | a question is put again only straight after an outcome that never left the host |
| DockerGate.ExhaustionIs | tools/aot/docker-gate.ts:154-166 | what counts as never having left the host: the four spawn errors, and an inspect whose second reach probe met one |
| DockerGate.ReachTakesTwoBudgets | tools/aot/docker-gate.ts:380-409 | read off any log of a run: 2R and the delays of all the clock readings it took bound the time it took |
| DockerGate.GateIsBounded | tools/aot/docker-gate.ts:419-452 | and 2T + 4R and those delays that of the gate |
| Scan.ScanStream | tools/aot/scan.ts:261-282 | every line of a stream ends up a finding, an unexplained diagnostic or silent, in order |
| Scan.ScanToolchainOutput | tools/aot/scan.ts:285-293 | both streams are scanned, stdout first |
| Scan.ScanningIsAHomomorphism | tools/aot/scan.ts:255-282 | two outputs one line break apart are scanned as each on its own: nothing is lost between chunks |
| Scan.QuietMeansEveryLineIsSilent | tools/aot/scan.ts:261-293 | a scan is empty exactly when every line, without its colours and outer blanks, is empty, narration, or neither a notice nor a diagnostic that is not noise |
| Scan.ParsesExactlyTheNotices | tools/aot/scan.ts:196-253 | a line is parsed exactly when it has the shape of one of the four messages |
| Scan.DiagnosticExactly | tools/aot/scan.ts:168-175 | a line looks like a diagnostic exactly when it holds one of three tags or begins like a log line of severity |
| Scan.NoiseExactly | tools/aot/scan.ts:177-192 | a line is let go exactly when it has one of four shapes: narration, a time stamp at info or debug, a warning flag at its end, a count of warnings |
| Scan.KindsAreExactly | tools/aot/scan.ts:261-282 | what each line comes to, from those three, and that an unexplained one is kept whole |
| Scan.ColourIsStripped | tools/aot/scan.ts:63-65 | a colour code anywhere in a line is as good as not there |
| Scan.PrintedLineIsReported | tools/aot/scan.ts:261-282 | such a message alone on its line is one finding and nothing else |
| Scan.UnexplainedLineIsReported | tools/aot/scan.ts:261-282 | a diagnostic that is neither a message nor noise is reported whole |
| Scan.PrintedFindingsReadBack | tools/aot/scan.ts:146-253 | all four messages about an instruction given up on, two of them compiled out of this image and one behind a log prefix, are read back as the numbers and words that were printed |
| Scan.PrintedIsFound | tools/aot/scan.ts:261-282 | such a line, on either stream, is a finding and not silence |
| Scan.PrintingIsNotSilent | tools/aot/scan.ts:261-282 | a text with such a line on any of its lines is never scanned as silent |
| CacheKey.NamesExactlyTheComplete | packages/aot/src/cache-key.ts:126-162 | a key is named exactly when its digest, its target and every tool version are more than white space, it has a tool, and the codec can encode it |
| CacheKey.NameIdentifiesTheTranslation | packages/aot/src/cache-key.ts:126-162 | two keys have one name exactly when digest, target and feature set are equal and every tool is in neither or has the same last version in both |
| CacheKey.ToolsNamedOnceAreTheirPairs | packages/aot/src/cache-key.ts:126-162 | with every tool named once, as in an object, that is: the same pairs of name and version |
| CacheKey.NamesTheEncoding | packages/aot/src/cache-key.ts:142-162 | a name is the name of every field as given, the tools as a record of last versions and the features in order, and those features are what is kept beside it |
| CacheKey.RefusesForTheFirstReason | packages/aot/src/cache-key.ts:126-140 | a key is refused for its digest, its target, its lack of tools, or the first tool without a version, in that order |
| CacheKey.RecordedKeyKeepsItsName | packages/aot/src/cache-key.ts:126-162 | the recorded key, named again, keeps its name |
| Image.RepositoryStripsTagAndDigest | tools/aot/lift.ts:808-813 | a tag and a digest are stripped, a registry's port is not |
| Image.NormalizingIsIdempotent | tools/aot/lift.ts:815-834 | the fully qualified form of a repository is its own fully qualified form |
| Image.FullyQualified | tools/aot/lift.ts:815-834 | a name with a registry stays as it is, a lone name is docker.io/library/ and itself, any other docker.io/ and itself |
| Image.PulledIsTheFirstMarkedLine | tools/aot/lift.ts:869-899 | the daemon's word on where content came from is what the first marked line says, nothing if it says nothing or null, and nothing without such a line |
| Image.ResolvesOnlyToTheRepositoryAsked | tools/aot/lift.ts:912-974 | an image resolves exactly when the daemon answered, the name is not known to be borrowed and some answered line is a digest of the repository asked for, and then to the first such line |
| Image.RefusalNamesWhatWasSeen | tools/aot/lift.ts:917-974 | and otherwise the refusal names the first thing observed: spawn failure by errno, no answer in time, no image, a borrowed name, no digest, or only foreign digests and which |
| LiftRecord.ParseMeta | tools/aot/lift.ts:976-984 | the container's record, the last line for a key winning |
| LiftRecord.PrintedMetaReadsBack | tools/aot/lift.ts:976-984 | entries printed one to a line are read back under their keys |
| LiftRecord.MetaHoldsTheLastEntries | tools/aot/lift.ts:976-984 | on every text: the record has a key with a value exactly when the last line that is an entry of that key has it, blanks aside |
| LiftRecord.UnidentifiedAreSorted | tools/aot/lift.ts:998-1003 | exactly the tools whose version is absent or blank, each as often as asked about, in order |
| LiftRecord.AddressesAreSorted | tools/aot/lift.ts:1129-1163 | the addresses kept are the ones read, ascending, repeats included |
| LiftRecord.AddressesAreStrictExactlyWithoutRepeats | tools/aot/lift.ts:1129-1163 | they are strictly ascending, as documented, exactly when the file holds no number twice; the container writes it through a duplicate-removing sort |
| LiftRecord.ReadsWhatIsSpelled | tools/aot/lift.ts:1157 | the count is read as a number other than 0 exactly when the text spells it: blanks, a sign or none, a numeral with any leading zeros, and nothing that would go on with it |
| LiftRecord.AddressesAreTheLines | tools/aot/lift.ts:1151-1155 | each number is read as often as the file has a line that is its numeral between blanks |
| LiftRecord.ProbeAnswersExactly | tools/aot/lift.ts:1129-1163 | the probe answers what the record and the file say, case by case, and nothing else answers that |
| LiftRecord.ProbeNeverHidesCallSites | tools/aot/lift.ts:1129-1163 | a count printed for any n > 0, blanks before it or not and anything but a digit behind it, with a file that has no address line, is answered as exactly that count without addresses |
| LiftRecord.CleanExactly | tools/aot/lift.ts:1053-1087 | a lift is clean exactly when every line of both streams is silent, a count is on record that spells no positive number, the disassembler is not on record as failed, and the file was read and has no address line |
| LiftRecord.PrintedFindingIsNeverClean | tools/aot/lift.ts:1076-1087 | a lift in which such a line was printed, on any line of either stream, is never clean |
| LiftRecord.ReservationsAreStated | tools/aot/lift.ts:1096-1117 | each blind spot is listed exactly when its own condition holds, and the verdict can be told from what is listed |
| Lift.LiftedReservationsAreStated | tools/aot/lift.ts:1096-1117 | on every lifted artifact the verdict can be told from what is published with it: reservations exactly when the reachability spot is listed, and exactly when a finding, an unparsed line, a spot of the probe's or an address is |
| Lift.LiftIn | tools/aot/lift.ts:1223-1392 | everything between making and removing the work directory, step by step, with each step's failure, thrown ones included |
| Lift.LiftElf | tools/aot/lift.ts:1199-1392 | over every trace, exceptions included, the driver ends at the first step that fails, reports that, and does to the world what belongs to that ending |
| Lift.LiftIsSafe | tools/aot/lift.ts:1199-1392 | over every trace: one ending; one container at most, run only on an accepted input staged in a made directory and only from an answered digest of the requested repository; it is removed, by name and before any directory, exactly if it was left running, and no other is; the work directory goes last, on every exit, unless kept |
| Lift.ContainerOnlyForWhatWasAsked | tools/aot/lift.ts:1205-1259 | and only on an input the screen accepts, from an answered digest of the requested repository |
| Lift.WorkDirIsRemovedOnEveryExit | tools/aot/lift.ts:1222-1392 | a work directory that was made is removed as the very last thing, on every exit, unless kept |
| Lift.SuccessMeans | tools/aot/lift.ts:1262-1392 | a success means exit 0, artifact, features and record all read; the toolchain is the answered digest and the five recorded versions, unknown for an absent one and none of them blank; the digest of the input and the CID of the artifact |
| Lift.SuccessIsNamed | tools/aot/lift.ts:1030-1037 | and its name is the name of exactly that digest, the target aarch64-wasi32, those tools and those features |
| Lift.LiftedOwnsUp | tools/aot/lift.ts:1318-1392 | the artifact lists each tool without a version once, in order, everything either stream said, the probe's answer and the facts of the screen |
| Lift.FailureMeans | tools/aot/lift.ts:1199-1392 | every failure reported is one that was met, with its figures, and everything before it had gone well |
| Lift.EffectsAreOfTheRequest | tools/aot/lift.ts:1199-1392 | every effect is of what was asked for: the path, the image within min(timeout, 60 s), the container under its own name within the timeout, its removal within 30 s |
| Lift.ResultsAreReadInOrder | tools/aot/lift.ts:1291-1311 | the artifact is read straight after its container, and only if that exited 0; the record straight after the artifact, and only if its feature section could be read |
| Lift.LiftedCleanExactly | tools/aot/lift.ts:1076-1087 | a lifted artifact is called clean exactly when nothing was said on either stream and neither the record nor the file owns to anything left untranslated |
| Lift.RecordAgreesExactlyOnTheTranslation | tools/aot/lift.ts:1509-1540 | a signed record agrees with a lift exactly when it was signed over the same translation |
| Cli.ParseAotArgs | tools/aot/cli.ts:223-284 | the index loop with its map and its consumed set rules on the one reading a command line has |
| Cli.OnlyOneReading | tools/aot/cli.ts:229-244 | there is only one way to pair flags with the words after them |
| Cli.MissingValueExactly | tools/aot/cli.ts:234-237 | a value is reported missing exactly when the words pair up with one flag left over |
| Cli.RefusesExactly | tools/aot/cli.ts:246-266 | any other refusal is made exactly for its reason: no word on its own, a first one with a dash, half a publish and which half, a last key that is not 64 lower-case hexadecimal digits |
| Cli.TakesFirstAndLast | tools/aot/cli.ts:246-283 | for any interleaving the input is the first positional and each flag has its last value |
| Cli.LeavesDefaults | tools/aot/cli.ts:268-283 | a flag that was not given leaves its default behind: the input and .wasm, the output and .record.json if it publishes, nothing otherwise |
| Cli.MovingAPairChangesNothing | tools/aot/cli.ts:207-222 | a flag and its value may stand on either side of a positional |
| Cli.RenderThenParse | tools/aot/cli.ts:223-284 | a result rendered and parsed again comes back as it was, exactly for the results the parser can accept |
| Cli.AcceptedIsAcceptable | tools/aot/cli.ts:246-283 | every accepted result has a path for input, both halves of a publish or neither, and a well-formed key |
| Cli.ToHex | tools/aot/lift.ts:1005-1009 | two lower-case digits for every byte, in order |
| Cli.FromHexKey | tools/aot/cli.ts:357-361 | fills the 32 bytes from their digit pairs |
| Cli.KeyReadsBack | tools/aot/cli.ts:356-361 | a key written as hexadecimal is one the parser takes, and reads back as itself |
| Cli.HexReadsBack | tools/aot/cli.ts:356-361 | a key the parser takes is written back as it was given |
| Stats.PercentileIsTheObservedValueOfItsRank | packages/bench/src/stats.ts:55-61 | the one observed value with at least ceil(q n) observations at or below it and fewer strictly below |
| Stats.PercentileIsMonotoneInQ | packages/bench/src/stats.ts:55-61 | a higher quantile is never a lower value |
| Stats.RankIsTheShareRoundedUp | packages/bench/src/stats.ts:58-60 | the rank is q times n rounded up |
| Stats.PercentileNeverFallsWhenObservationsRise | packages/bench/src/stats.ts:55-61 | raising observations pointwise never lowers a percentile |
| Stats.SummaryIgnoresOrder | packages/bench/src/stats.ts:63-90 | a summary depends on what was observed and how often, not on the order |
| Stats.SummaryIsOrdered | packages/bench/src/stats.ts:63-90 | min, p50, p95, p99 and max are in order |
| Stats.SummaryHasTheRanks | packages/bench/src/stats.ts:63-90 | p50, p95 and p99 are each the observed value of their own rank, and no other value is |
| Stats.SummaryHasTheQuantiles | packages/bench/src/stats.ts:63-90 | in plain counts: the one observed value with at least 50, 95 or 99 in a hundred observations at or below it and fewer strictly below |
| Stats.SummaryBoundsItsObservations | packages/bench/src/stats.ts:63-90 | the minimum and maximum are observed and bound every observation, the mean times n is their sum, n is their number |
| Stats.TailsAreTheMaximumExactlyBelow | packages/bench/src/stats.ts:20-90 | on every list of a size the p95 is the maximum exactly below 20 observations, the p99 exactly below 100; reliable exactly from 10 on |
| Stats.LabelledExactlyOutside | packages/bench/src/stats.ts:20-30 | a tail percentile that can only be the maximum is labelled unreliable exactly outside 10 to 19 observations (p95) and 10 to 99 (p99) |
| Harness.Measure | packages/bench/src/harness.ts:334-370 | runs in order, the first on a cold cache when asked; what is published is a function of the observations |
| Harness.PublishesTheMakespans | packages/bench/src/harness.ts:350-359 | the published p50, p95 and p99 are those of the makespans of the completed measured runs, counted run by run |
| Harness.PublishesTheReduces | packages/bench/src/harness.ts:311-320 | and of the reduce times of the completed runs whose reduce produced something |
| Harness.PublishesTheCost | packages/bench/src/harness.ts:275-288 | the cost is over every measured run: gross and useful totals, a tax that times useful is gross, and the two means |
| Harness.PublishesTheReduceRow | packages/bench/src/harness.ts:290-320 | depth, combines and executors are the greatest of the runs that reduced, recomputes their total |
| Harness.RunOrderNeverMatters | packages/bench/src/harness.ts:334-370 | no published figure depends on the order of the measured runs |
| Harness.EveryMeasuredRunIsCountedOnce | packages/bench/src/harness.ts:352-359 | makespan.n plus incomplete is the number of measured runs |
| Harness.IncompleteRunsNeverReachTheMakespan | packages/bench/src/harness.ts:352-369 | no figure of an incomplete run reaches the makespan statistics or the reduce row |
| Harness.CrossoverIsTheFirstThatBeats | packages/bench/src/harness.ts:397-434 | a crossover is found exactly when some usable point beats the baseline, at the smallest such node count; otherwise the reported best is the least usable median, at a point that has it |
| Connectivity.RefuseDuplicateRungs | packages/bench/src/harness.ts:459-469 | a curve is refused exactly when two results share a node count, and the first repeat is named |
| Connectivity.ConnectivityTax | packages/bench/src/harness.ts:479-501 | the gap lists every node count measured with a completed run on both curves, once, in order, and no other, each with both medians and the real one over the memory one |
| Connectivity.CurveOrderIsIrrelevant | packages/bench/src/harness.ts:471-501 | the order either curve was measured in changes nothing |
| PerfGate.Judge | packages/bench/src/perf-gate.ts:134-223 | all findings and checks of a ladder, rung by rung and then the inputs no rung knows |
| PerfGate.PassesExactly | packages/bench/src/perf-gate.ts:134-223 | a null verdict exactly when the baseline is non-empty, the last input at every rung's node count passes that rung, and every input has a rung |
| PerfGate.FindingsAreExactly | packages/bench/src/perf-gate.ts:134-223 | a finding is reported exactly when it is there to be found, with its figures: over budget, too small, incomplete, unmeasured, unbaselined; and every comparison is told, and no other |
| PerfGate.RungPassesExactly | packages/bench/src/perf-gate.ts:146-214 | one rung finds nothing exactly when its input is complete, both samples are reliable, and ratio p50, ratio p95 and makespan p50 are numbers at most their own reference times one plus their own headroom; three comparisons are made |
| PerfGate.PassVouchesForEveryInput | packages/bench/src/perf-gate.ts:268-283 | a pass vouches for every input that no later one has the node count of |
| PerfGate.ShadowedInputIsNeverCompared | packages/bench/src/perf-gate.ts:134-144 | an input anywhere in a ladder that a later one has the node count of changes no verdict |
| PerfGate.ExactlyTheShadowedAreNeverLookedAt | packages/bench/src/perf-gate.ts:134-223 | in the place of an input of a passing ladder every other passes, however it went, exactly when a later input has its node count |
| PerfGate.PassSurvivesLowering | packages/bench/src/perf-gate.ts:112-223 | a pass survives lowering any measured statistic |
| Pricing.Tiered | docs/business/model/model.py:63-70 | the loop charges each band's share of the quantity above the allowance at that band's rate |
| Pricing.UnitsCostTheirBandsRate | docs/business/model/model.py:63-70 | between any two quantities of one band the charge grows by that band's rate times the difference |
| Pricing.EveryUnitIsBilledOnce | docs/business/model/model.py:63-70 | the bands bill every unit once, up to the end of the last |
| Pricing.EndlessBillsEverything | docs/business/model/model.py:63-70 | with an unbounded last band the units taken add up to the whole quantity |
| Pricing.ChargeIsMonotone | docs/business/model/model.py:63-70 | more units never cost less |
| Pricing.ChargeIsBetweenTheRates | docs/business/model/model.py:63-70 | with nothing free the charge lies between the lowest and the highest rate times the quantity |
| Pricing.PriceByLayers | docs/business/model/model.py:63-70 | the banded price is also the sum, over bands, of the mark-up over the next band on every unit up to the band's end |
| Pricing.SplittingNeverPays | docs/business/model/model.py:63-70 | with falling rates and nothing free, two purchases never cost less than one |
| Pricing.AllowanceRewardsSplitting | docs/business/model/model.py:63-70 | with a free allowance splitting still never pays exactly when no band of any size has a price; where one has, buying the allowance twice is free and buying it at once double is not |
| Pricing.Support | docs/business/model/model.py:172-179 | the fee is the published one for every subtotal: 29 or, if more, 9% to 10 000, 7% to 80 000, 5% to 250 000 and 3% beyond |
| Pricing.FeeIsThePublishedOne | docs/business/model/model.py:172-179 | that schedule is the banded price of the four bands with the floor under it |
| Pricing.SupportFee | docs/business/model/model.py:172-179 | at least 3% and at most the floor or 9% of the subtotal, monotone, and no cheaper for split accounts |

## Left out

- Calls a start section makes: the pinned arm for a missing memory is modelled, a run that begins inside instantiation is not.
- Aliasing of guest memory: `random_get` fills a view of linear memory; here memory is a value the host hands back.
- WasiExecutor.Run: the host's own clock is two parameters, and a run abandoned by its Worker is a number of steps; the shim's code is a parameter, an arbitrary machine that uses the descriptors and answers the guest, so argv, environment, descriptor metadata and the routing of calls to descriptors are its own.
- WasiExecutor.LabelIdentifiesTheTask: CIDs are byte strings without a bar; the multibase text form is not modelled.
- Text decoding: decoders are parameters, and names are byte strings or ASCII; replacement characters and byte-order marks are not modelled.
- JavaScript rounding: counts above 2^53, sums and products of doubles and the rounding of q times n are exact here; percentiles and prices are over rationals and reals.
- Stats.SummaryIgnoresOrder: observations are numbers; sorting lists that hold NaN is not modelled.
- Elf.ScreenElf: the program-header count escape (PN_XNUM) is not handled by the code and so not by the model.
- Lift.LiftElf: a removal of the work directory that fails, a progress callback that throws, the container's script, and building the docker argument list.
- Image.ResolvesOnlyToTheRepositoryAsked: parsing the daemon's identity JSON is a parameter.
- LiftRecord.AddressesAreStrictExactlyWithoutRepeats: what the container writes is a parameter, so that its script removes duplicates (`tools/aot/lift.ts:694`) is not proved.
- DockerGate.GateIsBounded: how long passes before a clock reading is a parameter of the environment, so it is in the bounds as it is.
- Spawning processes, the filesystem, environment variables and temporary directories: results of such calls are trace inputs.
- CacheKey.NameIdentifiesTheTranslation: DAG-CBOR and hashing are one function, assumed injective.
- Harness: sweeping a node ladder, which calls the measured method once per rung.
- Publishing and signing an artifact, and classifying how the tool was entered.
- Wording: every function that turns a result into a sentence, and the detail strings inside failures.
- The router, dispatch, integrity, capability and browser code, the timing rigs, and the other finance scripts.
