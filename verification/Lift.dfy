/**
 * One lift as a run over an arbitrary trace of file, daemon and container results
 * (tools/aot/lift.ts).
 */
module Lift {
  import opened Common
  import opened Text
  import opened Image
  import opened CacheKey
  import opened LiftRecord
  import Elf
  import F = Features
  import Scan

  const LIFT_TARGET: string := "aarch64-wasi32"
  const IMAGE_RESOLVE_CAP_MS: nat := 60000
  const CONTAINER_REMOVE_TIMEOUT_MS: nat := 30000

  // ---- the run --------------------------------------------------------------------------------

  /** Everything outside the driver, for one lift: what each step would find. */
  datatype World = World(
    input: Result<seq<byte>, string>,
    inspectThrows: bool,
    inspected: Ran,
    readIdentity: IdentityReader,
    workDir: Option<string>,
    staged: bool,
    containerName: string,
    launchThrows: bool,
    ran: Ran,
    durationMs: int,
    artifact: Result<seq<byte>, string>,
    meta: Result<string, string>,
    undecodedFile: Result<string, string>,
    digestThrows: bool,
    digest: seq<byte> -> string,
    keyThrows: bool,
    canonicalCid: CanonicalCid,
    addressThrows: bool,
    blockCid: seq<byte> -> Cid)

  datatype Options = Options(path: string, docker: string, image: string, timeoutMs: nat,
                             keepWorkDir: bool)

  /** What the driver does to the world, in order. */
  datatype Effect =
    | ReadInput(path: string)
    | InspectImage(image: string, budgetMs: nat)
    | MakeWorkDir
    | StageInput(dir: string, bytes: seq<byte>)
    | RunContainer(name: string, dir: string, reference: string, budgetMs: nat)
    | RemoveContainer(name: string, budgetMs: nat)
    | ReadArtifact(dir: string)
    | ReadMeta(dir: string)
    | RemoveDir(dir: string)

  datatype LiftFailure =
    | InputUnreadable(path: string, detail: string)
    | RefusedByScreen(refusal: Elf.Refusal)
    | DockerFailed(cause: ImageFailure)
    | TimedOut(afterMs: nat)
    | ToolchainFailed(exitCode: Option<int>, signal: Option<string>, findings: seq<Scan.Finding>,
                      unparsed: seq<Scan.Unparsed>)
    | NoArtifact(detail: string)
    | FeaturesUnreadable(unread: F.Failure)
    | ProvenanceUnreadable(detail: string)
    | Unnameable(unnamed: KeyFailure)

  datatype Artifact = Artifact(
    bytes: seq<byte>, verdict: Verdict, toolchain: seq<Tool>, unidentifiedTools: seq<string>,
    inputDigest: string, requiredFeatures: seq<seq<byte>>, declaredFeatures: seq<F.Declared>,
    findings: seq<Scan.Finding>, unparsed: seq<Scan.Unparsed>, undecoded: Undecoded,
    blindSpots: seq<BlindSpot>, elf: Elf.Facts, durationMs: int)

  datatype Translation = Translation(keyCid: Cid, key: TranslationKey, artifactCid: Cid)

  datatype Outcome =
    | Lifted(artifact: Artifact, translation: Translation)
    | NotLifted(failure: LiftFailure)
    | Thrown

  function ScanOf(ran: Ran): Scan.ToolchainScan {
    Scan.Plus(Scan.TextScan(ran.stdout, Scan.Stdout), Scan.TextScan(ran.stderr, Scan.Stderr))
  }

  function ToolchainOf(reference: string, meta: Meta): seq<Tool> {
    [Tool("elfconv-image", reference),
     Tool("elfconv-commit", Lookup(meta, "elfconv-commit").GetOr("unknown")),
     Tool("elflift-sha256", Lookup(meta, "elflift-sha256").GetOr("unknown")),
     Tool("clang", Lookup(meta, "clang").GetOr("unknown")),
     Tool("wasi-sdk", Lookup(meta, "wasi-sdk").GetOr("unknown")),
     Tool("wasmedge", Lookup(meta, "wasmedge").GetOr("unknown"))]
  }

  function TranslationKeyOf(artifact: Artifact): TranslationKey {
    TranslationKey(artifact.inputDigest, LIFT_TARGET, artifact.toolchain,
                   artifact.requiredFeatures)
  }

  function Resolution(w: World, o: Options): Result<Resolved, ImageFailure> {
    ResolveImage(o.image, o.docker, w.inspected, Min(o.timeoutMs, IMAGE_RESOLVE_CAP_MS),
                 w.readIdentity)
  }

  /** The steps of a lift, in order; each one can be where it ends. */
  datatype Stage =
    | Reading | Screening | Inspecting | Resolving | MakingDir | Staging | Launching | Spawning
    | Waiting | Exiting | Collecting | Featuring | Recording | Digesting | Naming | Keying
    | Addressing | Done

  function Rank(stage: Stage): nat {
    match stage
    case Reading => 0
    case Screening => 1
    case Inspecting => 2
    case Resolving => 3
    case MakingDir => 4
    case Staging => 5
    case Launching => 6
    case Spawning => 7
    case Waiting => 8
    case Exiting => 9
    case Collecting => 10
    case Featuring => 11
    case Recording => 12
    case Digesting => 13
    case Naming => 14
    case Keying => 15
    case Addressing => 16
    case Done => 17
  }

  /** The artifact with its reservations, given the image it was lifted with. */
  function ArtifactWith(w: World, resolved: Resolved): Artifact
    requires w.input.Ok? && w.artifact.Ok? && w.meta.Ok?
    requires Elf.Ruling(w.input.value).Accepted?
    requires F.ReadModule(w.artifact.value).Features?
  {
    var meta, scan := MetaOf(w.meta.value), ScanOf(w.ran);
    var undecoded := ReadUndecoded(meta, w.undecodedFile);
    var verdict := VerdictOf(scan.findings, scan.unparsed, undecoded);
    var features := F.ReadModule(w.artifact.value);
    Artifact(w.artifact.value, verdict, ToolchainOf(resolved.reference, meta),
             UnidentifiedIn(meta, META_TOOLS), w.digest(w.input.value), features.required,
             features.declared, scan.findings, scan.unparsed, undecoded,
             BlindSpotsFor(undecoded, verdict, resolved.provenance),
             Elf.Ruling(w.input.value).facts, w.durationMs)
  }

  /** What each step needs, on its own terms. */
  ghost predicate Fails(w: World, o: Options, stage: Stage) {
    match stage
    case Reading => w.input.Err?
    case Screening => w.input.Ok? && Elf.Ruling(w.input.value).Refused?
    case Inspecting => w.inspectThrows
    case Resolving => Resolution(w, o).Err?
    case MakingDir => w.workDir.None?
    case Staging => !w.staged
    case Launching => w.launchThrows
    case Spawning => w.ran.spawnError.Some?
    case Waiting => w.ran.timedOut
    case Exiting => w.ran.code != Some(0)
    case Collecting => w.artifact.Err?
    case Featuring => w.artifact.Ok? && F.ReadModule(w.artifact.value).Failed?
    case Recording => w.meta.Err?
    case Digesting => w.digestThrows
    case Naming => HasArtifact(w, o) && NamedOf(w, o).Refused?
    case Keying => w.keyThrows
    case Addressing => w.addressThrows
    case Done => true
  }

  /** Everything an artifact is built from is in hand. */
  ghost predicate HasArtifact(w: World, o: Options) {
    && Resolution(w, o).Ok? && w.input.Ok? && w.artifact.Ok? && w.meta.Ok?
    && Elf.Ruling(w.input.value).Accepted? && F.ReadModule(w.artifact.value).Features?
  }

  /** No step of a rank from `from` up to `to` failed. */
  ghost predicate GotTo(w: World, o: Options, from: nat, to: nat) {
    forall s :: from <= Rank(s) < to ==> !Fails(w, o, s)
  }

  /** The first step that fails: a lift ends there, whatever the later steps would have found. */
  ghost predicate EndsAt(w: World, o: Options, stage: Stage) {
    Fails(w, o, stage) && GotTo(w, o, 0, Rank(stage))
  }

  /** Where a lift ends is determined by the trace. */
  lemma EndsOnce(w: World, o: Options, a: Stage, b: Stage)
    requires EndsAt(w, o, a) && EndsAt(w, o, b)
    ensures a == b
  {
    hide Fails;
  }

  /** What a lift that went past `step` found there. */
  lemma Passed(w: World, o: Options, stage: Stage, step: Stage)
    requires EndsAt(w, o, stage)
    ensures Rank(step) < Rank(stage) ==>
      match step
      case Reading => w.input.Ok?
      case Screening => w.input.Ok? ==> Elf.Ruling(w.input.value).Accepted?
      case Inspecting => !w.inspectThrows
      case Resolving => Resolution(w, o).Ok?
      case MakingDir => w.workDir.Some?
      case Staging => w.staged
      case Launching => !w.launchThrows
      case Spawning => w.ran.spawnError == None
      case Waiting => !w.ran.timedOut
      case Exiting => w.ran.code == Some(0)
      case Collecting => w.artifact.Ok?
      case Featuring => w.artifact.Ok? ==> F.ReadModule(w.artifact.value).Features?
      case Recording => w.meta.Ok?
      case Digesting => !w.digestThrows
      case Naming => true
      case Keying => !w.keyThrows
      case Addressing => !w.addressThrows
      case Done => true
  {
    hide Elf.Ruling, F.ReadModule, Resolution, HasArtifact;
  }

  lemma PastStages(w: World, o: Options, stage: Stage)
    requires EndsAt(w, o, stage)
    ensures Rank(stage) > 0 ==> w.input.Ok?
    ensures Rank(stage) > 1 ==> Elf.Ruling(w.input.value).Accepted?
    ensures Rank(stage) > 3 ==> Resolution(w, o).Ok?
    ensures Rank(stage) > 4 ==> w.workDir.Some?
    ensures Rank(stage) > 5 ==> w.staged
    ensures Rank(stage) > 7 ==> w.ran.spawnError == None
    ensures Rank(stage) > 8 ==> !w.ran.timedOut
    ensures Rank(stage) > 9 ==> w.ran.code == Some(0)
    ensures Rank(stage) > 10 ==> w.artifact.Ok?
    ensures Rank(stage) > 11 ==> F.ReadModule(w.artifact.value).Features?
    ensures Rank(stage) > 12 ==> w.meta.Ok? && HasArtifact(w, o)
  {
    hide Elf.Ruling, F.ReadModule, Resolution, EndsAt, Fails;
    Passed(w, o, stage, Reading);
    Passed(w, o, stage, Screening);
    Passed(w, o, stage, Resolving);
    Passed(w, o, stage, MakingDir);
    Passed(w, o, stage, Staging);
    Passed(w, o, stage, Spawning);
    Passed(w, o, stage, Waiting);
    Passed(w, o, stage, Exiting);
    Passed(w, o, stage, Collecting);
    Passed(w, o, stage, Featuring);
    Passed(w, o, stage, Recording);
  }

  /** What a lift that ends at `stage` reports. */
  ghost predicate Reports(w: World, o: Options, stage: Stage, outcome: Outcome) {
    match stage
    case Reading => w.input.Err? && outcome == NotLifted(InputUnreadable(o.path, w.input.error))
    case Screening =>
      w.input.Ok? && Elf.Ruling(w.input.value).Refused?
      && outcome == NotLifted(RefusedByScreen(Elf.Ruling(w.input.value).reason))
    case Inspecting => outcome == Thrown
    case Resolving =>
      Resolution(w, o).Err? && outcome == NotLifted(DockerFailed(Resolution(w, o).error))
    case MakingDir => outcome == Thrown
    case Staging => outcome == Thrown
    case Launching => outcome == Thrown
    case Spawning =>
      w.ran.spawnError.Some?
      && outcome == NotLifted(DockerFailed(
           ClassifySpawnFailure(o.docker, w.ran.spawnErrorCode, w.ran.spawnError.value)))
    case Waiting => outcome == NotLifted(TimedOut(o.timeoutMs))
    case Exiting =>
      outcome == NotLifted(ToolchainFailed(w.ran.code, w.ran.signal, ScanOf(w.ran).findings,
                                           ScanOf(w.ran).unparsed))
    case Collecting => w.artifact.Err? && outcome == NotLifted(NoArtifact(w.artifact.error))
    case Featuring =>
      w.artifact.Ok? && F.ReadModule(w.artifact.value).Failed?
      && outcome == NotLifted(FeaturesUnreadable(F.ReadModule(w.artifact.value).reason))
    case Recording => w.meta.Err? && outcome == NotLifted(ProvenanceUnreadable(w.meta.error))
    case Digesting => outcome == Thrown
    case Naming =>
      HasArtifact(w, o) &&
      var named := NamedOf(w, o);
      named.Refused? && outcome == NotLifted(Unnameable(named.failure))
    case Keying => outcome == Thrown
    case Addressing => outcome == Thrown
    case Done =>
      HasArtifact(w, o) &&
      var named := NamedOf(w, o);
      named.Named? && outcome == Lifted(
        ArtifactWith(w, Resolution(w, o).value),
        Translation(named.cid, named.key, w.blockCid(w.artifact.value)))
  }

  ghost function NamedOf(w: World, o: Options): KeyResult
    requires HasArtifact(w, o)
  {
    TranslationCid(TranslationKeyOf(ArtifactWith(w, Resolution(w, o).value)), w.canonicalCid)
  }

  /** What the effects of a lift are about; parts a lift does not reach are left empty. */
  datatype Course = Course(
    path: string, image: string, inspectMs: nat, dir: string, bytes: seq<byte>, name: string,
    reference: string, runMs: nat, keep: bool)

  function CourseOf(w: World, o: Options): Course {
    Course(o.path, o.image, Min(o.timeoutMs, IMAGE_RESOLVE_CAP_MS), w.workDir.GetOr(""),
           if w.input.Ok? then w.input.value else [], w.containerName,
           if Resolution(w, o).Ok? then Resolution(w, o).value.reference else "", o.timeoutMs,
           o.keepWorkDir)
  }

  /** What it reads once the container has exited 0. */
  function TrailAfterwards(c: Course, stage: Stage): seq<Effect> {
    (if Rank(stage) >= 10 then [ReadArtifact(c.dir)] else [])
    + (if Rank(stage) >= 12 then [ReadMeta(c.dir)] else [])
  }

  /** What the driver does in a lift that ends at `stage`, once the work directory exists. */
  function TrailInside(c: Course, stage: Stage): seq<Effect> {
    if Rank(stage) <= 5 then []
    else
      [StageInput(c.dir, c.bytes), RunContainer(c.name, c.dir, c.reference, c.runMs)]
      + (if stage.Waiting? then [RemoveContainer(c.name, CONTAINER_REMOVE_TIMEOUT_MS)] else [])
      + TrailAfterwards(c, stage)
  }

  /** What the driver does to the world in a lift that ends at `stage`. */
  function Trail(c: Course, stage: Stage): seq<Effect> {
    [ReadInput(c.path)]
    + (if Rank(stage) >= 2 then [InspectImage(c.image, c.inspectMs)] else [])
    + (if Rank(stage) >= 4 then [MakeWorkDir] else [])
    + (if Rank(stage) >= 5
       then TrailInside(c, stage) + (if c.keep then [] else [RemoveDir(c.dir)]) else [])
  }

  /** `EndsAt`, for a lift that has got as far as its work directory. */
  ghost predicate EndsInside(w: World, o: Options, stage: Stage) {
    Rank(stage) >= 5 && Fails(w, o, stage) && GotTo(w, o, 5, Rank(stage))
  }

  lemma Starts(w: World, o: Options, from: nat)
    ensures GotTo(w, o, from, from)
  {
    hide Fails;
  }

  lemma GoesOn(w: World, o: Options, from: nat, step: Stage)
    requires GotTo(w, o, from, Rank(step)) && !Fails(w, o, step)
    ensures GotTo(w, o, from, Rank(step) + 1)
  {
    hide Fails;
    forall s | from <= Rank(s) < Rank(step) + 1 ensures !Fails(w, o, s) {
      SameRank(s, step);
    }
  }

  lemma SameRank(a: Stage, b: Stage)
    ensures Rank(a) == Rank(b) ==> a == b
  {
  }

  lemma CourseInside(w: World, o: Options, dir: string, resolved: Resolved)
    requires w.input.Ok? && Resolution(w, o) == Ok(resolved) && w.workDir == Some(dir)
    ensures var c := CourseOf(w, o);
      c.dir == dir && c.bytes == w.input.value && c.name == w.containerName
      && c.reference == resolved.reference && c.runMs == o.timeoutMs
  {
    hide Resolution;
  }

  method ScanRan(ran: Ran) returns (scan: Scan.ToolchainScan)
    ensures scan == ScanOf(ran)
  {
    hide Scan.TextScan;
    scan := Scan.ScanToolchainOutput(ran.stdout, ran.stderr);
  }

  /** The fields put together, in the order the driver has them in hand. */
  method Assemble(w: World, resolved: Resolved, scan: Scan.ToolchainScan, features: F.Scan)
    returns (lifted: Artifact)
    requires w.input.Ok? && w.artifact.Ok? && w.meta.Ok?
    requires Elf.Ruling(w.input.value).Accepted?
    requires scan == ScanOf(w.ran)
    requires features == F.ReadModule(w.artifact.value) && features.Features?
    ensures lifted == ArtifactWith(w, resolved)
  {
    hide Elf.Ruling, F.ReadModule, ScanOf, MetaOf, ReadUndecoded, VerdictOf, BlindSpotsFor,
         ToolchainOf;
    var screening := Elf.ScreenElf(w.input.value);
    var meta := ParseMeta(w.meta.value);
    var undecoded := ReadUndecoded(meta, w.undecodedFile);
    var verdict := VerdictOf(scan.findings, scan.unparsed, undecoded);
    lifted := Artifact(
      w.artifact.value, verdict, ToolchainOf(resolved.reference, meta),
      UnidentifiedIn(meta, META_TOOLS), w.digest(w.input.value), features.required,
      features.declared, scan.findings, scan.unparsed, undecoded,
      BlindSpotsFor(undecoded, verdict, resolved.provenance), screening.facts, w.durationMs);
  }

  lemma InHand(w: World, o: Options, resolved: Resolved)
    requires w.input.Ok? && w.artifact.Ok? && w.meta.Ok? && Resolution(w, o) == Ok(resolved)
    requires Elf.Ruling(w.input.value).Accepted? && F.ReadModule(w.artifact.value).Features?
    ensures HasArtifact(w, o) && Resolution(w, o).Ok? && Resolution(w, o).value == resolved
    ensures NamedOf(w, o)
         == TranslationCid(TranslationKeyOf(ArtifactWith(w, resolved)), w.canonicalCid)
  {
    hide Elf.Ruling, F.ReadModule, Resolution, ArtifactWith, TranslationCid, TranslationKeyOf;
  }

  /** The rest of the `try`, once the container has exited 0. */
  method Collect(w: World, o: Options, dir: string, resolved: Resolved, scan: Scan.ToolchainScan)
    returns (outcome: Outcome, effects: seq<Effect>, stage: Stage)
    requires w.input.Ok? && Elf.Ruling(w.input.value).Accepted?
    requires Resolution(w, o) == Ok(resolved) && w.workDir == Some(dir) && scan == ScanOf(w.ran)
    requires GotTo(w, o, 5, Rank(Collecting))
    ensures EndsInside(w, o, stage) && Reports(w, o, stage, outcome)
    ensures Rank(stage) >= Rank(Collecting) && effects == TrailAfterwards(CourseOf(w, o), stage)
  {
    hide Elf.Ruling, F.ReadModule, Resolution, ScanOf, ArtifactWith, TranslationCid, GotTo,
         NamedOf, HasArtifact, TranslationKeyOf, Scan.TextScan, CourseOf, Min;
    CourseInside(w, o, dir, resolved);
    effects := [ReadArtifact(dir)];
    if w.artifact.Err? {
      return NotLifted(NoArtifact(w.artifact.error)), effects, Collecting;
    }
    GoesOn(w, o, 5, Collecting);
    var features := F.ReadTargetFeatures(w.artifact.value);
    if features.Failed? {
      return NotLifted(FeaturesUnreadable(features.reason)), effects, Featuring;
    }
    GoesOn(w, o, 5, Featuring);
    effects := effects + [ReadMeta(dir)];
    if w.meta.Err? {
      return NotLifted(ProvenanceUnreadable(w.meta.error)), effects, Recording;
    }
    GoesOn(w, o, 5, Recording);
    if w.digestThrows {
      return Thrown, effects, Digesting;
    }
    GoesOn(w, o, 5, Digesting);
    var lifted := Assemble(w, resolved, scan, features);
    var named := TranslationCid(TranslationKeyOf(lifted), w.canonicalCid);
    InHand(w, o, resolved);
    if named.Refused? {
      return NotLifted(Unnameable(named.failure)), effects, Naming;
    }
    GoesOn(w, o, 5, Naming);
    if w.keyThrows {
      return Thrown, effects, Keying;
    }
    GoesOn(w, o, 5, Keying);
    if w.addressThrows {
      return Thrown, effects, Addressing;
    }
    GoesOn(w, o, 5, Addressing);
    return Lifted(lifted, Translation(named.cid, named.key, w.blockCid(w.artifact.value))),
           effects, Done;
  }

  /** The body of the `try`: everything between making the work directory and removing it. */
  method LiftIn(w: World, o: Options, dir: string, resolved: Resolved)
    returns (outcome: Outcome, effects: seq<Effect>, stage: Stage)
    requires w.input.Ok? && Elf.Ruling(w.input.value).Accepted?
    requires Resolution(w, o) == Ok(resolved) && w.workDir == Some(dir)
    ensures EndsInside(w, o, stage) && Reports(w, o, stage, outcome)
    ensures effects == TrailInside(CourseOf(w, o), stage)
  {
    hide Elf.Ruling, F.ReadModule, Resolution, ScanOf, ArtifactWith, TranslationCid, GotTo,
         ClassifySpawnFailure, TranslationKeyOf, Scan.TextScan, CourseOf, Min;
    CourseInside(w, o, dir, resolved);
    Starts(w, o, 5);
    effects := [];
    if !w.staged {
      return Thrown, effects, Staging;
    }
    GoesOn(w, o, 5, Staging);
    effects := effects + [StageInput(dir, w.input.value)];
    effects := effects + [RunContainer(w.containerName, dir, resolved.reference, o.timeoutMs)];
    if w.launchThrows {
      return Thrown, effects, Launching;
    }
    GoesOn(w, o, 5, Launching);
    var ran := w.ran;
    if ran.spawnError.Some? {
      return NotLifted(DockerFailed(
        ClassifySpawnFailure(o.docker, ran.spawnErrorCode, ran.spawnError.value))), effects, Spawning;
    }
    GoesOn(w, o, 5, Spawning);
    if ran.timedOut {
      effects := effects + [RemoveContainer(w.containerName, CONTAINER_REMOVE_TIMEOUT_MS)];
      return NotLifted(TimedOut(o.timeoutMs)), effects, Waiting;
    }
    GoesOn(w, o, 5, Waiting);
    var scan := ScanRan(ran);
    if ran.code != Some(0) {
      return NotLifted(ToolchainFailed(ran.code, ran.signal, scan.findings, scan.unparsed)),
             effects, Exiting;
    }
    GoesOn(w, o, 5, Exiting);
    var read;
    outcome, read, stage := Collect(w, o, dir, resolved, scan);
    effects := effects + read;
  }

  lemma Inside(w: World, o: Options, stage: Stage)
    requires GotTo(w, o, 0, 5) && EndsInside(w, o, stage)
    ensures EndsAt(w, o, stage)
  {
    hide Fails;
  }

  lemma CourseOutside(w: World, o: Options)
    ensures var c := CourseOf(w, o);
      && c.path == o.path && c.image == o.image && c.keep == o.keepWorkDir
      && c.inspectMs == Min(o.timeoutMs, IMAGE_RESOLVE_CAP_MS)
      && (w.workDir.Some? ==> c.dir == w.workDir.value)
  {
    hide Resolution;
  }

  method LiftElf(w: World, o: Options)
    returns (outcome: Outcome, effects: seq<Effect>, stage: Stage)
    ensures EndsAt(w, o, stage) && Reports(w, o, stage, outcome)
    ensures effects == Trail(CourseOf(w, o), stage)
  {
    hide Elf.Ruling, F.ReadModule, ResolveImage, EndsInside, TrailInside, GotTo, CourseOf, Min;
    CourseOutside(w, o);
    Starts(w, o, 0);
    effects := [ReadInput(o.path)];
    if w.input.Err? {
      return NotLifted(InputUnreadable(o.path, w.input.error)), effects, Reading;
    }
    GoesOn(w, o, 0, Reading);
    var screening := Elf.ScreenElf(w.input.value);
    if screening.Refused? {
      return NotLifted(RefusedByScreen(screening.reason)), effects, Screening;
    }
    GoesOn(w, o, 0, Screening);
    var budget := Min(o.timeoutMs, IMAGE_RESOLVE_CAP_MS);
    effects := effects + [InspectImage(o.image, budget)];
    if w.inspectThrows {
      return Thrown, effects, Inspecting;
    }
    GoesOn(w, o, 0, Inspecting);
    var resolved := ResolveImage(o.image, o.docker, w.inspected, budget, w.readIdentity);
    if resolved.Err? {
      return NotLifted(DockerFailed(resolved.error)), effects, Resolving;
    }
    GoesOn(w, o, 0, Resolving);
    effects := effects + [MakeWorkDir];
    if w.workDir.None? {
      return Thrown, effects, MakingDir;
    }
    GoesOn(w, o, 0, MakingDir);
    var dir := w.workDir.value;
    var inside;
    outcome, inside, stage := LiftIn(w, o, dir, resolved.value);
    Inside(w, o, stage);
    effects := effects + inside;
    if !o.keepWorkDir {
      effects := effects + [RemoveDir(dir)];
    }
    IsInside(w, o, stage);
  }

  lemma IsInside(w: World, o: Options, stage: Stage)
    requires EndsInside(w, o, stage)
    ensures Rank(stage) >= 5
  {
    hide Fails;
  }

  // ---- safety over every trace -----------------------------------------------------------------

  /** A directory is removed only as the last thing, and is then the one that was made. */
  ghost predicate DirRemovedLast(w: World, o: Options, effects: seq<Effect>) {
    && (MakeWorkDir in effects && w.workDir.Some? && !o.keepWorkDir ==>
          effects[|effects| - 1] == RemoveDir(w.workDir.value))
    && forall i :: 0 <= i < |effects| && effects[i].RemoveDir? ==>
         i == |effects| - 1 && !o.keepWorkDir && MakeWorkDir in effects
  }

  ghost predicate OneContainer(effects: seq<Effect>) {
    forall i, j :: 0 <= i < j < |effects| ==>
      !(effects[i].RunContainer? && effects[j].RunContainer?)
  }

  /** Only a container that was run is removed. */
  ghost predicate NoStrayRemoval(effects: seq<Effect>) {
    forall k :: 0 <= k < |effects| && effects[k].RemoveContainer? ==>
      exists i :: 0 <= i < k && effects[i].RunContainer? && effects[i].name == effects[k].name
  }

  lemma FourthIsContainer(c: Course, stage: Stage)
    ensures Rank(stage) > 5 ==>
      |Trail(c, stage)| > 4 && Trail(c, stage)[4] == RunContainer(c.name, c.dir, c.reference, c.runMs)
  {
  }

  lemma FifthIsRemoval(c: Course, stage: Stage, k: nat)
    requires k < |Trail(c, stage)| && Trail(c, stage)[k].RemoveContainer?
    ensures Rank(stage) > 5 && k == 5 && Trail(c, stage)[k].name == c.name
  {
  }

  /** A container is run at most once, and no other is removed. */
  lemma AtMostOneContainer(c: Course, stage: Stage, effects: seq<Effect>)
    requires effects == Trail(c, stage)
    ensures OneContainer(effects) && NoStrayRemoval(effects)
  {
    hide Trail;
    FourthIsContainer(c, stage);
    forall i | 0 <= i < |effects| && effects[i].RunContainer? ensures i == 4 {
      ContainerComesFourth(c, stage, effects, i);
    }
    forall k | 0 <= k < |effects| && effects[k].RemoveContainer?
      ensures exists i :: 0 <= i < k && effects[i].RunContainer? && effects[i].name == effects[k].name
    {
      FifthIsRemoval(c, stage, k);
      assert effects[4].RunContainer?;
    }
  }

  /** And only after the input was read, the image inspected and the input staged beside it. */
  lemma ContainerComesFourth(c: Course, stage: Stage, effects: seq<Effect>, i: nat)
    requires effects == Trail(c, stage) && i < |effects| && effects[i].RunContainer?
    ensures Rank(stage) > 5 && i == 4
    ensures effects[..5] == [
      ReadInput(c.path), InspectImage(c.image, c.inspectMs), MakeWorkDir,
      StageInput(c.dir, c.bytes), RunContainer(c.name, c.dir, c.reference, c.runMs)]
  {
  }

  /**
   * A container is run only on an input the screen accepts, staged in its own directory, and only
   * with a digest line the daemon answered for the very repository that was asked for.
   */
  lemma ContainerOnlyForWhatWasAsked(
      w: World, o: Options, stage: Stage, effects: seq<Effect>, i: nat)
    requires EndsAt(w, o, stage) && effects == Trail(CourseOf(w, o), stage)
    requires i < |effects| && effects[i].RunContainer?
    ensures w.input.Ok? && Elf.Acceptable(w.input.value)
    ensures w.inspected.code == Some(0) && w.inspected.spawnError == None && !w.inspected.timedOut
    ensures IsAnsweredDigest(w.inspected.stdout, effects[i].reference, RepositoryOf(o.image))
    ensures i == 4 && w.workDir == Some(effects[i].dir)
    ensures effects[3] == StageInput(effects[i].dir, w.input.value)
  {
    hide EndsAt, Trail, Elf.Ruling, Elf.Acceptable, ResolveImage, IsAnsweredDigest, HasArtifact,
         F.ReadModule;
    ContainerComesFourth(CourseOf(w, o), stage, effects, i);
    assert effects[3] == effects[..5][3] && effects[4] == effects[..5][4];
    PastStages(w, o, stage);
    Elf.AcceptsExactly(w.input.value);
    ResolvesOnlyToTheRepositoryAsked(o.image, o.docker, w.inspected,
                                     Min(o.timeoutMs, IMAGE_RESOLVE_CAP_MS), w.readIdentity);
  }

  lemma TrailOfWaiting(c: Course)
    ensures |Trail(c, Waiting)| > 5
    ensures Trail(c, Waiting)[..6] == [
      ReadInput(c.path), InspectImage(c.image, c.inspectMs), MakeWorkDir,
      StageInput(c.dir, c.bytes), RunContainer(c.name, c.dir, c.reference, c.runMs),
      RemoveContainer(c.name, CONTAINER_REMOVE_TIMEOUT_MS)]
  {
  }

  lemma NoRemovalElsewhere(c: Course, stage: Stage)
    requires stage != Waiting
    ensures forall i :: 0 <= i < |Trail(c, stage)| ==> !Trail(c, stage)[i].RemoveContainer?
  {
  }

  /** A container that timed out, and no other, is removed by name, before its directory is. */
  lemma TimedOutContainerGoesBeforeItsDirectory(c: Course, stage: Stage, effects: seq<Effect>)
    requires effects == Trail(c, stage)
    ensures stage == Waiting ==>
      && |effects| > 5 && effects[4].RunContainer?
      && effects[5] == RemoveContainer(effects[4].name, CONTAINER_REMOVE_TIMEOUT_MS)
      && forall j :: 0 <= j <= 5 ==> !effects[j].RemoveDir?
    ensures stage != Waiting ==> forall i :: 0 <= i < |effects| ==> !effects[i].RemoveContainer?
  {
    hide Trail;
    if stage == Waiting {
      TrailOfWaiting(c);
      assert forall j :: 0 <= j <= 5 ==> effects[j] == effects[..6][j];
    } else {
      NoRemovalElsewhere(c, stage);
    }
  }

  /** A work directory that was made is removed as the very last thing, on every exit, unless kept. */
  lemma WorkDirIsRemovedOnEveryExit(w: World, o: Options, stage: Stage, effects: seq<Effect>)
    requires EndsAt(w, o, stage) && effects == Trail(CourseOf(w, o), stage)
    ensures DirRemovedLast(w, o, effects)
  {
    hide EndsAt, Trail, CourseOf;
    TrailRemoves(CourseOf(w, o), stage);
    CourseKeeps(w, o);
    NoDirectoryYet(w, o, stage);
  }

  /** The client was started, and was killed at its deadline while its container went on. */
  predicate LeftRunning(w: World) {
    !w.launchThrows && w.ran.spawnError == None && w.ran.timedOut
  }

  /** What has to be so for the container of effect `i` to be run, and what went before it. */
  ghost predicate Licensed(w: World, o: Options, effects: seq<Effect>, i: nat)
    requires i < |effects| && effects[i].RunContainer?
  {
    && w.input.Ok? && Elf.Acceptable(w.input.value)
    && w.inspected.code == Some(0) && w.inspected.spawnError == None && !w.inspected.timedOut
    && IsAnsweredDigest(w.inspected.stdout, effects[i].reference, RepositoryOf(o.image))
    && w.workDir == Some(effects[i].dir)
    && StageInput(effects[i].dir, w.input.value) in effects[..i] && MakeWorkDir in effects[..i]
  }

  /** It is removed by name, and before any directory is, exactly if it was left running. */
  ghost predicate Cleared(w: World, effects: seq<Effect>, i: nat)
    requires i < |effects| && effects[i].RunContainer?
  {
    LeftRunning(w) <==>
      exists k :: i < k < |effects| && IsRemovalOf(effects, i, k) && NoDirRemoved(effects, k)
  }

  predicate IsRemovalOf(effects: seq<Effect>, i: nat, k: nat)
    requires i < |effects| && effects[i].RunContainer? && k < |effects|
  {
    effects[k] == RemoveContainer(effects[i].name, CONTAINER_REMOVE_TIMEOUT_MS)
  }

  predicate NoDirRemoved(effects: seq<Effect>, k: nat)
    requires k <= |effects|
  {
    forall m :: 0 <= m < k ==> !effects[m].RemoveDir?
  }

  /** What no trace may break, said of the effects and the answers alone. */
  ghost predicate Safe(w: World, o: Options, effects: seq<Effect>) {
    && OneContainer(effects) && NoStrayRemoval(effects)
    && (forall i :: 0 <= i < |effects| && effects[i].RunContainer? ==>
          Licensed(w, o, effects, i) && Cleared(w, effects, i))
    && DirRemovedLast(w, o, effects)
  }

  /** Every run of the driver is safe, whatever it met, and there is one ending it can have had. */
  lemma LiftIsSafe(w: World, o: Options, stage: Stage, effects: seq<Effect>)
    requires EndsAt(w, o, stage) && effects == Trail(CourseOf(w, o), stage)
    ensures Safe(w, o, effects)
    ensures forall other :: EndsAt(w, o, other) ==> other == stage
  {
    hide EndsAt, Trail, Licensed, Cleared, DirRemovedLast, OneContainer, NoStrayRemoval;
    AtMostOneContainer(CourseOf(w, o), stage, effects);
    forall i | 0 <= i < |effects| && effects[i].RunContainer?
      ensures Licensed(w, o, effects, i) && Cleared(w, effects, i)
    {
      ContainerIsLicensed(w, o, stage, effects, i);
      ContainerIsCleared(w, o, stage, effects, i);
    }
    WorkDirIsRemovedOnEveryExit(w, o, stage, effects);
    forall other | EndsAt(w, o, other) ensures other == stage {
      EndsOnce(w, o, other, stage);
    }
  }

  lemma ContainerIsLicensed(
      w: World, o: Options, stage: Stage, effects: seq<Effect>, i: nat)
    requires EndsAt(w, o, stage) && effects == Trail(CourseOf(w, o), stage)
    requires i < |effects| && effects[i].RunContainer?
    ensures Licensed(w, o, effects, i)
  {
    hide EndsAt, Trail, Elf.Acceptable, IsAnsweredDigest, RepositoryOf, CourseOf;
    ContainerOnlyForWhatWasAsked(w, o, stage, effects, i);
    ContainerComesFourth(CourseOf(w, o), stage, effects, i);
    assert effects[..4][3] == effects[3] && effects[..4][2] == effects[..5][2] == MakeWorkDir;
  }

  lemma ContainerIsCleared(
      w: World, o: Options, stage: Stage, effects: seq<Effect>, i: nat)
    requires EndsAt(w, o, stage) && effects == Trail(CourseOf(w, o), stage)
    requires i < |effects| && effects[i].RunContainer?
    ensures Cleared(w, effects, i)
  {
    hide EndsAt, Trail, CourseOf, IsRemovalOf, NoDirRemoved;
    ContainerComesFourth(CourseOf(w, o), stage, effects, i);
    LeftRunningExactlyWhenWaiting(w, o, stage);
    RemovalOf(CourseOf(w, o), stage, effects, i);
  }

  lemma LeftRunningExactlyWhenWaiting(w: World, o: Options, stage: Stage)
    requires EndsAt(w, o, stage) && Rank(stage) > 5
    ensures LeftRunning(w) <==> stage == Waiting
  {
    hide Elf.Ruling, F.ReadModule, Resolution, EndsAt, Fails;
    Passed(w, o, stage, Launching);
    Passed(w, o, stage, Spawning);
    Passed(w, o, stage, Waiting);
    Ended(w, o, stage);
  }

  lemma Ended(w: World, o: Options, stage: Stage)
    requires EndsAt(w, o, stage)
    ensures stage == Launching ==> w.launchThrows
    ensures stage == Spawning ==> w.ran.spawnError.Some?
    ensures stage == Waiting ==> w.ran.timedOut
    ensures stage == Exiting ==> w.ran.code != Some(0)
  {
    hide Elf.Ruling, F.ReadModule, Resolution, HasArtifact, NamedOf;
  }

  lemma RemovalOf(c: Course, stage: Stage, effects: seq<Effect>, i: nat)
    requires effects == Trail(c, stage) && i < |effects| && effects[i].RunContainer?
    ensures stage == Waiting <==>
      exists k :: i < k < |effects| && IsRemovalOf(effects, i, k) && NoDirRemoved(effects, k)
  {
    hide Trail;
    TimedOutContainerGoesBeforeItsDirectory(c, stage, effects);
    ContainerComesFourth(c, stage, effects, i);
    if stage == Waiting {
      assert IsRemovalOf(effects, i, 5) && NoDirRemoved(effects, 5);
    }
  }

  lemma CourseKeeps(w: World, o: Options)
    ensures CourseOf(w, o).keep == o.keepWorkDir && CourseOf(w, o).dir == w.workDir.GetOr("")
    ensures w.workDir.Some? ==> CourseOf(w, o).dir == w.workDir.value
  {
    hide Resolution;
  }

  lemma NoDirectoryYet(w: World, o: Options, stage: Stage)
    requires EndsAt(w, o, stage)
    ensures w.workDir.Some? && Rank(stage) >= 4 ==> Rank(stage) >= 5
  {
    hide Resolution, Elf.Ruling, F.ReadModule, HasArtifact, NamedOf;
  }

  lemma TrailRemoves(c: Course, stage: Stage)
    ensures MakeWorkDir in Trail(c, stage) <==> Rank(stage) >= 4
    ensures Rank(stage) >= 5 && !c.keep ==> Trail(c, stage)[|Trail(c, stage)| - 1] == RemoveDir(c.dir)
    ensures forall i :: 0 <= i < |Trail(c, stage)| && Trail(c, stage)[i].RemoveDir? ==>
      i == |Trail(c, stage)| - 1 && !c.keep && Rank(stage) >= 5
  {
    hide TrailInside;
    NoRemovalInside(c, stage);
    assert Rank(stage) >= 4 ==> Trail(c, stage)[2] == MakeWorkDir;
  }

  lemma NoRemovalInside(c: Course, stage: Stage)
    ensures forall i :: 0 <= i < |TrailInside(c, stage)| ==> !TrailInside(c, stage)[i].RemoveDir?
    ensures MakeWorkDir !in TrailInside(c, stage)
  {
  }

  /**
   * A success means the container exited 0, and the artifact, its feature section and its
   * provenance were all read; every tool has a version that is not blank; and the name is the
   * name of exactly these inputs.
   */
  lemma SuccessMeans(w: World, o: Options, outcome: Outcome)
    requires EndsAt(w, o, Done) && Reports(w, o, Done, outcome)
    ensures outcome.Lifted? && w.input.Ok? && w.meta.Ok? && w.artifact == Ok(outcome.artifact.bytes)
    ensures w.ran.code == Some(0) && !w.ran.timedOut && w.ran.spawnError == None
    ensures var features := F.ReadModule(outcome.artifact.bytes);
      features == F.Features(outcome.artifact.declaredFeatures, outcome.artifact.requiredFeatures)
    ensures forall i :: 0 <= i < |outcome.artifact.toolchain| ==>
      !AllSpace(outcome.artifact.toolchain[i].version)
    ensures exists reference ::
      && IsAnsweredDigest(w.inspected.stdout, reference, RepositoryOf(o.image))
      && IsToolchainOf(outcome.artifact.toolchain, reference, MetaOf(w.meta.value))
    ensures outcome.artifact.inputDigest == w.digest(w.input.value)
    ensures outcome.translation.artifactCid == w.blockCid(outcome.artifact.bytes)
  {
    hide IsToolchainOf, MetaOf, EndsAt, Reports, Elf.Ruling, F.ReadModule, Resolution, ArtifactWith,
         TranslationKeyOf, TranslationCid, IsAnsweredDigest, RepositoryOf, AllSpace;
    PastStages(w, o, Done);
    LiftedIs(w, o, outcome);
    ArtifactHolds(w, Resolution(w, o).value);
    ResolvedReference(w, o);
    NoToolIsBlank(outcome.artifact, w.canonicalCid);
  }

  lemma NoToolIsBlank(artifact: Artifact, canonicalCid: CanonicalCid)
    ensures TranslationCid(TranslationKeyOf(artifact), canonicalCid).Named? ==>
      forall i :: 0 <= i < |artifact.toolchain| ==> !AllSpace(artifact.toolchain[i].version)
  {
    hide TranslationCid, AllSpace;
    NamedKey(TranslationKeyOf(artifact), canonicalCid);
  }

  /** Its name is the name of exactly these inputs, target, tools and features. */
  lemma SuccessIsNamed(w: World, o: Options, outcome: Outcome, encoded: Encoded)
    requires EndsAt(w, o, Done) && Reports(w, o, Done, outcome)
    requires outcome.Lifted? && IsEncodingOfLifted(encoded, outcome.artifact)
    ensures w.canonicalCid(encoded) == Some(outcome.translation.keyCid)
  {
    hide EndsAt, Reports, Elf.Ruling, F.ReadModule, Resolution, ArtifactWith, TranslationKeyOf,
         TranslationCid, IsEncodingOfLifted;
    LiftedIs(w, o, outcome);
    NamesTheLifted(encoded, outcome.artifact, w.canonicalCid);
  }

  /**
   * What an artifact owns up to: the tools without a version, each once, the answer that the record
   * and the file give, and what either stream said, stdout first.
   */
  ghost predicate OwnsUp(artifact: Artifact, meta: Meta, file: Result<string, string>, ran: Ran) {
    && InOrder(artifact.unidentifiedTools)
    && (forall tool :: multiset(artifact.unidentifiedTools)[tool]
                    == if IsMetaTool(tool) && HasNoVersion(meta, tool) then 1 else 0)
    && Answers(meta, file, artifact.undecoded)
    && AreOfTheStreams(artifact.findings, artifact.unparsed, ran)
  }

  /** What was said on stdout, and then what was said on stderr. */
  ghost predicate AreOfTheStreams(findings: seq<Scan.Finding>, unparsed: seq<Scan.Unparsed>, ran: Ran) {
    var out, err := Scan.TextScan(ran.stdout, Scan.Stdout), Scan.TextScan(ran.stderr, Scan.Stderr);
    findings == out.findings + err.findings && unparsed == out.unparsed + err.unparsed
  }

  /** The facts are those of the screen. */
  ghost predicate HasFactsOf(artifact: Artifact, input: seq<byte>) {
    Elf.Ruling(input) == Elf.Accepted(artifact.elf)
  }

  lemma LiftedOwnsUp(w: World, o: Options, outcome: Outcome)
    requires EndsAt(w, o, Done) && Reports(w, o, Done, outcome)
    ensures outcome.Lifted? && outcome.artifact.durationMs == w.durationMs
    ensures w.input.Ok? && HasFactsOf(outcome.artifact, w.input.value)
    ensures w.meta.Ok? && OwnsUp(outcome.artifact, MetaOf(w.meta.value), w.undecodedFile, w.ran)
  {
    hide EndsAt, Reports, Elf.Ruling, F.ReadModule, Resolution, ArtifactWith, MetaOf, OwnsUp,
         TranslationCid, HasFactsOf;
    PastStages(w, o, Done);
    LiftedIs(w, o, outcome);
    ArtifactOwnsUp(w, Resolution(w, o).value);
  }

  /** The image, as the daemon names it, and the version on record of each of the other five. */
  ghost predicate IsToolchainOf(tools: seq<Tool>, reference: string, meta: Meta) {
    && |tools| == 6 && NamedOnce(tools)
    && Tool("elfconv-image", reference) in tools
    && forall name :: IsMetaTool(name) ==>
         Tool(name, if name in meta then meta[name] else "unknown") in tools
  }

  /** What the name of a lift is a name of: the input, the target, the tools and the features. */
  ghost predicate IsEncodingOfLifted(encoded: Encoded, artifact: Artifact) {
    IsEncodingOf(encoded, TranslationKey(artifact.inputDigest, "aarch64-wasi32", artifact.toolchain,
                                         artifact.requiredFeatures))
  }

  lemma NamesTheLifted(encoded: Encoded, artifact: Artifact, canonicalCid: CanonicalCid)
    requires IsEncodingOfLifted(encoded, artifact)
    ensures var named := TranslationCid(TranslationKeyOf(artifact), canonicalCid);
      named.Named? ==> canonicalCid(encoded) == Some(named.cid)
  {
    hide TranslationCid, IsEncodingOf;
    if TranslationCid(TranslationKeyOf(artifact), canonicalCid).Named? {
      NamesTheEncoding(TranslationKeyOf(artifact), canonicalCid, encoded);
    }
  }

  lemma SixNamesOnce(t: seq<Tool>)
    requires |t| == 6 && |t[0].name| == 13 && |t[1].name| == |t[2].name| == 14
    requires |t[3].name| == 5 && |t[4].name| == |t[5].name| == 8
    requires t[1].name != t[2].name && t[4].name != t[5].name
    ensures NamedOnce(t)
  {
  }

  lemma ToolchainIs(reference: string, meta: Meta)
    ensures IsToolchainOf(ToolchainOf(reference, meta), reference, meta)
  {
    hide Lookup, NamedOnce;
    var t := ToolchainOf(reference, meta);
    assert t[0] == Tool("elfconv-image", reference);
    assert t[1].name[3] == 'c' && t[2].name[3] == 'l' && t[4].name[4] == '-' && t[5].name[4] == 'e';
    SixNamesOnce(t);
    forall name | IsMetaTool(name)
      ensures Tool(name, if name in meta then meta[name] else "unknown") in t
    {
      OnRecordOrUnknown(meta, name);
      var tool := Tool(name, Lookup(meta, name).GetOr("unknown"));
      assert tool == t[1] || tool == t[2] || tool == t[3] || tool == t[4] || tool == t[5];
    }
  }

  lemma OnRecordOrUnknown(meta: Meta, name: string)
    ensures Lookup(meta, name).GetOr("unknown") == if name in meta then meta[name] else "unknown"
  {
  }

  lemma LiftedIs(w: World, o: Options, outcome: Outcome)
    requires EndsAt(w, o, Done) && Reports(w, o, Done, outcome)
    ensures HasArtifact(w, o) && outcome.Lifted?
    ensures outcome.artifact == ArtifactWith(w, Resolution(w, o).value)
    ensures var named := TranslationCid(TranslationKeyOf(outcome.artifact), w.canonicalCid);
      named.Named? && outcome.translation.keyCid == named.cid
    ensures outcome.translation.artifactCid == w.blockCid(w.artifact.value)
  {
    hide EndsAt, Fails, Elf.Ruling, F.ReadModule, Resolution, ArtifactWith, TranslationKeyOf,
         TranslationCid;
  }

  lemma ArtifactHolds(w: World, resolved: Resolved)
    requires w.input.Ok? && w.artifact.Ok? && w.meta.Ok?
    requires Elf.Ruling(w.input.value).Accepted?
    requires F.ReadModule(w.artifact.value).Features?
    ensures var artifact, features := ArtifactWith(w, resolved), F.ReadModule(w.artifact.value);
      && artifact.bytes == w.artifact.value
      && features == F.Features(artifact.declaredFeatures, artifact.requiredFeatures)
      && IsToolchainOf(artifact.toolchain, resolved.reference, MetaOf(w.meta.value))
      && artifact.inputDigest == w.digest(w.input.value)
  {
    hide IsToolchainOf, ToolchainOf;
    ToolchainIs(resolved.reference, MetaOf(w.meta.value));
    hide Elf.Ruling, F.ReadModule, MetaOf, ScanOf, ReadUndecoded, VerdictOf, BlindSpotsFor,
         UnidentifiedIn;
  }

  lemma ResolvedReference(w: World, o: Options)
    ensures Resolution(w, o).Ok? ==>
      IsAnsweredDigest(w.inspected.stdout, Resolution(w, o).value.reference, RepositoryOf(o.image))
  {
    hide ResolveImage, IsAnsweredDigest, RepositoryOf;
    ResolvesOnlyToTheRepositoryAsked(o.image, o.docker, w.inspected,
                                     Min(o.timeoutMs, IMAGE_RESOLVE_CAP_MS), w.readIdentity);
  }

  lemma NamedKey(key: TranslationKey, canonicalCid: CanonicalCid)
    ensures var named := TranslationCid(key, canonicalCid);
      named.Named? ==>
        forall i :: 0 <= i < |key.toolchain| ==> !AllSpace(key.toolchain[i].version)
  {
    hide IsBlank, NormaliseFeatures, AsRecord, AllSpace;
    NamesExactlyTheComplete(key, canonicalCid);
  }

  lemma ArtifactOwnsUp(w: World, resolved: Resolved)
    requires w.input.Ok? && w.artifact.Ok? && w.meta.Ok?
    requires Elf.Ruling(w.input.value).Accepted?
    requires F.ReadModule(w.artifact.value).Features?
    ensures ArtifactWith(w, resolved).durationMs == w.durationMs
    ensures HasFactsOf(ArtifactWith(w, resolved), w.input.value)
    ensures OwnsUp(ArtifactWith(w, resolved), MetaOf(w.meta.value), w.undecodedFile, w.ran)
  {
    hide Elf.Ruling, F.ReadModule, MetaOf, ReadUndecoded, VerdictOf, BlindSpotsFor, UnidentifiedIn,
         ToolchainOf, InOrder, HasNoVersion, IsMetaTool, Answers, Scan.TextScan;
    var meta := MetaOf(w.meta.value);
    UnidentifiedAreSorted(meta, META_TOOLS);
    forall tool ensures multiset(META_TOOLS)[tool] == if IsMetaTool(tool) then 1 else 0 {
      MetaToolsAre(tool);
    }
    ProbeAnswersExactly(meta, w.undecodedFile, ReadUndecoded(meta, w.undecodedFile));
  }

  /** A lifted artifact is called clean exactly when nothing was said and nothing left untranslated. */
  lemma LiftedCleanExactly(w: World, o: Options, outcome: Outcome)
    requires EndsAt(w, o, Done) && Reports(w, o, Done, outcome)
    ensures w.meta.Ok? && outcome.Lifted?
    ensures outcome.artifact.verdict.Clean? <==>
      && Scan.AllSilent(w.ran.stdout, Scan.Stdout) && Scan.AllSilent(w.ran.stderr, Scan.Stderr)
      && NothingLeftOver(MetaOf(w.meta.value), w.undecodedFile)
  {
    hide Elf.Ruling, F.ReadModule, Resolution, MetaOf, VerdictOf, ReadUndecoded, TranslationCid,
         Scan.AllSilent, Scan.TextScan, BlindSpotsFor, ToolchainOf, NothingLeftOver;
    PastStages(w, o, Done);
    CleanExactly(w.ran.stdout, w.ran.stderr, MetaOf(w.meta.value), w.undecodedFile);
  }

  /** On every lifted artifact the verdict can be told from what is published with it. */
  lemma LiftedReservationsAreStated(w: World, o: Options, outcome: Outcome)
    requires EndsAt(w, o, Done) && Reports(w, o, Done, outcome)
    ensures var a := outcome.artifact;
      && (a.verdict.Reservations? <==> Reachability in a.blindSpots)
      && (a.verdict.Reservations? <==>
            ShowsReason(a.findings, a.unparsed, a.undecoded, a.blindSpots))
      && CrossMachine in a.blindSpots
      && (ProvenanceUnknown in a.blindSpots <==> Resolution(w, o).value.provenance.Unknown?)
  {
    hide Elf.Ruling, F.ReadModule, Resolution, ArtifactWith, VerdictOf, BlindSpotsFor, EndsAt,
         ShowsReason, TranslationCid, Reports;
    LiftedIs(w, o, outcome);
    PublishedFields(w, Resolution(w, o).value);
    var a := outcome.artifact;
    ReservationsAreStated(a.findings, a.unparsed, a.undecoded, Resolution(w, o).value.provenance);
  }

  lemma PublishedFields(w: World, resolved: Resolved)
    requires w.input.Ok? && w.artifact.Ok? && w.meta.Ok?
    requires Elf.Ruling(w.input.value).Accepted?
    requires F.ReadModule(w.artifact.value).Features?
    ensures var a := ArtifactWith(w, resolved);
      && a.verdict == VerdictOf(a.findings, a.unparsed, a.undecoded)
      && a.blindSpots == BlindSpotsFor(a.undecoded, a.verdict, resolved.provenance)
  {
    hide Elf.Ruling, F.ReadModule, MetaOf, ScanOf, ReadUndecoded, VerdictOf, BlindSpotsFor,
         UnidentifiedIn, ToolchainOf;
  }

  /** What a report that is not a success says of what was met, and how far the lift had got. */
  ghost predicate IsReport(w: World, o: Options, failure: LiftFailure) {
    match failure
    case InputUnreadable(path, detail) => path == o.path && w.input == Err(detail)
    case RefusedByScreen(refusal) =>
      w.input.Ok? && Elf.Ruling(w.input.value) == Elf.Refused(refusal)
    case DockerFailed(cause) =>
      && w.input.Ok? && Elf.Ruling(w.input.value).Accepted? && !w.inspectThrows
      && (|| (Resolution(w, o).Err? && cause == Resolution(w, o).error)
          || (w.staged && w.ran.spawnError.Some?
              && IsSpawnFailure(cause, o.docker, w.ran.spawnErrorCode, w.ran.spawnError.value)))
    case TimedOut(ms) => ms == o.timeoutMs && LeftRunning(w)
    case ToolchainFailed(code, signal, findings, unparsed) =>
      && code == w.ran.code && code != Some(0) && signal == w.ran.signal && Exited(w)
      && AreOfTheStreams(findings, unparsed, w.ran)
    case NoArtifact(detail) => Succeeded(w) && w.artifact == Err(detail)
    case FeaturesUnreadable(unread) =>
      Succeeded(w) && w.artifact.Ok? && F.ReadModule(w.artifact.value) == F.Failed(unread)
    case ProvenanceUnreadable(detail) => Succeeded(w) && IsReadable(w) && w.meta == Err(detail)
    case Unnameable(why) =>
      && Succeeded(w) && !w.digestThrows && HasArtifact(w, o)
      && CacheKey.IsReason(TranslationKeyOf(ArtifactWith(w, Resolution(w, o).value)), why)
  }

  /** The artifact was read, and its feature section. */
  ghost predicate IsReadable(w: World) {
    w.artifact.Ok? && F.ReadModule(w.artifact.value).Features?
  }

  predicate Exited(w: World) {
    !w.launchThrows && w.ran.spawnError == None && !w.ran.timedOut
  }

  predicate Succeeded(w: World) {
    Exited(w) && w.ran.code == Some(0)
  }

  /** Every failure that is reported is one that was met. */
  lemma FailureMeans(w: World, o: Options, stage: Stage, outcome: Outcome)
    requires EndsAt(w, o, stage) && Reports(w, o, stage, outcome) && outcome.NotLifted?
    ensures IsReport(w, o, outcome.failure)
  {
    hide EndsAt, Elf.Ruling, Elf.Acceptable, F.ReadModule, Resolution, ArtifactWith, TranslationCid,
         TranslationKeyOf, IsSpawnFailure, ClassifySpawnFailure, Scan.TextScan, CacheKey.IsReason;
    PastStages(w, o, stage);
    Passed(w, o, stage, Inspecting);
    Passed(w, o, stage, Launching);
    Passed(w, o, stage, Recording);
    Passed(w, o, stage, Digesting);
    Ended(w, o, stage);
    if HasArtifact(w, o) {
      RefusesForTheFirstReason(TranslationKeyOf(ArtifactWith(w, Resolution(w, o).value)),
                               w.canonicalCid);
    }
    if w.ran.spawnError.Some? {
      SpawnFailuresAreTold(o.docker, w.ran.spawnErrorCode, w.ran.spawnError.value);
    }
  }

  /** Nothing is thrown but what was thrown at it. */
  lemma ThrownMeans(w: World, o: Options, stage: Stage, outcome: Outcome)
    requires EndsAt(w, o, stage) && Reports(w, o, stage, outcome) && outcome.Thrown?
    ensures w.inspectThrows || w.workDir == None || !w.staged || w.launchThrows || w.digestThrows
         || w.keyThrows || w.addressThrows
  {
    hide Elf.Ruling, F.ReadModule, Resolution, ArtifactWith, TranslationCid, ScanOf,
         TranslationKeyOf, ClassifySpawnFailure, GotTo;
  }

  /** What the driver does, with the arguments it was asked to do it with. */
  ghost predicate IsOfTheRequest(w: World, o: Options, effect: Effect) {
    match effect
    case ReadInput(path) => path == o.path
    case InspectImage(image, ms) =>
      image == o.image && ms == if o.timeoutMs < 60000 then o.timeoutMs else 60000
    case MakeWorkDir => true
    case StageInput(dir, bytes) => w.workDir == Some(dir) && w.input == Ok(bytes)
    case RunContainer(name, dir, _, ms) =>
      name == w.containerName && w.workDir == Some(dir) && ms == o.timeoutMs
    case RemoveContainer(name, ms) => name == w.containerName && ms == 30000
    case ReadArtifact(dir) => w.workDir == Some(dir)
    case ReadMeta(dir) => w.workDir == Some(dir)
    case RemoveDir(dir) => w.workDir == Some(dir)
  }

  ghost predicate IsOfCourse(c: Course, stage: Stage, effect: Effect) {
    match effect
    case ReadInput(path) => path == c.path
    case InspectImage(image, ms) => image == c.image && ms == c.inspectMs
    case MakeWorkDir => true
    case StageInput(dir, bytes) => dir == c.dir && bytes == c.bytes && Rank(stage) >= 5
    case RunContainer(name, dir, _, ms) =>
      name == c.name && dir == c.dir && ms == c.runMs && Rank(stage) >= 5
    case RemoveContainer(name, ms) => name == c.name && ms == CONTAINER_REMOVE_TIMEOUT_MS
    case ReadArtifact(dir) => dir == c.dir && Rank(stage) >= 5
    case ReadMeta(dir) => dir == c.dir && Rank(stage) >= 5
    case RemoveDir(dir) => dir == c.dir && Rank(stage) >= 5
  }

  lemma InsideTheCourse(c: Course, stage: Stage)
    ensures forall effect :: effect in TrailInside(c, stage) ==> IsOfCourse(c, stage, effect)
  {
    hide Rank;
  }

  lemma OfTheCourse(c: Course, stage: Stage)
    ensures forall effect :: effect in Trail(c, stage) ==> IsOfCourse(c, stage, effect)
  {
    hide TrailInside, Rank;
    InsideTheCourse(c, stage);
  }

  /** Every effect is of what was asked for, within the time that was allowed for it. */
  lemma EffectsAreOfTheRequest(w: World, o: Options, stage: Stage, effects: seq<Effect>)
    requires EndsAt(w, o, stage) && effects == Trail(CourseOf(w, o), stage)
    ensures forall i :: 0 <= i < |effects| ==> IsOfTheRequest(w, o, effects[i])
    ensures effects != [] && effects[0].ReadInput?
  {
    hide EndsAt, Trail, CourseOf, IsOfTheRequest, IsOfCourse;
    PastStages(w, o, stage);
    StartsReading(CourseOf(w, o), stage);
    OfTheCourse(CourseOf(w, o), stage);
    forall i | 0 <= i < |effects| ensures IsOfTheRequest(w, o, effects[i]) {
      assert effects[i] in effects;
      CourseIsTheRequest(w, o, effects[i], stage);
    }
  }

  /** The artifact is read first and straight after its container, and the record after that. */
  ghost predicate ReadInOrder(effects: seq<Effect>) {
    forall i :: 0 < i < |effects| ==>
      && (effects[i].ReadArtifact? ==> effects[i - 1].RunContainer? && effects[i - 1].dir == effects[i].dir)
      && (effects[i].ReadMeta? ==> effects[i - 1] == ReadArtifact(effects[i].dir))
  }

  lemma ResultsAreReadInOrder(w: World, o: Options, stage: Stage, effects: seq<Effect>)
    requires EndsAt(w, o, stage) && effects == Trail(CourseOf(w, o), stage)
    ensures ReadInOrder(effects)
    ensures ReadArtifact(CourseOf(w, o).dir) in effects ==> Succeeded(w)
    ensures ReadMeta(CourseOf(w, o).dir) in effects ==> IsReadable(w)
  {
    hide EndsAt, Trail, CourseOf, Elf.Ruling, F.ReadModule;
    PastStages(w, o, stage);
    Passed(w, o, stage, Launching);
    TrailReadsInOrder(CourseOf(w, o), stage);
  }

  lemma TrailReadsInOrder(c: Course, stage: Stage)
    ensures ReadInOrder(Trail(c, stage))
    ensures ReadArtifact(c.dir) in Trail(c, stage) ==> Rank(stage) >= 10
    ensures ReadMeta(c.dir) in Trail(c, stage) ==> Rank(stage) >= 12
  {
    hide TrailInside, ReadInOrder;
    NothingIsReadInside(c, stage);
    InsideReadsInOrder(c, stage);
    var front := [ReadInput(c.path)]
      + (if Rank(stage) >= 2 then [InspectImage(c.image, c.inspectMs)] else [])
      + (if Rank(stage) >= 4 then [MakeWorkDir] else []);
    var inside := if Rank(stage) >= 5 then TrailInside(c, stage) else [];
    var back := if Rank(stage) < 5 || c.keep then [] else [RemoveDir(c.dir)];
    FramedInOrder(front, inside, back);
    assert Trail(c, stage) == front + (inside + back);
  }

  lemma FramedInOrder(front: seq<Effect>, inside: seq<Effect>, back: seq<Effect>)
    requires ReadInOrder(inside)
    requires inside != [] ==> !inside[0].ReadArtifact? && !inside[0].ReadMeta?
    requires forall effect :: effect in front + back ==> !effect.ReadArtifact? && !effect.ReadMeta?
    ensures ReadInOrder(front + (inside + back))
  {
    var all := front + (inside + back);
    assert forall i :: 0 <= i < |all| && !(0 <= i - |front| < |inside|) ==> all[i] in front + back;
    assert forall i :: 0 <= i < |inside| ==> all[|front| + i] == inside[i];
  }

  lemma NothingIsReadInside(c: Course, stage: Stage)
    ensures Rank(stage) < 10 ==>
      forall effect :: effect in TrailInside(c, stage) ==> !effect.ReadArtifact? && !effect.ReadMeta?
  {
  }

  lemma InsideReadsInOrder(c: Course, stage: Stage)
    ensures var inside := TrailInside(c, stage);
      && ReadInOrder(inside)
      && (inside != [] ==> !inside[0].ReadArtifact? && !inside[0].ReadMeta?)
      && (Rank(stage) < 12 ==> forall effect :: effect in inside ==> !effect.ReadMeta?)
  {
    var run := [StageInput(c.dir, c.bytes), RunContainer(c.name, c.dir, c.reference, c.runMs)];
    assert Rank(stage) >= 10 ==> TrailInside(c, stage) == run + TrailAfterwards(c, stage);
  }

  lemma StartsReading(c: Course, stage: Stage)
    ensures |Trail(c, stage)| > 0 && Trail(c, stage)[0].ReadInput?
  {
  }

  lemma CourseIsTheRequest(w: World, o: Options, effect: Effect, stage: Stage)
    requires Rank(stage) >= 5 ==> w.input.Ok? && w.workDir.Some?
    requires IsOfCourse(CourseOf(w, o), stage, effect)
    ensures IsOfTheRequest(w, o, effect)
  {
    hide Resolution;
  }

  // ---- comparing with a signed record -------------------------------------------------------------

  datatype Vouching = Agrees | VouchesForNothing | KeyMismatch(signed: Cid, produced: Cid)

  function VouchedTranslation(produced: Translation, signed: Option<Cid>): Vouching {
    if signed == None then VouchesForNothing
    else if signed.value == produced.keyCid then Agrees
    else KeyMismatch(signed.value, produced.keyCid)
  }

  /** A record without a key says nothing; one with a key is compared, and both keys are told. */
  lemma VouchingIsTheComparison(produced: Translation, signed: Option<Cid>)
    ensures VouchedTranslation(produced, signed).VouchesForNothing? <==> signed == None
    ensures VouchedTranslation(produced, signed).Agrees? <==> signed == Some(produced.keyCid)
    ensures forall s, p :: VouchedTranslation(produced, signed) == KeyMismatch(s, p) <==>
      signed == Some(s) && p == produced.keyCid && s != p
  {
  }

  /** A record agrees with a lift exactly when it was signed over the same translation. */
  lemma RecordAgreesExactlyOnTheTranslation(
      mine: TranslationKey, theirs: TranslationKey, canonicalCid: CanonicalCid, artifactCid: Cid)
    requires Injective(canonicalCid)
    requires TranslationCid(mine, canonicalCid).Named? && TranslationCid(theirs, canonicalCid).Named?
    ensures var named := TranslationCid(mine, canonicalCid);
      var signed := TranslationCid(theirs, canonicalCid).cid;
      SameTranslation(mine, theirs) <==>
        VouchedTranslation(Translation(named.cid, named.key, artifactCid), Some(signed)).Agrees?
  {
    hide TranslationCid, SameTranslation;
    NameIdentifiesTheTranslation(mine, theirs, canonicalCid);
  }
}
