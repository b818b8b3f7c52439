/** Which image a name resolves to (tools/aot/lift.ts, lines 748-974). */
module Image {
  import opened Common
  import opened Text

  const HOST_EXHAUSTION_CODES: set<string> := {"EAGAIN", "EMFILE", "ENFILE", "ENOMEM"}
  const SHA: string := "@sha256:"
  const IDENTITY_PREFIX: string := "o2-image-identity="

  /** What one child process left behind. */
  datatype Ran = Ran(
    code: Option<int>, signal: Option<string>, stdout: string, stderr: string, timedOut: bool,
    spawnError: Option<string>, spawnErrorCode: Option<string>)

  datatype ImageFailure =
    | DockerUnavailable(detail: string)
    | HostCannotSpawn(command: string, code: string, detail: string)
    | DockerNotAnswering(afterMs: nat)
    | ImageAbsent(image: string)
    | ImageHasNoDigest(image: string)
    | ImageDigestForeign(image: string, repository: string, digests: seq<string>)
    | ImageNameNotPulled(image: string, repository: string, pulled: seq<string>)

  datatype Provenance = Pulled | Unknown

  datatype Resolved = Resolved(reference: string, provenance: Provenance)

  function ClassifySpawnFailure(command: string, code: Option<string>, detail: string)
    : ImageFailure
  {
    if code.Some? && code.value in HOST_EXHAUSTION_CODES
    then HostCannotSpawn(command, code.value, detail)
    else DockerUnavailable(detail)
  }

  /** The client was never started, for want of something on the host, or for want of a client. */
  ghost predicate IsSpawnFailure(failure: ImageFailure, command: string, code: Option<string>,
                                 detail: string)
  {
    if code == Some("EAGAIN") || code == Some("EMFILE") || code == Some("ENFILE")
       || code == Some("ENOMEM")
    then failure == HostCannotSpawn(command, code.value, detail)
    else failure == DockerUnavailable(detail)
  }

  lemma SpawnFailuresAreTold(command: string, code: Option<string>, detail: string)
    ensures IsSpawnFailure(ClassifySpawnFailure(command, code, detail), command, code, detail)
  {
  }

  // ---- references ------------------------------------------------------------------------

  /** The part before any digest. */
  function NamedPart(reference: string): string {
    var at := IndexOf(reference, '@');
    if at == -1 then reference else reference[..at]
  }

  function RepositoryOf(reference: string): string {
    var named := NamedPart(reference);
    var colon := LastIndexOf(named, ':');
    if colon > LastIndexOf(named, '/') then named[..colon] else named
  }

  lemma NamedPartOf(name: string, rest: string)
    requires '@' !in name
    ensures NamedPart(name + "@" + rest) == name && NamedPart(name) == name
  {
    var whole := name + "@" + rest;
    var at := IndexOf(whole, '@');
    assert whole[|name|] == '@';
    assert whole[..|name|] == name;
    assert at <= |name|;
  }

  lemma LastIndexIs(text: string, c: char, at: int)
    requires 0 <= at < |text| && text[at] == c && c !in text[at + 1..]
    ensures LastIndexOf(text, c) == at
  {
    hide LastIndexOf;
  }

  /** A tag or a digest is stripped and nothing else is, whatever port the registry carries. */
  lemma RepositoryStripsTagAndDigest(name: string, tag: string, digest: string)
    requires '@' !in name && '@' !in tag && ':' !in tag && '/' !in tag
    ensures RepositoryOf(name + ":" + tag) == name
    ensures RepositoryOf(name + ":" + tag + "@" + digest) == name
    ensures RepositoryOf(name + "@" + digest) == RepositoryOf(name)
    ensures RepositoryOf(name) == name <==>
      LastIndexOf(name, ':') <= LastIndexOf(name, '/')
  {
    hide NamedPart, LastIndexOf;
    var tagged := name + ":" + tag;
    NamedPartOf(tagged, digest);
    NamedPartOf(name, digest);
    TagIsLast(name, tag);
  }

  lemma NotBehind(text: string, c: char, from: nat)
    requires from <= |text| && c !in text[from..]
    ensures LastIndexOf(text, c) < from
  {
    hide LastIndexOf;
    assert forall i :: from <= i < |text| ==> text[i] == text[from..][i - from];
  }

  lemma TagIsLast(name: string, tag: string)
    requires ':' !in tag && '/' !in tag
    ensures var tagged := name + ":" + tag;
      LastIndexOf(tagged, ':') == |name| > LastIndexOf(tagged, '/') && tagged[..|name|] == name
  {
    hide LastIndexOf;
    var tagged := name + ":" + tag;
    assert tagged[|name|] == ':' && tagged[|name| + 1..] == tag;
    LastIndexIs(tagged, ':', |name|);
    NotBehind(tagged, '/', |name| + 1);
  }

  /** The fully-qualified form: Docker Hub, and its `library`, spelled out. */
  function NormalizeRepository(repository: string): string {
    var segments := Split(repository, '/');
    var first := segments[0];
    if '.' in first || ':' in first || first == "localhost" then repository
    else if |segments| == 1 then "docker.io/library/" + repository
    else "docker.io/" + repository
  }

  /** The first segment of a name is a registry, not a user. */
  predicate IsRegistry(first: string) {
    '.' in first || ':' in first || first == "localhost"
  }

  /** A name with a registry stays; a lone name is in the library, a user's name on the hub. */
  lemma FullyQualified(first: string, rest: string)
    requires '/' !in first
    ensures IsRegistry(first) ==>
      NormalizeRepository(first) == first && NormalizeRepository(first + "/" + rest) == first + "/" + rest
    ensures !IsRegistry(first) ==>
      && NormalizeRepository(first) == "docker.io/library/" + first
      && NormalizeRepository(first + "/" + rest) == "docker.io/" + (first + "/" + rest)
  {
    SplitWhole(first, '/');
    SplitAtSeparator(first, '/', rest);
  }

  const HUB: string := "docker.io"

  /** Normalising twice is normalising once, so both sides of a comparison may be normalised. */
  lemma NormalizingIsIdempotent(repository: string)
    ensures NormalizeRepository(NormalizeRepository(repository)) == NormalizeRepository(repository)
  {
    hide Split;
    var n := NormalizeRepository(repository);
    if n != repository {
      var rest := if |Split(repository, '/')| == 1 then "library/" + repository else repository;
      assert "docker.io/library/" + repository == HUB + "/" + ("library/" + repository);
      assert "docker.io/" + repository == HUB + "/" + repository;
      assert n == HUB + "/" + rest;
      SplitAtSeparator(HUB, '/', rest);
      assert HUB[6] == '.';
      SplitWhole(HUB, '/');
      assert Split(n, '/')[0] == HUB;
    }
  }

  // ---- what the daemon answered -----------------------------------------------------------

  /** Lines of the answer that are digests, trimmed, in order. */
  function DigestLines(lines: seq<string>): seq<string> {
    if lines == [] then []
    else
      (if Contains(Trim(lines[0]), SHA) then [Trim(lines[0])] else []) + DigestLines(lines[1..])
  }

  function IdentityLine(lines: seq<string>): (r: Option<string>)
    ensures r.Some? ==> StartsWith(TrimStart(r.value), IDENTITY_PREFIX)
  {
    if lines == [] then None
    else if StartsWith(TrimStart(lines[0]), IDENTITY_PREFIX) then Some(lines[0])
    else IdentityLine(lines[1..])
  }

  /**
   * `JSON.parse` and the shape checks after it: `None` is unparseable or not an object; an object
   * without a `Pull` list is the empty list.
   */
  type IdentityReader = string -> Option<seq<string>>

  /** The repositories the content was pulled under, or `None` when the daemon did not say. */
  function PulledRepositories(stdout: string, readIdentity: IdentityReader): Option<seq<string>> {
    match IdentityLine(Split(stdout, '\n'))
    case None => None
    case Some(line) =>
      var json := Trim(TrimStart(line)[|IDENTITY_PREFIX|..]);
      if json == "" || json == "null" then None else readIdentity(json)
  }

  /** The line has the marker in front, and that text behind it. */
  ghost predicate IsMarked(line: string, json: string) {
    exists blanks, raw ::
      AllSpace(blanks) && line == blanks + "o2-image-identity=" + raw && IsCoreOf(json, raw)
  }

  lemma MarkedLine(line: string, json: string)
    requires IsMarked(line, json)
    ensures StartsWith(TrimStart(line), IDENTITY_PREFIX)
    ensures Trim(TrimStart(line)[|IDENTITY_PREFIX|..]) == json
  {
    hide IsSpace, AllSpace, Trim, IsCoreOf;
    var blanks, raw :|
      AllSpace(blanks) && line == blanks + "o2-image-identity=" + raw && IsCoreOf(json, raw);
    var core := IDENTITY_PREFIX + raw;
    assert line == blanks + core && core[0] == 'o';
    SpacesAre();
    TrimStartSkips(blanks, core);
    TrimIsTheCore(raw, json);
  }

  lemma PrefixedIsMarked(line: string)
    requires StartsWith(TrimStart(line), IDENTITY_PREFIX)
    ensures IsMarked(line, Trim(TrimStart(line)[|IDENTITY_PREFIX|..]))
  {
    hide AllSpace, Trim, IsCoreOf;
    var blanks := TrimStartParts(line);
    var raw := TrimStart(line)[|IDENTITY_PREFIX|..];
    TrimIsTheCore(raw, Trim(raw));
    assert TrimStart(line) == IDENTITY_PREFIX + raw;
    assert line == blanks + "o2-image-identity=" + raw;
  }

  ghost predicate NoneMarked(lines: seq<string>) {
    forall i, json :: 0 <= i < |lines| ==> !IsMarked(lines[i], json)
  }

  lemma {:induction false} FirstMarked(lines: seq<string>, i: nat, json: string)
    requires i < |lines| && IsMarked(lines[i], json) && NoneMarked(lines[..i])
    ensures IdentityLine(lines) == Some(lines[i])
  {
    hide IsMarked, TrimStart, StartsWith;
    if i == 0 {
      MarkedLine(lines[0], json);
    } else {
      assert lines[..i][0] == lines[0];
      if StartsWith(TrimStart(lines[0]), IDENTITY_PREFIX) {
        PrefixedIsMarked(lines[0]);
        assert false;
      }
      assert lines[1..][..i - 1] == lines[..i][1..];
      assert lines[1..][i - 1] == lines[i];
      FirstMarked(lines[1..], i - 1, json);
    }
  }

  lemma {:induction false} NoMarkNoLine(lines: seq<string>)
    requires NoneMarked(lines)
    ensures IdentityLine(lines) == None
  {
    hide IsMarked, TrimStart, StartsWith;
    if lines != [] {
      if StartsWith(TrimStart(lines[0]), IDENTITY_PREFIX) {
        PrefixedIsMarked(lines[0]);
        assert false;
      }
      NoMarkNoLine(lines[1..]);
    }
  }

  /** The daemon's word on where the content came from is the first marked line, if it says anything. */
  lemma PulledIsTheFirstMarkedLine(stdout: string, readIdentity: IdentityReader)
    ensures var lines := Split(stdout, '\n');
      && (NoneMarked(lines) ==> PulledRepositories(stdout, readIdentity) == None)
      && forall i: nat, json ::
           i < |lines| && IsMarked(lines[i], json) && NoneMarked(lines[..i]) ==>
             PulledRepositories(stdout, readIdentity)
               == if json == "" || json == "null" then None else readIdentity(json)
  {
    hide IsMarked, NoneMarked, IdentityLine, StartsWith, Trim;
    var lines := Split(stdout, '\n');
    if NoneMarked(lines) {
      NoMarkNoLine(lines);
    }
    forall i: nat, json | i < |lines| && IsMarked(lines[i], json) && NoneMarked(lines[..i])
      ensures PulledRepositories(stdout, readIdentity)
           == if json == "" || json == "null" then None else readIdentity(json)
    {
      FirstMarked(lines, i, json);
      MarkedLine(lines[i], json);
    }
  }

  function FirstStartingWith(lines: seq<string>, prefix: string): Option<string> {
    if lines == [] then None
    else if StartsWith(lines[0], prefix) then Some(lines[0])
    else FirstStartingWith(lines[1..], prefix)
  }

  function ResolveImage(image: string, docker: string, inspected: Ran, timeoutMs: nat,
                        readIdentity: IdentityReader): Result<Resolved, ImageFailure>
  {
    if inspected.spawnError.Some? then
      Err(ClassifySpawnFailure(docker, inspected.spawnErrorCode, inspected.spawnError.value))
    else if inspected.timedOut then Err(DockerNotAnswering(timeoutMs))
    else if inspected.code != Some(0) then Err(ImageAbsent(image))
    else
      var digests := DigestLines(Split(inspected.stdout, '\n'));
      var repository := RepositoryOf(image);
      var pulled := PulledRepositories(inspected.stdout, readIdentity);
      var wanted := NormalizeRepository(repository);
      if pulled.Some? && wanted !in pulled.value then
        Err(ImageNameNotPulled(image, wanted, pulled.value))
      else
        match FirstStartingWith(digests, repository + "@")
        case Some(reference) => Ok(Resolved(reference, if pulled.Some? then Pulled else Unknown))
        case None =>
          if digests == [] then Err(ImageHasNoDigest(image))
          else Err(ImageDigestForeign(image, repository, digests))
  }

  /** A line of the answer that is a digest of the repository asked for. */
  predicate IsDigestOf(line: string, repository: string) {
    StartsWith(Trim(line), repository + "@") && Contains(Trim(line), SHA)
  }

  /** The reference is, trimmed, one of the lines answered, and a digest of the repository. */
  ghost predicate IsAnsweredDigest(stdout: string, reference: string, repository: string) {
    && StartsWith(reference, repository + "@") && Contains(reference, SHA)
    && exists i :: 0 <= i < |Split(stdout, '\n')| && Trim(Split(stdout, '\n')[i]) == reference
  }

  /** A line that names the repository and a SHA-256 digest, blanks at its ends or not, is one. */
  lemma DigestLineIsOne(front: string, repository: string, hex: string, back: string)
    requires AllSpace(front) && AllSpace(back)
    requires repository != "" && !IsSpace(repository[0]) && hex != "" && !IsSpace(hex[|hex| - 1])
    ensures IsDigestOf(front + (repository + "@sha256:" + hex) + back, repository)
    ensures Trim(front + (repository + "@sha256:" + hex) + back) == repository + "@sha256:" + hex
  {
    hide IsSpace, AllSpace, Trim, Contains;
    var core := repository + "@sha256:" + hex;
    TrimKeepsTheCore(front, core, back);
    assert core == repository + SHA + hex;
    ContainsIs(core, SHA);
    assert core == (repository + "@") + ("sha256:" + hex);
  }

  lemma {:induction false} DigestLinesAre(lines: seq<string>, digest: string)
    ensures digest in DigestLines(lines) <==>
      Contains(digest, SHA) && exists i :: 0 <= i < |lines| && Trim(lines[i]) == digest
  {
    hide Contains, Trim;
    if lines != [] {
      DigestLinesAre(lines[1..], digest);
      assert lines == [lines[0]] + lines[1..];
      assert forall i :: 1 <= i < |lines| ==> lines[i] == lines[1..][i - 1];
    }
  }

  lemma {:induction false} FirstStarting(lines: seq<string>, prefix: string)
    ensures FirstStartingWith(lines, prefix).Some? ==>
      FirstStartingWith(lines, prefix).value in lines
      && StartsWith(FirstStartingWith(lines, prefix).value, prefix)
    ensures FirstStartingWith(lines, prefix) == None ==>
      forall line :: line in lines ==> !StartsWith(line, prefix)
  {
    hide StartsWith;
    if lines != [] {
      FirstStarting(lines[1..], prefix);
      assert lines == [lines[0]] + lines[1..];
    }
  }

  /** The first line that is a digest of the repository is this one, blanks aside. */
  ghost predicate IsFirstDigest(lines: seq<string>, reference: string, repository: string) {
    exists i :: 0 <= i < |lines| && Trim(lines[i]) == reference && IsDigestOf(lines[i], repository)
      && forall j :: 0 <= j < i ==> !IsDigestOf(lines[j], repository)
  }

  lemma FirstAfter(lines: seq<string>, reference: string, repository: string)
    requires lines != []
    ensures IsDigestOf(lines[0], repository) ==>
      IsFirstDigest(lines, Trim(lines[0]), repository)
    ensures !IsDigestOf(lines[0], repository) && IsFirstDigest(lines[1..], reference, repository) ==>
      IsFirstDigest(lines, reference, repository)
  {
    hide Trim, IsDigestOf;
    var rest := lines[1..];
    if !IsDigestOf(lines[0], repository) && IsFirstDigest(rest, reference, repository) {
      var i :| 0 <= i < |rest| && Trim(rest[i]) == reference && IsDigestOf(rest[i], repository)
        && forall j :: 0 <= j < i ==> !IsDigestOf(rest[j], repository);
      assert lines[i + 1] == rest[i];
      assert forall j :: 0 < j < i + 1 ==> lines[j] == rest[j - 1];
    }
  }

  /** What the first line adds to the digests, and so to the search through them. */
  lemma FirstInFront(lines: seq<string>, prefix: string)
    requires lines != []
    ensures var core, rest := Trim(lines[0]), FirstStartingWith(DigestLines(lines[1..]), prefix);
      FirstStartingWith(DigestLines(lines), prefix)
        == if Contains(core, SHA) && StartsWith(core, prefix) then Some(core) else rest
  {
    hide Trim, Contains, StartsWith;
    var rest := DigestLines(lines[1..]);
    assert ([Trim(lines[0])] + rest)[1..] == rest && [] + rest == rest;
  }

  lemma {:induction false} FirstIsFirst(lines: seq<string>, repository: string)
    ensures var first := FirstStartingWith(DigestLines(lines), repository + "@");
      first.Some? ==> IsFirstDigest(lines, first.value, repository)
  {
    if lines != [] {
      hide Trim, Contains, StartsWith, IsFirstDigest, FirstStartingWith, DigestLines;
      FirstIsFirst(lines[1..], repository);
      FirstInFront(lines, repository + "@");
      FirstAfter(lines, FirstStartingWith(DigestLines(lines), repository + "@").GetOr(""), repository);
    }
  }

  ghost predicate IsAnswered(lines: seq<string>, repository: string) {
    exists i :: 0 <= i < |lines| && IsDigestOf(lines[i], repository)
  }

  /** The first digest under a repository is there exactly when some line is such a digest. */
  lemma FirstDigest(lines: seq<string>, repository: string)
    ensures var first := FirstStartingWith(DigestLines(lines), repository + "@");
      && (first.Some? <==> IsAnswered(lines, repository))
      && (first.Some? ==>
            && StartsWith(first.value, repository + "@") && Contains(first.value, SHA)
            && exists i :: 0 <= i < |lines| && Trim(lines[i]) == first.value)
  {
    hide Trim, Contains, StartsWith;
    var digests, prefix := DigestLines(lines), repository + "@";
    FirstStarting(digests, prefix);
    var first := FirstStartingWith(digests, prefix);
    if first.Some? {
      DigestLinesAre(lines, first.value);
      var i :| 0 <= i < |lines| && Trim(lines[i]) == first.value;
      assert IsDigestOf(lines[i], repository);
    } else {
      forall i | 0 <= i < |lines| ensures !IsDigestOf(lines[i], repository) {
        DigestLinesAre(lines, Trim(lines[i]));
      }
    }
  }

  /**
   * An image resolves exactly when the daemon answered, the name is not known to be borrowed, and
   * some line of the answer is a digest of the very repository asked for; and then to such a line.
   */
  lemma ResolvesOnlyToTheRepositoryAsked(
      image: string, docker: string, inspected: Ran, timeoutMs: nat, readIdentity: IdentityReader)
    ensures var r := ResolveImage(image, docker, inspected, timeoutMs, readIdentity);
      var lines := Split(inspected.stdout, '\n');
      var pulled := PulledRepositories(inspected.stdout, readIdentity);
      r.Ok? <==>
        && inspected.spawnError == None && !inspected.timedOut && inspected.code == Some(0)
        && (pulled.Some? ==> NormalizeRepository(RepositoryOf(image)) in pulled.value)
        && IsAnswered(lines, RepositoryOf(image))
    ensures var r := ResolveImage(image, docker, inspected, timeoutMs, readIdentity);
      r.Ok? ==>
        && IsAnsweredDigest(inspected.stdout, r.value.reference, RepositoryOf(image))
        && IsFirstDigest(Split(inspected.stdout, '\n'), r.value.reference, RepositoryOf(image))
        && r.value.provenance.Unknown? == PulledRepositories(inspected.stdout, readIdentity).None?
  {
    hide Split, Trim, Contains, RepositoryOf, NormalizeRepository, PulledRepositories, StartsWith,
         IsAnswered, DigestLines, FirstStartingWith, IsFirstDigest;
    FirstDigest(Split(inspected.stdout, '\n'), RepositoryOf(image));
    FirstIsFirst(Split(inspected.stdout, '\n'), RepositoryOf(image));
  }

  /** Some line of the answer holds a digest of anything. */
  ghost predicate SomeDigest(lines: seq<string>) {
    exists i :: 0 <= i < |lines| && Contains(Trim(lines[i]), SHA)
  }

  /** Why an image was not resolved. */
  ghost predicate IsReason(failure: ImageFailure, image: string, docker: string, inspected: Ran,
                           timeoutMs: nat, pulled: Option<seq<string>>)
  {
    var lines, repository := Split(inspected.stdout, '\n'), RepositoryOf(image);
    if inspected.spawnError.Some? then
      IsSpawnFailure(failure, docker, inspected.spawnErrorCode, inspected.spawnError.value)
    else if inspected.timedOut then failure == DockerNotAnswering(timeoutMs)
    else if inspected.code != Some(0) then failure == ImageAbsent(image)
    else if pulled.Some? && NormalizeRepository(repository) !in pulled.value then
      failure == ImageNameNotPulled(image, NormalizeRepository(repository), pulled.value)
    else if SomeDigest(lines) then
      && failure.ImageDigestForeign? && failure.image == image && failure.repository == repository
      && !IsAnswered(lines, repository)
      && forall digest :: digest in failure.digests <==> IsSomeDigest(lines, digest)
    else failure == ImageHasNoDigest(image)
  }

  ghost predicate IsSomeDigest(lines: seq<string>, digest: string) {
    Contains(digest, SHA) && exists i :: 0 <= i < |lines| && Trim(lines[i]) == digest
  }

  lemma SomeDigestIsListed(lines: seq<string>)
    ensures DigestLines(lines) == [] <==> !SomeDigest(lines)
    ensures forall digest :: digest in DigestLines(lines) <==> IsSomeDigest(lines, digest)
  {
    hide Trim, Contains, DigestLines;
    forall digest ensures digest in DigestLines(lines) <==> IsSomeDigest(lines, digest) {
      DigestLinesAre(lines, digest);
    }
    if DigestLines(lines) != [] {
      assert DigestLines(lines)[0] in DigestLines(lines);
    }
    if i :| 0 <= i < |lines| && Contains(Trim(lines[i]), SHA) {
      assert IsSomeDigest(lines, Trim(lines[i]));
    }
  }

  /** A refusal names what was observed: what stopped the client, or what the answer lacked. */
  lemma RefusalNamesWhatWasSeen(
      image: string, docker: string, inspected: Ran, timeoutMs: nat, readIdentity: IdentityReader)
    ensures var r := ResolveImage(image, docker, inspected, timeoutMs, readIdentity);
      r.Err? ==> IsReason(r.error, image, docker, inspected, timeoutMs,
                          PulledRepositories(inspected.stdout, readIdentity))
  {
    hide Split, Trim, Contains, RepositoryOf, NormalizeRepository, PulledRepositories, StartsWith,
         IsAnswered, DigestLines, FirstStartingWith, SomeDigest, IsSomeDigest,
         ClassifySpawnFailure, IsSpawnFailure;
    var lines := Split(inspected.stdout, '\n');
    FirstDigest(lines, RepositoryOf(image));
    SomeDigestIsListed(lines);
    SpawnFailuresAreTold(docker, inspected.spawnErrorCode, inspected.spawnError.GetOr(""));
  }
}
