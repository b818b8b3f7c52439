/** Naming a translation by what produced it (packages/aot/src/cache-key.ts). */
module CacheKey {
  import opened Common
  import opened Ordering
  import opened Text

  datatype Tool = Tool(name: string, version: string)

  /** `toolchain` is in entry order, which decides only which blank version is reported. */
  datatype TranslationKey = TranslationKey(
    inputDigest: string, target: string, toolchain: seq<Tool>, features: seq<Name>)

  datatype KeyFailure =
    | EmptyField(field: string)
    | EmptyToolchain
    | BlankVersion(tool: string)
    | Unencodable

  type Cid = seq<byte>

  /** What is encoded and hashed: the toolchain is a record, so its order is gone. */
  datatype Encoded = Encoded(
    inputDigest: string, target: string, toolchain: map<string, string>, features: seq<Name>)

  /** DAG-CBOR and a hash, as one function; `None` is a value it cannot encode. */
  type CanonicalCid = Encoded -> Option<Cid>

  datatype KeyResult = Named(cid: Cid, key: TranslationKey) | Refused(failure: KeyFailure)

  predicate IsBlank(text: string) {
    Trim(text) == ""
  }

  function AsRecord(tools: seq<Tool>): map<string, string> {
    if tools == [] then map[]
    else AsRecord(tools[..|tools| - 1])[tools[|tools| - 1].name := tools[|tools| - 1].version]
  }

  function FirstBlank(tools: seq<Tool>): Option<string> {
    if tools == [] then None
    else if IsBlank(tools[0].version) then Some(tools[0].name)
    else FirstBlank(tools[1..])
  }

  function NormaliseFeatures(features: seq<Name>): seq<Name> {
    SortedDistinct(features)
  }

  function EncodedOf(key: TranslationKey): Encoded {
    Encoded(key.inputDigest, key.target, AsRecord(key.toolchain), NormaliseFeatures(key.features))
  }

  function TranslationCid(key: TranslationKey, canonicalCid: CanonicalCid): KeyResult {
    if IsBlank(key.inputDigest) then Refused(EmptyField("inputDigest"))
    else if IsBlank(key.target) then Refused(EmptyField("target"))
    else if key.toolchain == [] then Refused(EmptyToolchain)
    else
      match FirstBlank(key.toolchain)
      case Some(tool) => Refused(BlankVersion(tool))
      case None =>
        var normalised := key.(features := NormaliseFeatures(key.features));
        match canonicalCid(EncodedOf(key))
        case None => Refused(Unencodable)
        case Some(cid) => Named(cid, normalised)
  }

  // ---- what the record holds ----------------------------------------------------------------

  /** Entry `i` is the last one of that name. */
  ghost predicate LastOf(tools: seq<Tool>, name: string, i: nat) {
    && i < |tools| && tools[i].name == name
    && forall j :: i < j < |tools| ==> tools[j].name != name
  }

  /** The last entry of that name has that version. */
  ghost predicate HasVersion(tools: seq<Tool>, name: string, version: string) {
    exists i: nat :: LastOf(tools, name, i) && tools[i].version == version
  }

  /** Every tool has the same version in both, or is in neither. */
  ghost predicate SameTools(a: seq<Tool>, b: seq<Tool>) {
    forall name, version :: HasVersion(a, name, version) <==> HasVersion(b, name, version)
  }

  ghost predicate Holds(record: map<string, string>, name: string, version: string) {
    name in record && record[name] == version
  }

  /** `record` is what a run of assignments, one to an entry, leaves behind. */
  ghost predicate IsRecordOf(record: map<string, string>, tools: seq<Tool>) {
    forall name, version :: Holds(record, name, version) <==> HasVersion(tools, name, version)
  }

  lemma VersionAfterOneMore(tools: seq<Tool>, tool: Tool, name: string, version: string)
    ensures HasVersion(tools + [tool], name, version) <==>
      if tool.name == name then tool.version == version else HasVersion(tools, name, version)
  {
    var all := tools + [tool];
    assert all[|tools|] == tool && forall j :: 0 <= j < |tools| ==> all[j] == tools[j];
    if tool.name == name {
      assert LastOf(all, name, |tools|);
    } else {
      forall i: nat ensures LastOf(all, name, i) <==> LastOf(tools, name, i) {
        assert LastOf(tools, name, i) ==> forall j :: i < j < |all| ==> all[j].name != name;
        assert LastOf(all, name, i) && i < |tools| ==>
          forall j :: i < j < |tools| ==> all[j].name != name;
      }
    }
  }

  lemma {:induction false} AsRecordIsTheRecord(tools: seq<Tool>)
    ensures IsRecordOf(AsRecord(tools), tools)
  {
    if tools != [] {
      hide HasVersion;
      var n := |tools| - 1;
      AsRecordIsTheRecord(tools[..n]);
      assert tools == tools[..n] + [tools[n]];
      forall name, version
        ensures Holds(AsRecord(tools), name, version) <==> HasVersion(tools, name, version)
      {
        VersionAfterOneMore(tools[..n], tools[n], name, version);
        assert Holds(AsRecord(tools[..n]), name, version) <==> HasVersion(tools[..n], name, version);
      }
    }
  }

  lemma OneRecord(a: map<string, string>, b: map<string, string>)
    requires forall name, version :: Holds(a, name, version) <==> Holds(b, name, version)
    ensures a == b
  {
    forall name ensures name in a <==> name in b {
      if name in a { assert Holds(a, name, a[name]) && Holds(b, name, a[name]); }
      if name in b { assert Holds(b, name, b[name]) && Holds(a, name, b[name]); }
    }
    forall name | name in a ensures a[name] == b[name] {
      assert Holds(a, name, a[name]) && Holds(b, name, a[name]);
    }
  }

  lemma RecordIsItsTools(a: seq<Tool>, b: seq<Tool>)
    ensures AsRecord(a) == AsRecord(b) <==> SameTools(a, b)
  {
    hide AsRecord, HasVersion, Holds;
    AsRecordIsTheRecord(a);
    AsRecordIsTheRecord(b);
    if SameTools(a, b) {
      OneRecord(AsRecord(a), AsRecord(b));
    } else {
      assert AsRecord(a) != AsRecord(b);
    }
  }

  ghost predicate NamedOnce(tools: seq<Tool>) {
    forall i, j :: 0 <= i < j < |tools| ==> tools[i].name != tools[j].name
  }

  lemma EntriesAreVersions(tools: seq<Tool>, tool: Tool)
    requires NamedOnce(tools)
    ensures HasVersion(tools, tool.name, tool.version) <==> tool in tools
  {
    if HasVersion(tools, tool.name, tool.version) {
      var i: nat :| LastOf(tools, tool.name, i) && tools[i].version == tool.version;
      assert tools[i] == tool;
    }
    if tool in tools {
      var i :| 0 <= i < |tools| && tools[i] == tool;
      assert LastOf(tools, tool.name, i);
    }
  }

  /** With every tool named once, as in an object literal, the toolchain is its set of pairs. */
  lemma ToolsNamedOnceAreTheirPairs(a: seq<Tool>, b: seq<Tool>)
    requires NamedOnce(a) && NamedOnce(b)
    ensures SameTools(a, b) <==> forall tool :: tool in a <==> tool in b
  {
    hide HasVersion;
    if SameTools(a, b) {
      forall tool: Tool ensures tool in a <==> tool in b {
        EntriesAreVersions(a, tool);
        EntriesAreVersions(b, tool);
      }
    }
    if forall tool :: tool in a <==> tool in b {
      forall name, version ensures HasVersion(a, name, version) <==> HasVersion(b, name, version) {
        EntriesAreVersions(a, Tool(name, version));
        EntriesAreVersions(b, Tool(name, version));
      }
    }
  }

  // ---- which keys have names, and when two names are one ---------------------------------

  /** A text is blank when it is white space from end to end. */
  lemma BlankIsAllSpace(text: string)
    ensures IsBlank(text) <==> AllSpace(text)
  {
    hide IsSpace, Trim;
    if AllSpace(text) {
      SpaceHasNoCore(text);
    }
    var front, back := TrimParts(text);
    assert Trim(text) == "" ==> text == front + back;
  }

  ghost predicate Complete(key: TranslationKey) {
    && !AllSpace(key.inputDigest) && !AllSpace(key.target) && key.toolchain != []
    && forall i :: 0 <= i < |key.toolchain| ==> !AllSpace(key.toolchain[i].version)
  }

  lemma {:induction false} FirstBlankFindsOne(tools: seq<Tool>)
    ensures FirstBlank(tools) == None <==>
      forall i :: 0 <= i < |tools| ==> !IsBlank(tools[i].version)
    ensures FirstBlank(tools).Some? ==>
      exists i :: 0 <= i < |tools| && IsBlank(tools[i].version)
        && tools[i].name == FirstBlank(tools).value
        && forall j :: 0 <= j < i ==> !IsBlank(tools[j].version)
  {
    hide IsBlank;
    if tools != [] && !IsBlank(tools[0].version) {
      FirstBlankFindsOne(tools[1..]);
      assert tools == [tools[0]] + tools[1..];
      if FirstBlank(tools).Some? {
        var i :| 0 <= i < |tools| - 1 && IsBlank(tools[1..][i].version)
          && tools[1..][i].name == FirstBlank(tools).value
          && forall j :: 0 <= j < i ==> !IsBlank(tools[1..][j].version);
        assert tools[i + 1] == tools[1..][i];
        forall j | 0 <= j < i + 1 ensures !IsBlank(tools[j].version) {
          if j > 0 { assert tools[j] == tools[1..][j - 1]; }
        }
      }
    }
  }

  /** Exactly the complete keys the codec can encode are named. */
  lemma NamesExactlyTheComplete(key: TranslationKey, canonicalCid: CanonicalCid)
    ensures TranslationCid(key, canonicalCid).Named?
      <==> Complete(key) && canonicalCid(EncodedOf(key)).Some?
    ensures Complete(key) ==>
      TranslationCid(key, canonicalCid).Named?
      || TranslationCid(key, canonicalCid) == Refused(Unencodable)
  {
    hide IsBlank, NormaliseFeatures, AsRecord, AllSpace;
    FirstBlankFindsOne(key.toolchain);
    BlankIsAllSpace(key.inputDigest);
    BlankIsAllSpace(key.target);
    forall i | 0 <= i < |key.toolchain|
      ensures IsBlank(key.toolchain[i].version) <==> AllSpace(key.toolchain[i].version)
    {
      BlankIsAllSpace(key.toolchain[i].version);
    }
  }

  /** Why a key is refused: the first of these that holds of it. */
  ghost predicate IsReason(key: TranslationKey, failure: KeyFailure) {
    match failure
    case EmptyField(field) =>
      if field == "inputDigest" then AllSpace(key.inputDigest)
      else field == "target" && !AllSpace(key.inputDigest) && AllSpace(key.target)
    case EmptyToolchain =>
      !AllSpace(key.inputDigest) && !AllSpace(key.target) && key.toolchain == []
    case BlankVersion(tool) =>
      && !AllSpace(key.inputDigest) && !AllSpace(key.target)
      && exists i: nat :: IsFirstBlank(key.toolchain, i) && key.toolchain[i].name == tool
    case Unencodable => Complete(key)
  }

  ghost predicate IsFirstBlank(tools: seq<Tool>, i: nat) {
    && i < |tools| && AllSpace(tools[i].version)
    && forall j :: 0 <= j < i ==> !AllSpace(tools[j].version)
  }

  lemma RefusesForTheFirstReason(key: TranslationKey, canonicalCid: CanonicalCid)
    ensures var r := TranslationCid(key, canonicalCid); r.Refused? ==> IsReason(key, r.failure)
  {
    hide IsBlank, NormaliseFeatures, AsRecord, AllSpace;
    FirstBlankFindsOne(key.toolchain);
    BlankIsAllSpace(key.inputDigest);
    BlankIsAllSpace(key.target);
    forall i | 0 <= i < |key.toolchain|
      ensures IsBlank(key.toolchain[i].version) <==> AllSpace(key.toolchain[i].version)
    {
      BlankIsAllSpace(key.toolchain[i].version);
    }
    if key.toolchain != [] && FirstBlank(key.toolchain).Some? {
      var i :| 0 <= i < |key.toolchain| && IsBlank(key.toolchain[i].version)
        && key.toolchain[i].name == FirstBlank(key.toolchain).value
        && forall j :: 0 <= j < i ==> !IsBlank(key.toolchain[j].version);
      assert IsFirstBlank(key.toolchain, i);
    }
  }

  /** What a name is a name of: every field as given, the tools as a record, the features in order. */
  ghost predicate IsEncodingOf(encoded: Encoded, key: TranslationKey) {
    && encoded.inputDigest == key.inputDigest && encoded.target == key.target
    && IsRecordOf(encoded.toolchain, key.toolchain)
    && StrictlySorted(encoded.features)
    && forall x :: x in encoded.features <==> x in key.features
  }

  /** A name is the name of that encoding, and what is kept beside it has its features in order. */
  lemma NamesTheEncoding(key: TranslationKey, canonicalCid: CanonicalCid, encoded: Encoded)
    requires TranslationCid(key, canonicalCid).Named? && IsEncodingOf(encoded, key)
    ensures var named := TranslationCid(key, canonicalCid);
      canonicalCid(encoded) == Some(named.cid) && named.key == key.(features := encoded.features)
  {
    hide IsBlank, AsRecord, SortedDistinct, Holds, HasVersion, StrictlySorted;
    SortedDistinctIsTheSet(key.features);
    SortedListIsItsSet(encoded.features, SortedDistinct(key.features));
    AsRecordIsTheRecord(key.toolchain);
    OneRecord(encoded.toolchain, AsRecord(key.toolchain));
  }

  ghost predicate Injective(canonicalCid: CanonicalCid) {
    forall a, b ::
      canonicalCid(a).Some? && canonicalCid(a) == canonicalCid(b) ==> a == b
  }

  /** Equal as translations: the features count as a set, and of every tool the last version. */
  ghost predicate SameTranslation(a: TranslationKey, b: TranslationKey) {
    && a.inputDigest == b.inputDigest && a.target == b.target
    && SameTools(a.toolchain, b.toolchain)
    && forall x :: x in a.features <==> x in b.features
  }

  /** Two named keys have one name exactly when they are one translation. */
  lemma NameIdentifiesTheTranslation(
      a: TranslationKey, b: TranslationKey, canonicalCid: CanonicalCid)
    requires Injective(canonicalCid)
    requires TranslationCid(a, canonicalCid).Named? && TranslationCid(b, canonicalCid).Named?
    ensures TranslationCid(a, canonicalCid).cid == TranslationCid(b, canonicalCid).cid
      <==> SameTranslation(a, b)
  {
    hide IsBlank, AsRecord, SortedDistinct, SameTools;
    NormalFormIsTheSet(a.features, b.features);
    RecordIsItsTools(a.toolchain, b.toolchain);
  }

  /** The recorded key is already in normal form: naming it again changes nothing. */
  lemma RecordedKeyKeepsItsName(key: TranslationKey, canonicalCid: CanonicalCid)
    requires TranslationCid(key, canonicalCid).Named?
    ensures TranslationCid(TranslationCid(key, canonicalCid).key, canonicalCid)
         == TranslationCid(key, canonicalCid)
  {
    hide IsBlank, AsRecord, SortedDistinct;
    SortedDistinctIsTheSet(key.features);
    NormalFormIsTheSet(key.features, SortedDistinct(key.features));
  }
}
