/** The bundled remote-server artefacts: create, verify and copy a directory with its manifest. */
module RemoteBundle {
  import opened Options

  // ---------------------------------------------------------------- files and JSON

  datatype Json =
    | Null
    | Bool(b: bool)
    | Number(n: int)
    | Str(s: string)
    | List(items: seq<Json>)
    | Object(fields: map<string, Json>)

  /** What a file holds; JSON text is kept as the value it stands for. */
  datatype Content = Blob(bytes: seq<nat>) | JsonText(json: Json)

  datatype Entry = File(content: Content) | Folder

  type Dir = map<string, Entry>

  /** The digest of a file. */
  type Hash = Content -> string

  datatype Error = ValueError | AttributeError | TypeError | FileNotFoundError

  datatype Outcome = Done | Raised(error: Error)

  predicate IsFile(d: Dir, name: string) {
    name in d && d[name].File?
  }

  predicate Empty(c: Content) {
    c == Blob([])
  }

  /** `dict.get`, for a value that is a dict. */
  function Get(fields: map<string, Json>, key: string): Json {
    if key in fields then fields[key] else Null
  }

  // ---------------------------------------------------------------- artefacts and records

  datatype Artifact = Artifact(os: string, arch: string, file: string)

  const ARTIFACTS: seq<Artifact> := [
    Artifact("linux", "x86_64", "infinishell-linux-x86_64.tar.gz"),
    Artifact("linux", "aarch64", "infinishell-linux-aarch64.tar.gz"),
    Artifact("macos", "x86_64", "infinishell-macos-x86_64.tar.gz"),
    Artifact("macos", "aarch64", "infinishell-macos-aarch64.tar.gz"),
    Artifact("windows", "x86_64", "infinishell-windows-x86_64.zip"),
    Artifact("windows", "aarch64", "infinishell-windows-aarch64.zip")
  ]

  const MANIFEST := "manifest.json"

  predicate Usable(d: Dir, a: Artifact) {
    IsFile(d, a.file) && !Empty(d[a.file].content)
  }

  function Record(hash: Hash, d: Dir, a: Artifact): Json
    requires Usable(d, a)
  {
    Object(map["os" := Str(a.os), "arch" := Str(a.arch), "file" := Str(a.file),
               "sha256" := Str(hash(d[a.file].content))])
  }

  /** `expected_records`; None when it raises ValueError for a missing or empty artefact. */
  function ExpectedRecords(hash: Hash, d: Dir, artifacts: seq<Artifact>): (records: Option<seq<Json>>)
    ensures records.Some? <==> forall a :: a in artifacts ==> Usable(d, a)
    ensures records.Some? ==> |records.value| == |artifacts|
    ensures records.Some? ==> forall i :: 0 <= i < |artifacts| ==> records.value[i] == Record(hash, d, artifacts[i])
  {
    if artifacts == [] then Some([])
    else
      var before := ExpectedRecords(hash, d, artifacts[..|artifacts| - 1]);
      var last := artifacts[|artifacts| - 1];
      assert artifacts == artifacts[..|artifacts| - 1] + [last];
      if before.Some? && Usable(d, last) then Some(before.value + [Record(hash, d, last)]) else None
  }

  /** The artefacts present in a directory, in the order of the list. */
  function Present(d: Dir, artifacts: seq<Artifact>): (present: seq<Artifact>)
    ensures forall a :: a in present <==> a in artifacts && IsFile(d, a.file)
  {
    if artifacts == [] then []
    else
      (if IsFile(d, artifacts[0].file) then [artifacts[0]] else []) + Present(d, artifacts[1..])
  }

  // ---------------------------------------------------------------- verify, as a function

  /** A dict or list cannot be part of a set member. */
  predicate Hashable(j: Json) {
    !j.List? && !j.Object?
  }

  /** The artefact of a platform, if it is a known one. */
  function Allowed(os: Json, arch: Json): Option<Artifact> {
    FindPlatform(ARTIFACTS, os, arch)
  }

  function FindPlatform(artifacts: seq<Artifact>, os: Json, arch: Json): (found: Option<Artifact>)
    ensures found.Some? ==> found.value in artifacts && os == Str(found.value.os) && arch == Str(found.value.arch)
  {
    if artifacts == [] then None
    else if os == Str(artifacts[0].os) && arch == Str(artifacts[0].arch) then Some(artifacts[0])
    else FindPlatform(artifacts[1..], os, arch)
  }

  datatype Selection = Selected(artifacts: seq<Artifact>) | Refused(error: Error)

  /** The partial manifest's records, checked in order against the platforms seen so far. */
  function Select(records: seq<Json>, seen: set<(Json, Json)>): Selection {
    if records == [] then Selected([])
    else if !records[0].Object? then Refused(ValueError)
    else
      var fields := records[0].fields;
      var key := (Get(fields, "os"), Get(fields, "arch"));
      if !Hashable(key.0) || !Hashable(key.1) then Refused(TypeError)
      else if key in seen then Refused(ValueError)
      else
        var artifact := Allowed(key.0, key.1);
        if artifact.None? || Get(fields, "file") != Str(artifact.value.file) then Refused(ValueError)
        else
          match Select(records[1..], seen + {key})
          case Refused(error) => Refused(error)
          case Selected(rest) => Selected([artifact.value] + rest)
  }

  function ManifestOf(d: Dir): Option<Json> {
    if IsFile(d, MANIFEST) && d[MANIFEST].content.JsonText? then Some(d[MANIFEST].content.json) else None
  }

  function Verify(hash: Hash, d: Dir, version: string, partial: bool): Outcome {
    match ManifestOf(d)
    case None => Raised(ValueError)
    case Some(manifest) =>
      if !manifest.Object? then Raised(AttributeError)
      else if Get(manifest.fields, "version") != Str(version) then Raised(ValueError)
      else
        var listed := Get(manifest.fields, "artifacts");
        if partial && (!listed.List? || listed.items == []) then Raised(ValueError)
        else
          var selection := if partial then Select(listed.items, {}) else Selected(ARTIFACTS);
          if selection.Refused? then Raised(selection.error)
          else
            var expected := ExpectedRecords(hash, d, selection.artifacts);
            if expected.None? || listed != List(expected.value) then Raised(ValueError) else Done
  }

  // ---------------------------------------------------------------- what verification means

  predicate Distinct(artifacts: seq<Artifact>) {
    forall i, j :: 0 <= i < j < |artifacts| ==> artifacts[i] != artifacts[j]
  }

  predicate IsKnown(a: Artifact) {
    a in ARTIFACTS
  }

  predicate Known(artifacts: seq<Artifact>) {
    forall i :: 0 <= i < |artifacts| ==> IsKnown(artifacts[i])
  }

  /** The directory's manifest names this version and lists exactly these artefacts, each present,
      not empty, and with its digest. */
  predicate Describes(hash: Hash, d: Dir, version: string, artifacts: seq<Artifact>) {
    && ManifestOf(d).Some? && ManifestOf(d).value.Object?
    && Get(ManifestOf(d).value.fields, "version") == Str(version)
    && ExpectedRecords(hash, d, artifacts).Some?
    && Get(ManifestOf(d).value.fields, "artifacts") == List(ExpectedRecords(hash, d, artifacts).value)
  }

  /** The artefact list, looked up by platform: the platforms are all different. */
  lemma PlatformsAreDifferent()
    ensures forall a :: IsKnown(a) ==> Allowed(Str(a.os), Str(a.arch)) == Some(a)
  {
    forall a | IsKnown(a)
      ensures Allowed(Str(a.os), Str(a.arch)) == Some(a)
    {
      var i :| 0 <= i < |ARTIFACTS| && ARTIFACTS[i] == a;
      FindsOwnPlatform(i);
    }
  }

  lemma OsNamesDiffer()
    ensures "linux" != "macos" && "linux" != "windows" && "macos" != "windows" && "x86_64" != "aarch64"
  {
    assert "linux"[0] != "macos"[0];
    assert |"windows"| == 7 && |"linux"| == 5 && |"macos"| == 5 && |"x86_64"| == 6 && |"aarch64"| == 7;
  }

  lemma FindsOwnPlatform(i: nat)
    requires i < |ARTIFACTS|
    ensures Allowed(Str(ARTIFACTS[i].os), Str(ARTIFACTS[i].arch)) == Some(ARTIFACTS[i])
  {
    OsNamesDiffer();
    var a := ARTIFACTS[i];
    FindSkips(ARTIFACTS, Str(a.os), Str(a.arch), i);
  }

  lemma {:induction false} FindSkips(artifacts: seq<Artifact>, os: Json, arch: Json, i: nat)
    requires i < |artifacts| && os == Str(artifacts[i].os) && arch == Str(artifacts[i].arch)
    requires forall j :: 0 <= j < i ==> os != Str(artifacts[j].os) || arch != Str(artifacts[j].arch)
    ensures FindPlatform(artifacts, os, arch) == Some(artifacts[i])
  {
    if i > 0 {
      FindSkips(artifacts[1..], os, arch, i - 1);
    }
  }

  /** No artefact is called like the manifest. */
  lemma ManifestIsNoArtifact()
    ensures forall a :: IsKnown(a) ==> a.file != MANIFEST
  {
    assert |MANIFEST| == 13;
    assert forall i :: 0 <= i < |ARTIFACTS| ==> |ARTIFACTS[i].file| > 13;
  }

  lemma ArtifactsAreDistinct()
    ensures Distinct(ARTIFACTS) && Known(ARTIFACTS) && ARTIFACTS != []
  {
    OsNamesDiffer();
  }

  /** A record that names a known artefact. */
  predicate Names(record: Json, a: Artifact) {
    && record.Object?
    && Get(record.fields, "os") == Str(a.os)
    && Get(record.fields, "arch") == Str(a.arch)
    && Get(record.fields, "file") == Str(a.file)
  }

  function Key(a: Artifact): (Json, Json) {
    (Str(a.os), Str(a.arch))
  }

  lemma RecordNamesItsArtifact(hash: Hash, d: Dir, a: Artifact)
    requires Usable(d, a)
    ensures Names(Record(hash, d, a), a)
  {
  }

  /** Known artefacts with different places in the list are on different platforms. */
  lemma KeysDetermineArtifacts(a: Artifact, b: Artifact)
    requires IsKnown(a) && IsKnown(b) && Key(a) == Key(b)
    ensures a == b
  {
    hide IsKnown, Allowed;
    PlatformsAreDifferent();
  }

  /** Different known artefacts, one named by each record, on platforms not seen before. */
  ghost predicate NamesEach(records: seq<Json>, seen: set<(Json, Json)>, artifacts: seq<Artifact>) {
    && |artifacts| == |records| && Known(artifacts) && Distinct(artifacts)
    && forall i :: 0 <= i < |records| ==> Names(records[i], artifacts[i]) && Key(artifacts[i]) !in seen
  }

  lemma {:induction false} SelectSound(records: seq<Json>, seen: set<(Json, Json)>)
    requires Select(records, seen).Selected?
    ensures NamesEach(records, seen, Select(records, seen).artifacts)
    decreases |records|
  {
    if records != [] {
      var fields := records[0].fields;
      var key := (Get(fields, "os"), Get(fields, "arch"));
      SelectSound(records[1..], seen + {key});
      var rest := Select(records[1..], seen + {key}).artifacts;
      var first := Allowed(key.0, key.1).value;
      assert Select(records, seen).artifacts == [first] + rest;
      NamesEachCons(records, seen, first, rest);
    }
  }

  lemma NamesEachCons(records: seq<Json>, seen: set<(Json, Json)>, first: Artifact, rest: seq<Artifact>)
    requires records != [] && Names(records[0], first) && IsKnown(first) && Key(first) !in seen
    requires NamesEach(records[1..], seen + {Key(first)}, rest)
    ensures NamesEach(records, seen, [first] + rest)
  {
    hide Names, IsKnown;
    var artifacts := [first] + rest;
    forall i, j | 0 <= i < j < |artifacts|
      ensures artifacts[i] != artifacts[j]
    {
      if i == 0 {
        assert Key(rest[j - 1]) !in seen + {Key(first)};
      }
    }
    forall i | 0 <= i < |records|
      ensures Names(records[i], artifacts[i]) && Key(artifacts[i]) !in seen
    {
      if i > 0 {
        assert records[i] == records[1..][i - 1];
      }
    }
  }

  lemma SelectStep(records: seq<Json>, seen: set<(Json, Json)>, first: Artifact)
    requires records != [] && Names(records[0], first) && IsKnown(first) && Key(first) !in seen
    ensures Select(records, seen) == Prepend([first], Select(records[1..], seen + {Key(first)}))
  {
    hide IsKnown, Allowed;
    PlatformsAreDifferent();
    var rest := Select(records[1..], seen + {Key(first)});
    assert Allowed(Str(first.os), Str(first.arch)) == Some(first);
  }

  lemma NamesEachTail(records: seq<Json>, seen: set<(Json, Json)>, artifacts: seq<Artifact>)
    requires records != [] && NamesEach(records, seen, artifacts)
    ensures NamesEach(records[1..], seen + {Key(artifacts[0])}, artifacts[1..])
  {
    hide Names, IsKnown;
    var first, rest := artifacts[0], artifacts[1..];
    forall i | 0 <= i < |rest|
      ensures Names(records[1..][i], rest[i]) && Key(rest[i]) !in seen + {Key(first)}
    {
      assert rest[i] == artifacts[i + 1] && records[1..][i] == records[i + 1];
      if Key(rest[i]) == Key(first) {
        KeysDetermineArtifacts(rest[i], first);
      }
    }
  }

  lemma {:induction false} SelectComplete(records: seq<Json>, seen: set<(Json, Json)>, artifacts: seq<Artifact>)
    requires NamesEach(records, seen, artifacts)
    ensures Select(records, seen) == Selected(artifacts)
    decreases |records|
  {
    hide Names, IsKnown, Allowed, Distinct;
    if records != [] {
      NamesEachTail(records, seen, artifacts);
      SelectComplete(records[1..], seen + {Key(artifacts[0])}, artifacts[1..]);
      SelectStep(records, seen, artifacts[0]);
      assert artifacts == [artifacts[0]] + artifacts[1..];
    }
  }

  /** Partial verification succeeds exactly when the manifest describes some selection of the
      known artefacts, at least one and none twice. */
  lemma PartialVerifyIff(hash: Hash, d: Dir, version: string)
    ensures Verify(hash, d, version, true) == Done <==>
      exists artifacts ::
        artifacts != [] && Known(artifacts) && Distinct(artifacts) && Describes(hash, d, version, artifacts)
  {
    if Verify(hash, d, version, true) == Done {
      var listed := Get(ManifestOf(d).value.fields, "artifacts").items;
      SelectSound(listed, {});
      var artifacts := Select(listed, {}).artifacts;
      assert artifacts != [] && Known(artifacts) && Distinct(artifacts) && Describes(hash, d, version, artifacts);
    }
    if artifacts :|
      artifacts != [] && Known(artifacts) && Distinct(artifacts) && Describes(hash, d, version, artifacts) {
      DescribedPassesPartial(hash, d, version, artifacts);
    }
  }

  lemma DescribedPassesPartial(hash: Hash, d: Dir, version: string, artifacts: seq<Artifact>)
    requires artifacts != [] && Known(artifacts) && Distinct(artifacts) && Describes(hash, d, version, artifacts)
    ensures Verify(hash, d, version, true) == Done
  {
    hide Select, Record, Names, Usable;
    var records := ExpectedRecords(hash, d, artifacts).value;
    forall i | 0 <= i < |records|
      ensures Names(records[i], artifacts[i])
    {
      assert artifacts[i] in artifacts;
      RecordNamesItsArtifact(hash, d, artifacts[i]);
    }
    SelectComplete(records, {}, artifacts);
  }

  /** Full verification succeeds exactly when the manifest describes all six artefacts. */
  lemma FullVerifyIff(hash: Hash, d: Dir, version: string)
    ensures Verify(hash, d, version, false) == Done <==> Describes(hash, d, version, ARTIFACTS)
  {
    hide Record, ExpectedRecords;
  }

  /** Whatever passes full verification passes partial verification. */
  lemma FullImpliesPartial(hash: Hash, d: Dir, version: string)
    requires Verify(hash, d, version, false) == Done
    ensures Verify(hash, d, version, true) == Done
  {
    hide Verify, Describes;
    FullVerifyIff(hash, d, version);
    ArtifactsAreDistinct();
    DescribedPassesPartial(hash, d, version, ARTIFACTS);
  }

  // ---------------------------------------------------------------- what is in the directory

  /** The JSON value of the four fields of an artefact with this content. */
  predicate Attests(hash: Hash, record: Json, a: Artifact, content: Content) {
    && record.Object?
    && record.fields.Keys == {"os", "arch", "file", "sha256"}
    && record.fields["os"] == Str(a.os) && record.fields["arch"] == Str(a.arch)
    && record.fields["file"] == Str(a.file) && record.fields["sha256"] == Str(hash(content))
  }

  /** The artefacts are files that are not empty, and record for record the manifest attests them. */
  predicate AttestsEach(hash: Hash, d: Dir, records: seq<Json>, artifacts: seq<Artifact>) {
    && |records| == |artifacts|
    && forall i :: 0 <= i < |artifacts| ==>
         && artifacts[i].file in d && d[artifacts[i].file].File?
         && d[artifacts[i].file].content != Blob([])
         && Attests(hash, records[i], artifacts[i], d[artifacts[i].file].content)
  }

  /** The manifest is a JSON object with this version and a list of records that attest the artefacts. */
  predicate ManifestAttests(hash: Hash, d: Dir, version: string, artifacts: seq<Artifact>) {
    && "manifest.json" in d && d["manifest.json"].File? && d["manifest.json"].content.JsonText?
    && var manifest := d["manifest.json"].content.json;
      && manifest.Object?
      && "version" in manifest.fields && manifest.fields["version"] == Str(version)
      && "artifacts" in manifest.fields && manifest.fields["artifacts"].List?
      && AttestsEach(hash, d, manifest.fields["artifacts"].items, artifacts)
  }

  lemma AttestsIff(hash: Hash, record: Json, d: Dir, a: Artifact)
    requires Usable(d, a)
    ensures Attests(hash, record, a, d[a.file].content) <==> record == Record(hash, d, a)
  {
    var expected := Record(hash, d, a);
    assert expected.fields.Keys == {"os", "arch", "file", "sha256"};
    if Attests(hash, record, a, d[a.file].content) {
      assert forall key :: key in record.fields ==> record.fields[key] == expected.fields[key];
      assert record.fields == expected.fields;
    }
  }

  lemma AttestsEachIff(hash: Hash, d: Dir, records: seq<Json>, artifacts: seq<Artifact>)
    ensures AttestsEach(hash, d, records, artifacts) <==> ExpectedRecords(hash, d, artifacts) == Some(records)
  {
    hide Attests, Record, ExpectedRecords;
    assert forall i :: 0 <= i < |artifacts| ==> artifacts[i] in artifacts;
    forall i | 0 <= i < |artifacts| && |records| == |artifacts| && Usable(d, artifacts[i])
      ensures Attests(hash, records[i], artifacts[i], d[artifacts[i].file].content)
              <==> records[i] == Record(hash, d, artifacts[i])
    {
      AttestsIff(hash, records[i], d, artifacts[i]);
    }
    if AttestsEach(hash, d, records, artifacts) {
      forall a | a in artifacts ensures Usable(d, a) {
        var i :| 0 <= i < |artifacts| && artifacts[i] == a;
      }
      assert ExpectedRecords(hash, d, artifacts).value == records;
    }
  }

  lemma ManifestAttestsIff(hash: Hash, d: Dir, version: string, artifacts: seq<Artifact>)
    ensures ManifestAttests(hash, d, version, artifacts) <==> Describes(hash, d, version, artifacts)
  {
    hide AttestsEach, ExpectedRecords;
    if ManifestOf(d).Some? && ManifestOf(d).value.Object? {
      var listed := Get(ManifestOf(d).value.fields, "artifacts");
      if listed.List? {
        AttestsEachIff(hash, d, listed.items, artifacts);
      }
    }
  }

  /** What verification establishes about the files themselves: full verification succeeds if and only if
      the manifest attests all six artefacts, and partial verification if and only if it attests some
      known ones, at least one and none twice. */
  lemma VerifiedIff(hash: Hash, d: Dir, version: string)
    ensures Verify(hash, d, version, false) == Done <==> ManifestAttests(hash, d, version, ARTIFACTS)
    ensures Verify(hash, d, version, true) == Done <==>
      exists artifacts ::
        artifacts != [] && Known(artifacts) && Distinct(artifacts) && ManifestAttests(hash, d, version, artifacts)
  {
    hide Verify, Known, Distinct, Describes, ManifestAttests;
    FullVerifyIff(hash, d, version);
    PartialVerifyIff(hash, d, version);
    ManifestAttestsIff(hash, d, version, ARTIFACTS);
    forall artifacts: seq<Artifact>
      ensures ManifestAttests(hash, d, version, artifacts) <==> Describes(hash, d, version, artifacts)
    {
      ManifestAttestsIff(hash, d, version, artifacts);
    }
  }

  /** A file that the verified manifest lists, replaced by one with another digest, or by nothing, or by an
      empty file. */
  predicate Tampers(hash: Hash, before: Entry, after: Option<Entry>) {
    match after
    case None => true
    case Some(Folder) => true
    case Some(File(content)) => content == Blob([]) || (before.File? && hash(content) != hash(before.content))
  }

  function Replaced(d: Dir, name: string, entry: Option<Entry>): Dir {
    match entry
    case None => d - {name}
    case Some(e) => d[name := e]
  }

  lemma TamperingBreaksAttest(hash: Hash, d: Dir, version: string, artifacts: seq<Artifact>, i: nat,
                              entry: Option<Entry>, others: seq<Artifact>)
    requires ManifestAttests(hash, d, version, artifacts) && Known(artifacts)
    requires i < |artifacts| && Tampers(hash, d[artifacts[i].file], entry)
    ensures !ManifestAttests(hash, Replaced(d, artifacts[i].file, entry), version, others)
  {
    ManifestIsNoArtifact();
    var d' := Replaced(d, artifacts[i].file, entry);
    assert d'[MANIFEST] == d[MANIFEST];
  }

  lemma SameDigestAttests(hash: Hash, d: Dir, version: string, artifacts: seq<Artifact>, i: nat, entry: Option<Entry>)
    requires ManifestAttests(hash, d, version, artifacts) && Known(artifacts)
    requires i < |artifacts| && !Tampers(hash, d[artifacts[i].file], entry)
    ensures ManifestAttests(hash, Replaced(d, artifacts[i].file, entry), version, artifacts)
  {
    ManifestIsNoArtifact();
    var d' := Replaced(d, artifacts[i].file, entry);
    assert d'[MANIFEST] == d[MANIFEST];
  }

  /** Tampering is found: a verified directory in which a listed artefact is replaced still verifies, fully
      or partially, if and only if the replacement is a file that is not empty and has the same digest. */
  lemma TamperingIsFound(hash: Hash, d: Dir, version: string, artifacts: seq<Artifact>, i: nat, entry: Option<Entry>)
    requires ManifestAttests(hash, d, version, artifacts) && Known(artifacts) && Distinct(artifacts)
    requires i < |artifacts|
    ensures var d' := Replaced(d, artifacts[i].file, entry);
      && (Verify(hash, d', version, true) == Done <==> !Tampers(hash, d[artifacts[i].file], entry))
      && (artifacts == ARTIFACTS ==>
            (Verify(hash, d', version, false) == Done <==> !Tampers(hash, d[artifacts[i].file], entry)))
      && (Tampers(hash, d[artifacts[i].file], entry) ==> Verify(hash, d', version, false) != Done)
  {
    var file := artifacts[i].file;
    var before := d[file];
    hide Verify, Distinct, Known, ManifestAttests, Tampers, Replaced;
    var d' := Replaced(d, file, entry);
    VerifiedIff(hash, d', version);
    if Tampers(hash, before, entry) {
      forall others: seq<Artifact> ensures !ManifestAttests(hash, d', version, others) {
        TamperingBreaksAttest(hash, d, version, artifacts, i, entry, others);
      }
    } else {
      SameDigestAttests(hash, d, version, artifacts, i, entry);
    }
  }

  // ---------------------------------------------------------------- errors

  /** The record selects an artefact on a platform not seen before. */
  predicate Selects(record: Json, seen: set<(Json, Json)>) {
    && record.Object?
    && Hashable(Get(record.fields, "os")) && Hashable(Get(record.fields, "arch"))
    && var key := (Get(record.fields, "os"), Get(record.fields, "arch"));
      && key !in seen
      && Allowed(key.0, key.1).Some? && Get(record.fields, "file") == Str(Allowed(key.0, key.1).value.file)
  }

  /** The platform of the record is no key, although the record is an object. */
  predicate BadKey(record: Json) {
    && record.Object?
    && (!Hashable(Get(record.fields, "os")) || !Hashable(Get(record.fields, "arch")))
  }

  function KeyOf(record: Json): (Json, Json)
    requires record.Object?
  {
    (Get(record.fields, "os"), Get(record.fields, "arch"))
  }

  lemma SelectUnfolds(records: seq<Json>, seen: set<(Json, Json)>)
    requires records != []
    ensures Selects(records[0], seen) ==> records[0].Object?
    ensures Select(records, seen).Selected? <==>
      Selects(records[0], seen) && Select(records[1..], seen + {KeyOf(records[0])}).Selected?
    ensures Selects(records[0], seen) && Select(records[1..], seen + {KeyOf(records[0])}).Refused? ==>
      Select(records, seen) == Select(records[1..], seen + {KeyOf(records[0])})
    ensures !Selects(records[0], seen) ==>
      Select(records, seen) == Refused(if BadKey(records[0]) then TypeError else ValueError)
  {
    hide Allowed;
  }

  /** A refused selection fails at the first record that does not select: with TypeError if its platform
      is no key, and with ValueError otherwise. */
  lemma {:induction false} SelectErrorIff(records: seq<Json>, seen: set<(Json, Json)>) returns (i: nat)
    requires Select(records, seen).Refused?
    ensures i < |records| && Select(records[..i], seen).Selected? && Select(records[..i + 1], seen).Refused?
    ensures Select(records, seen) == Refused(if BadKey(records[i]) then TypeError else ValueError)
    decreases |records|
  {
    hide Select, Selects, BadKey;
    NothingSelected(seen);
    SelectUnfolds(records, seen);
    if !Selects(records[0], seen) {
      i := 0;
      assert records[..0] == [] && records[..1][0] == records[0];
      SelectUnfolds(records[..1], seen);
    } else {
      var j := SelectErrorIff(records[1..], seen + {KeyOf(records[0])});
      i := j + 1;
      assert records[..i][1..] == records[1..][..j] && records[..i + 1][1..] == records[1..][..j + 1];
      SelectUnfolds(records[..i], seen);
      SelectUnfolds(records[..i + 1], seen);
    }
  }

  lemma NothingSelected(seen: set<(Json, Json)>)
    ensures Select([], seen) == Selected([])
  {
  }

  /** Which error a failed verification raises: AttributeError for a manifest that is no object,
      TypeError for a partial one whose selection fails with it, and otherwise ValueError. */
  lemma VerifyErrorIff(hash: Hash, d: Dir, version: string, partial: bool)
    requires Verify(hash, d, version, partial) != Done
    ensures var e := Verify(hash, d, version, partial).error;
      && (e == AttributeError <==> ManifestOf(d).Some? && !ManifestOf(d).value.Object?)
      && (e == TypeError <==>
            && partial && ManifestOf(d).Some? && ManifestOf(d).value.Object?
            && Get(ManifestOf(d).value.fields, "version") == Str(version)
            && Get(ManifestOf(d).value.fields, "artifacts").List?
            && Select(Get(ManifestOf(d).value.fields, "artifacts").items, {}) == Refused(TypeError))
      && e != FileNotFoundError
  {
    hide Select, ExpectedRecords;
    NothingSelected({});
    if partial && ManifestOf(d).Some? && ManifestOf(d).value.Object? {
      var listed := Get(ManifestOf(d).value.fields, "artifacts");
      if listed.List? && Select(listed.items, {}).Refused? {
        var i := SelectErrorIff(listed.items, {});
      }
    }
  }

  // ---------------------------------------------------------------- what create makes

  /** The artefacts `create` bundles. */
  function Bundled(d: Dir, partial: bool): seq<Artifact> {
    if partial then Present(d, ARTIFACTS) else ARTIFACTS
  }

  /** `create` finds something to bundle, and none of it missing or empty. */
  predicate Creatable(hash: Hash, d: Dir, partial: bool) {
    Bundled(d, partial) != [] && ExpectedRecords(hash, d, Bundled(d, partial)).Some?
  }

  /** Copies of the artefacts' files. */
  function Copies(d: Dir, artifacts: seq<Artifact>): (copies: Dir)
    requires forall a :: a in artifacts ==> Usable(d, a)
    ensures forall a :: a in artifacts ==> Usable(d, a) && a.file in copies && copies[a.file] == d[a.file]
    ensures forall name :: name in copies ==> exists a :: a in artifacts && a.file == name
  {
    if artifacts == [] then map[]
    else
      var last := artifacts[|artifacts| - 1];
      assert artifacts == artifacts[..|artifacts| - 1] + [last];
      assert Usable(d, last);
      Copies(d, artifacts[..|artifacts| - 1])[last.file := d[last.file]]
  }

  lemma NoCopies(d: Dir)
    ensures Copies(d, []) == map[]
  {
  }

  lemma CopyOneMore(d: Dir, artifacts: seq<Artifact>, i: nat)
    requires i < |artifacts| && forall a :: a in artifacts ==> Usable(d, a)
    ensures artifacts[i] in artifacts && artifacts[i].file in d
    ensures Copies(d, artifacts[..i + 1]) == Copies(d, artifacts[..i])[artifacts[i].file := d[artifacts[i].file]]
  {
    assert Usable(d, artifacts[i]);
    assert artifacts[..i + 1][..i] == artifacts[..i];
    assert artifacts[..i + 1] == artifacts[..i] + [artifacts[i]];
  }

  function Bundle(hash: Hash, d: Dir, version: string, partial: bool): Dir
    requires Creatable(hash, d, partial)
  {
    var artifacts := Bundled(d, partial);
    var records := ExpectedRecords(hash, d, artifacts).value;
    WithManifest(Copies(d, artifacts), version, records)
  }

  lemma CreatableBundle(hash: Hash, d: Dir, version: string, partial: bool)
    ensures Creatable(hash, d, partial) <==>
      Bundled(d, partial) != [] && ExpectedRecords(hash, d, Bundled(d, partial)).Some?
    ensures Creatable(hash, d, partial) ==>
      var artifacts := Bundled(d, partial);
      && (forall a :: a in artifacts ==> Usable(d, a))
      && Bundle(hash, d, version, partial)
         == WithManifest(Copies(d, artifacts), version, ExpectedRecords(hash, d, artifacts).value)
  {
    hide Copies, ExpectedRecords, Usable, Bundled, WithManifest, Record;
  }

  function WithManifest(d: Dir, version: string, records: seq<Json>): Dir {
    d[MANIFEST := File(JsonText(Object(map["version" := Str(version), "artifacts" := List(records)])))]
  }

  lemma {:induction false} PresentIsDistinct(d: Dir, artifacts: seq<Artifact>)
    requires Distinct(artifacts)
    ensures Distinct(Present(d, artifacts))
  {
    if artifacts != [] {
      PresentIsDistinct(d, artifacts[1..]);
      var rest := Present(d, artifacts[1..]);
      assert forall j :: 0 <= j < |rest| ==> rest[j] in rest;
    }
  }

  /** The bundle's manifest describes the bundle: the copies have the recorded digests. */
  lemma BundleDescribesItself(hash: Hash, d: Dir, version: string, partial: bool)
    requires Creatable(hash, d, partial)
    ensures Describes(hash, Bundle(hash, d, version, partial), version, Bundled(d, partial))
  {
    hide Bundled, Copies, ExpectedRecords, IsKnown, Empty;
    var artifacts := Bundled(d, partial);
    var bundle := Bundle(hash, d, version, partial);
    ManifestIsNoArtifact();
    BundledIsKnown(d, partial);
    forall a | a in artifacts
      ensures Usable(bundle, a) && bundle[a.file] == d[a.file]
    {
      assert Usable(d, a);
    }
    SameRecords(hash, d, bundle, artifacts);
  }

  lemma BundledIsKnown(d: Dir, partial: bool)
    ensures forall a :: a in Bundled(d, partial) ==> IsKnown(a)
  {
  }

  /** A full bundle always has something to bundle. */
  lemma FullBundleIsNotEmpty(d: Dir, partial: bool)
    ensures !partial ==> Bundled(d, partial) != []
  {
  }

  /** The records of artefacts depend on their own files alone. */
  lemma SameRecords(hash: Hash, d: Dir, e: Dir, artifacts: seq<Artifact>)
    requires forall a :: a in artifacts ==> Usable(d, a) && Usable(e, a) && d[a.file] == e[a.file]
    ensures ExpectedRecords(hash, d, artifacts) == ExpectedRecords(hash, e, artifacts)
  {
    hide ExpectedRecords, Usable;
    forall i | 0 <= i < |artifacts|
      ensures Usable(d, artifacts[i]) && Usable(e, artifacts[i])
      ensures Record(hash, d, artifacts[i]) == Record(hash, e, artifacts[i])
    {
      assert artifacts[i] in artifacts;
    }
    assert ExpectedRecords(hash, d, artifacts).value == ExpectedRecords(hash, e, artifacts).value;
  }

  /** A partial bundle takes the artefacts that are there, in the order of the list. */
  lemma {:induction false} PresentInOrder(d: Dir, before: seq<Artifact>, a: Artifact, after: seq<Artifact>)
    ensures Present(d, before + [a] + after) ==
      Present(d, before) + (if a.file in d && d[a.file].File? then [a] else []) + Present(d, after)
  {
    hide Present, IsFile;
    NonePresent(d);
    PresentCons(d, a, after);
    if before == [] {
      assert before + [a] + after == [a] + after;
    } else {
      var rest := before[1..];
      assert before + [a] + after == [before[0]] + (rest + [a] + after) && before == [before[0]] + rest;
      PresentCons(d, before[0], rest + [a] + after);
      PresentCons(d, before[0], rest);
      PresentInOrder(d, rest, a, after);
    }
  }

  lemma NonePresent(d: Dir)
    ensures Present(d, []) == []
  {
  }

  lemma PresentCons(d: Dir, a: Artifact, rest: seq<Artifact>)
    ensures Present(d, [a] + rest) == (if a.file in d && d[a.file].File? then [a] else []) + Present(d, rest)
  {
    assert ([a] + rest)[1..] == rest;
  }

  /** `create` goes through exactly when no artefact is an empty file, and all are files or, for a partial
      bundle, at least one is. */
  lemma CreatableIff(hash: Hash, d: Dir, partial: bool)
    ensures Creatable(hash, d, partial) <==>
      && (forall a :: a in ARTIFACTS && IsFile(d, a.file) ==> d[a.file].content != Blob([]))
      && if partial then exists a :: a in ARTIFACTS && IsFile(d, a.file)
         else forall a :: a in ARTIFACTS ==> IsFile(d, a.file)
  {
    hide IsFile, ExpectedRecords;
    var bundled := Bundled(d, partial);
    ArtifactsAreDistinct();
    if bundled != [] {
      assert bundled[0] in bundled;
    }
  }

  /** The bundle holds the bundled artefacts' files, unchanged, a manifest, and nothing else. */
  lemma BundleIs(hash: Hash, d: Dir, version: string, partial: bool)
    requires Creatable(hash, d, partial)
    ensures var bundle := Bundle(hash, d, version, partial);
      && (forall name :: name in bundle <==>
            name == "manifest.json" || exists a :: a in Bundled(d, partial) && a.file == name)
      && (forall a :: a in Bundled(d, partial) ==> a.file in d && bundle[a.file] == d[a.file])
      && ManifestAttests(hash, bundle, version, Bundled(d, partial))
      && bundle["manifest.json"].content.json.fields.Keys == {"version", "artifacts"}
  {
    hide Bundled, ExpectedRecords, IsKnown, Empty, ManifestAttests, Describes;
    BundleDescribesItself(hash, d, version, partial);
    ManifestAttestsIff(hash, Bundle(hash, d, version, partial), version, Bundled(d, partial));
    ManifestIsNoArtifact();
    BundledIsKnown(d, partial);
  }

  /** What `create` makes passes `verify` with the same version and partial flag. */
  lemma CreatedVerifies(hash: Hash, d: Dir, version: string, partial: bool)
    requires Creatable(hash, d, partial)
    ensures Verify(hash, Bundle(hash, d, version, partial), version, partial) == Done
  {
    hide Verify, Describes, Bundle, Creatable;
    BundleDescribesItself(hash, d, version, partial);
    ArtifactsAreDistinct();
    if partial {
      PresentIsDistinct(d, ARTIFACTS);
      CreatableHasSome(hash, d, partial);
      DescribedPassesPartial(hash, Bundle(hash, d, version, partial), version, Present(d, ARTIFACTS));
    } else {
      FullVerifyIff(hash, Bundle(hash, d, version, partial), version);
    }
  }

  lemma CreatableHasSome(hash: Hash, d: Dir, partial: bool)
    requires Creatable(hash, d, partial)
    ensures Bundled(d, partial) != []
  {
  }

  // ---------------------------------------------------------------- the script, in place

  /** The file system, as the directories the script is given by path. */
  class FileSystem {
    var dirs: map<string, Dir>

    /** A directory that does not exist has no files. */
    function Listing(path: string): Dir
      reads this
    {
      if path in dirs then dirs[path] else map[]
    }

    method ExpectedRecordsOf(hash: Hash, root: string, artifacts: seq<Artifact>) returns (records: Option<seq<Json>>)
      ensures records == ExpectedRecords(hash, Listing(root), artifacts)
    {
      var list: seq<Json> := [];
      for i := 0 to |artifacts|
        invariant ExpectedRecords(hash, Listing(root), artifacts[..i]) == Some(list)
      {
        assert artifacts[..i + 1][..i] == artifacts[..i];
        if !Usable(Listing(root), artifacts[i]) {
          assert artifacts[i] in artifacts;
          return None;
        }
        list := list + [Record(hash, Listing(root), artifacts[i])];
      }
      assert artifacts[..|artifacts|] == artifacts;
      return Some(list);
    }

    /** Copies the files of the records into the destination, one by one. */
    method CopyFiles(source: string, destination: string, artifacts: seq<Artifact>) returns (r: Outcome)
      requires destination in dirs && dirs[destination] == map[]
      requires source != destination ==> forall a :: a in artifacts ==> Usable(Listing(source), a)
      modifies this
      ensures source != destination ==>
                r == Done && dirs == old(dirs)[destination := Copies(old(Listing(source)), artifacts)]
      ensures source == destination && artifacts != [] ==> r == Raised(FileNotFoundError) && dirs == old(dirs)
    {
      hide Copies, Empty;
      ghost var from := Listing(source);
      var copied: Dir := map[];
      NoCopies(from);
      for i := 0 to |artifacts|
        invariant source == destination ==> i == 0 && copied == map[]
        invariant source != destination ==> copied == Copies(from, artifacts[..i])
        invariant dirs == old(dirs)[destination := copied]
      {
        var file := artifacts[i].file;
        assert source != destination ==> Usable(from, artifacts[i]);
        if !IsFile(Listing(source), file) {
          assert dirs == old(dirs);
          return Raised(FileNotFoundError);
        }
        CopyOneMore(from, artifacts, i);
        copied := copied[file := Listing(source)[file]];
        dirs := dirs[destination := copied];
      }
      assert artifacts[..|artifacts|] == artifacts;
      r := Done;
    }

    /** `create`: nothing changes unless there is something to bundle and all of it is in order;
        then the destination becomes the bundle, unless it is the source, which is emptied first
        and so destroyed. */
    method Create(hash: Hash, source: string, destination: string, version: string, partial: bool) returns (r: Outcome)
      modifies this
      ensures !Creatable(hash, old(Listing(source)), partial) ==> r == Raised(ValueError) && dirs == old(dirs)
      ensures Creatable(hash, old(Listing(source)), partial) && source != destination ==>
                r == Done
                && dirs == old(dirs)[destination := Bundle(hash, old(Listing(source)), version, partial)]
      ensures Creatable(hash, old(Listing(source)), partial) && source == destination ==>
                r == Raised(FileNotFoundError) && dirs == old(dirs)[destination := map[]]
    {
      hide Copies, ExpectedRecords, Usable, Bundled, WithManifest, Record, Bundle, Creatable;
      CreatableBundle(hash, Listing(source), version, partial);
      FullBundleIsNotEmpty(Listing(source), partial);
      var artifacts := Bundled(Listing(source), partial);
      if partial && artifacts == [] {
        return Raised(ValueError);
      }
      var records := ExpectedRecordsOf(hash, source, artifacts);
      if records.None? {
        return Raised(ValueError);
      }
      r := Replace(source, destination, version, artifacts, records.value);
    }

    /** Replaces the destination by copies of the artefacts and their manifest. */
    method Replace(source: string, destination: string, version: string, artifacts: seq<Artifact>, records: seq<Json>)
      returns (r: Outcome)
      requires artifacts != [] && forall a :: a in artifacts ==> Usable(Listing(source), a)
      modifies this
      ensures source != destination ==>
                r == Done
                && dirs == old(dirs)[destination :=
                             WithManifest(Copies(old(Listing(source)), artifacts), version, records)]
      ensures source == destination ==> r == Raised(FileNotFoundError) && dirs == old(dirs)[destination := map[]]
    {
      hide Copies, Usable, WithManifest;
      MakeEmpty(destination);
      r := CopyFiles(source, destination, artifacts);
      if r.Done? {
        WriteManifest(destination, version, records);
      }
    }

    method MakeEmpty(destination: string)
      modifies this
      ensures dirs == old(dirs)[destination := map[]]
    {
      if destination in dirs {
        dirs := dirs - {destination};
      }
      dirs := dirs[destination := map[]];
    }

    method WriteManifest(destination: string, version: string, records: seq<Json>)
      requires destination in dirs
      modifies this
      ensures dirs == old(dirs)[destination := WithManifest(old(dirs)[destination], version, records)]
    {
      dirs := dirs[destination := WithManifest(dirs[destination], version, records)];
    }

    /** The loop over a partial manifest's records. */
    method SelectRecords(records: seq<Json>) returns (selection: Selection)
      ensures selection == Select(records, {})
    {
      var selected: seq<Artifact> := [];
      var seen: set<(Json, Json)> := {};
      for i := 0 to |records|
        invariant Select(records, {}) == Prepend(selected, Select(records[i..], seen))
      {
        var rest := records[i..];
        assert rest[0] == records[i] && rest[1..] == records[i + 1..];
        if !records[i].Object? {
          return Refused(ValueError);
        }
        var fields := records[i].fields;
        var key := (Get(fields, "os"), Get(fields, "arch"));
        if !Hashable(key.0) || !Hashable(key.1) {
          return Refused(TypeError);
        }
        if key in seen {
          return Refused(ValueError);
        }
        var artifact := Allowed(key.0, key.1);
        if artifact.None? || Get(fields, "file") != Str(artifact.value.file) {
          return Refused(ValueError);
        }
        PrependOne(selected, artifact.value, Select(records[i + 1..], seen + {key}));
        seen := seen + {key};
        selected := selected + [artifact.value];
      }
      assert records[|records|..] == [];
      selection := Selected(selected);
    }

    method VerifyDir(hash: Hash, source: string, version: string, partial: bool) returns (r: Outcome)
      ensures r == Verify(hash, Listing(source), version, partial)
    {
      hide Select, ExpectedRecords;
      var manifest := ManifestOf(Listing(source));
      if manifest.None? {
        return Raised(ValueError);
      }
      if !manifest.value.Object? {
        return Raised(AttributeError);
      }
      var fields := manifest.value.fields;
      if Get(fields, "version") != Str(version) {
        return Raised(ValueError);
      }
      var artifacts := ARTIFACTS;
      if partial {
        var listed := Get(fields, "artifacts");
        if !listed.List? || listed.items == [] {
          return Raised(ValueError);
        }
        var selection := SelectRecords(listed.items);
        if selection.Refused? {
          return Raised(selection.error);
        }
        artifacts := selection.artifacts;
      }
      var expected := ExpectedRecordsOf(hash, source, artifacts);
      if expected.None? || Get(fields, "artifacts") != List(expected.value) {
        return Raised(ValueError);
      }
      r := Done;
    }

    /** `copy`: only a verified directory is copied, and the copy is identical; copying onto itself
        deletes it first and then finds nothing to copy. */
    method Copy(hash: Hash, source: string, destination: string, version: string, partial: bool) returns (r: Outcome)
      modifies this
      ensures var verdict := Verify(hash, old(Listing(source)), version, partial);
        && (verdict != Done ==> r == verdict && dirs == old(dirs))
        && (verdict == Done && source != destination ==>
              r == Done && dirs == old(dirs)[destination := old(Listing(source))]
              && Verify(hash, Listing(destination), version, partial) == Done)
        && (verdict == Done && source == destination ==>
              r == Raised(FileNotFoundError) && dirs == old(dirs) - {destination})
    {
      hide Verify;
      r := VerifyDir(hash, source, version, partial);
      if r.Raised? {
        return;
      }
      VerifiedExists(hash, Listing(source), version, partial);
      dirs := dirs - {destination};
      if source !in dirs {
        return Raised(FileNotFoundError);
      }
      dirs := dirs[destination := dirs[source]];
    }
  }

  lemma VerifiedExists(hash: Hash, d: Dir, version: string, partial: bool)
    requires Verify(hash, d, version, partial) == Done
    ensures d != map[]
  {
    hide Select, ExpectedRecords;
  }

  function Prepend(selected: seq<Artifact>, s: Selection): Selection {
    match s
    case Refused(_) => s
    case Selected(rest) => Selected(selected + rest)
  }

  lemma PrependOne(selected: seq<Artifact>, a: Artifact, s: Selection)
    ensures Prepend(selected, Prepend([a], s)) == Prepend(selected + [a], s)
  {
    if s.Selected? {
      assert selected + ([a] + s.artifacts) == selected + [a] + s.artifacts;
    }
  }
}
