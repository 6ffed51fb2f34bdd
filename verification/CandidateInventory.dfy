/** tools/candidate_inventory.py's create_inventory and verify_inventory, and the check
    tools/ghcr_publish.py makes on their result before it stages an image. */
module CandidateInventory {
  import opened Wrappers
  import opened ByteStrings
  import opened Json
  import opened OciLayout
  import opened OciVerify
  import opened RegistrySummary
  import opened RegistryAgreement

  /** The release a candidate is checked against; `version` is None where _identity raises. */
  datatype Identity = Identity(tag: string, commit: string, run: string, version: Option<string>)

  datatype InventoryFile = InventoryFile(payload: Bytes, mode: int)

  /** A candidate tree: its OCI part, whether everything else about the tree (names,
      directories, Python and SCIE artifacts) checks out for a release, and its inventory. */
  datatype Candidate = Candidate(layout: Layout, artifactsOk: Identity -> bool, inventory: Option<InventoryFile>)

  /** Canonical JSON text, the two readers of JSON text, and SHA-256 in hexadecimal. */
  datatype Codec = Codec(
    canonical: Fields -> Bytes,
    strict: Bytes -> Option<Fields>,
    relaxed: Bytes -> Option<Fields>,
    sha256: Bytes -> string)

  /** Values whose JSON text is exact: nothing with a fraction anywhere inside. */
  predicate Exact(v: Value) {
    match v
    case Float(_) => false
    case Arr(items) => forall i | 0 <= i < |items| :: Exact(items[i])
    case Obj(fields) => forall k | k in fields :: Exact(fields[k])
    case _ => true
  }

  ghost predicate Lawful(codec: Codec) {
    && (forall b :: codec.strict(b).Some? && codec.relaxed(b).Some? ==> codec.strict(b) == codec.relaxed(b))
    && (forall b :: IsSha(codec.sha256(b)))
  }

  function RecordValue(r: FileRecord): Value {
    Obj(map["size" := Int(r.size), "sha256" := Str(r.sha256), "mode" := Int(r.mode)])
  }

  function PlatformsValue(platforms: map<string, string>): Value {
    Obj(map id | id in platforms :: Str(platforms[id]))
  }

  function OciValue(l: Layout, w: Walk): Value
    requires INDEX_FILE in l.files
  {
    Obj(map["root_digest" := Str("sha256:" + l.files[INDEX_FILE].sha256),
            "index_sha256" := Str(l.files[INDEX_FILE].sha256),
            "platform_manifests" := PlatformsValue(w.platforms)])
  }

  function LayoutFor(c: Candidate, id: Identity): Layout
    requires id.version.Some?
  {
    c.layout.(version := id.version.value, commit := id.commit)
  }

  function FilesValue(l: Layout): Value {
    Obj(map n | n in l.files :: RecordValue(l.files[n]))
  }

  function Inventory(version: Value, tag: Value, commit: Value, run: Value, files: Value, oci: Value): Fields {
    map["schema_version" := Int(1), "version" := version, "tag" := tag, "source_commit" := commit,
        "workflow_run" := run, "files" := files, "oci" := oci]
  }

  /** _document: the inventory of a tree whose inventory file is present exactly when asked for. */
  function Document(c: Candidate, id: Identity, includeInventory: bool): Option<Fields> {
    if id.version.None? || includeInventory != c.inventory.Some? then None
    else if includeInventory && !(0 <= c.inventory.value.mode <= 0x1FF) then None
    else if !c.artifactsOk(id) then None else
    var l := LayoutFor(c, id);
    var w :- Verify(l);
    Some(Inventory(Str(l.version), Str(id.tag), Str(id.commit), Str(id.run), FilesValue(l), OciValue(l, w)))
  }

  /** The codec's law, asked only of this tree's own inventory documents, and only as long as they
      hold no fraction. */
  ghost predicate ReadsBack(codec: Codec, c: Candidate, id: Identity) {
    forall includeInventory: bool :: Document(c, id, includeInventory).Some? ==>
      var document := Document(c, id, includeInventory).value;
      Exact(Obj(document)) ==> codec.strict(codec.canonical(document)) == Some(document)
  }

  lemma DocumentIs(c: Candidate, id: Identity, includeInventory: bool)
    requires Document(c, id, includeInventory).Some?
    ensures id.version.Some? && Verify(LayoutFor(c, id)).Some? && INDEX_FILE in LayoutFor(c, id).files
    ensures var l := LayoutFor(c, id);
            Document(c, id, includeInventory).value ==
            Inventory(Str(l.version), Str(id.tag), Str(id.commit), Str(id.run), FilesValue(l),
                      OciValue(l, Verify(l).value))
  {
    hide Inventory, OciValue, FilesValue, Nodes, FindingsOk, BlobsPresent, SchemaOk, IsIndexType;
  }

  lemma DocumentsAreExact(c: Candidate, id: Identity, includeInventory: bool)
    requires Document(c, id, includeInventory).Some?
    ensures Exact(Obj(Document(c, id, includeInventory).value))
  {
    hide Verify, Exact, Document, OciValue, FilesValue, Inventory;
    DocumentIs(c, id, includeInventory);
    var l := LayoutFor(c, id);
    PartsAreExact(l, Verify(l).value);
    InventoryIsExact(Str(l.version), Str(id.tag), Str(id.commit), Str(id.run), FilesValue(l),
                     OciValue(l, Verify(l).value));
  }

  lemma InventoryIsExact(version: Value, tag: Value, commit: Value, run: Value, files: Value, oci: Value)
    requires Exact(version) && Exact(tag) && Exact(commit) && Exact(run) && Exact(files) && Exact(oci)
    ensures Exact(Obj(Inventory(version, tag, commit, run, files, oci)))
  {
    var f := Inventory(version, tag, commit, run, files, oci);
    assert Exact(Int(1));
    forall k | k in f ensures Exact(f[k]) {
      hide Exact;
    }
  }

  lemma PartsAreExact(l: Layout, w: Walk)
    requires INDEX_FILE in l.files
    ensures Exact(Obj(map[])) && Exact(Int(1)) && forall s :: Exact(Str(s))
    ensures Exact(FilesValue(l))
    ensures Exact(OciValue(l, w))
  {
    hide OciValue, PlatformsValue;
    forall n | n in l.files ensures Exact(RecordValue(l.files[n])) {
      RecordIsExact(l.files[n]);
    }
    OciIsExact(l, w);
  }

  lemma RecordIsExact(r: FileRecord)
    ensures Exact(RecordValue(r))
  {
  }

  lemma OciIsExact(l: Layout, w: Walk)
    requires INDEX_FILE in l.files
    ensures Exact(OciValue(l, w))
  {
    assert Exact(PlatformsValue(w.platforms));
    hide PlatformsValue;
  }

  function Bare(c: Candidate): Candidate {
    c.(inventory := None)
  }

  /** create_inventory: the tree with its inventory written, and the inventory's digest. */
  function CreateInventory(codec: Codec, c: Candidate, id: Identity, fileMode: int): Option<(Candidate, string)> {
    var document :- Document(c, id, false);
    var payload := codec.canonical(document);
    Some((c.(inventory := Some(InventoryFile(payload, fileMode))), codec.sha256(payload)))
  }

  /** verify_inventory */
  function VerifyInventory(codec: Codec, c: Candidate, id: Identity, expected: Option<string>): Option<string> {
    var file :- c.inventory;
    var digest := codec.sha256(file.payload);
    if expected.Some? && !(IsSha(expected.value) && digest == expected.value) then None
    else if |file.payload| > MAX_JSON_BYTES then None else
    var inventory :- codec.strict(file.payload);
    if codec.canonical(inventory) != file.payload then None else
    var actual :- Document(c, id, true);
    if file.payload != codec.canonical(actual) then None else Some(digest)
  }

  /** What creation writes, verification accepts with the same digest, exactly when the inventory
      stays within the JSON size bound. */
  lemma CreatedIsAccepted(codec: Codec, c: Candidate, id: Identity, fileMode: int)
    requires Lawful(codec) && ReadsBack(codec, c, id) && 0 <= fileMode <= 0x1FF
    requires CreateInventory(codec, c, id, fileMode).Some?
    ensures var (written, digest) := CreateInventory(codec, c, id, fileMode).value;
            && (VerifyInventory(codec, written, id, Some(digest)) == Some(digest) <==>
                |written.inventory.value.payload| <= MAX_JSON_BYTES)
            && VerifyInventory(codec, written, id, None) == VerifyInventory(codec, written, id, Some(digest))
  {
    hide Verify, IsSha;
    var (written, digest) := CreateInventory(codec, c, id, fileMode).value;
    var document := Document(c, id, false).value;
    DocumentsAreExact(c, id, false);
    assert Document(written, id, true) == Some(document);
    assert codec.strict(codec.canonical(document)) == Some(document);
  }

  /** And it accepts only such a file: the inventory's bytes are the ones creation would write for
      the rest of the tree, and the digest is the one creation would return. */
  lemma AcceptedIsCreated(codec: Codec, c: Candidate, id: Identity, expected: Option<string>)
    requires VerifyInventory(codec, c, id, expected).Some?
    ensures c.inventory.Some?
    ensures CreateInventory(codec, Bare(c), id, c.inventory.value.mode) ==
            Some((c, VerifyInventory(codec, c, id, expected).value))
  {
    hide Verify, IsSha;
    assert Document(c, id, true) == Document(Bare(c), id, false);
  }

  /** What prepare_oci_candidate reads back from the inventory file it just verified. */
  function RecordedPlatforms(codec: Codec, c: Candidate): Option<Value> {
    var file :- c.inventory;
    var inventory :- codec.relaxed(file.payload);
    Some(Get(FieldsOf(Get(inventory, "oci")), "platform_manifests"))
  }

  /** Main result: once verify_inventory has accepted the tree, reading the inventory back and
      walking the layout a second time always gives the same platform map, so the comparison in
      prepare_oci_candidate never fails. */
  lemma PreparedPlatformsMatch(codec: Codec, c: Candidate, id: Identity, expected: Option<string>, stack: nat)
    requires Lawful(codec) && ReadsBack(codec, c, id) && OneCodec(c.layout)
    requires VerifyInventory(codec, c, id, expected).Some?
    requires Summarize(LayoutFor(c, id), stack).Done? && RecordedPlatforms(codec, c).Some?
    ensures RecordedPlatforms(codec, c).value ==
            PlatformsValue(Summarize(LayoutFor(c, id), stack).value.found.platforms)
  {
    hide Verify, Summarize, IsSha;
    var document := Document(c, id, true).value;
    var l := LayoutFor(c, id);
    DocumentsAreExact(c, id, true);
    assert codec.strict(c.inventory.value.payload) == Some(document);
    assert Get(FieldsOf(Get(document, "oci")), "platform_manifests") == PlatformsValue(Verify(l).value.platforms);
    assert OneCodec(l);
    SummaryAgrees(l, stack);
  }

  // ----- what an accepted inventory says

  predicate Describes(record: Value, file: FileRecord) {
    record == Obj(map["size" := Int(file.size), "sha256" := Str(file.sha256), "mode" := Int(file.mode)])
  }

  /** The OCI part: the digest of oci/index.json, twice, and each image's manifest. */
  predicate SaysOci(oci: Value, index: string, platforms: map<string, string>) {
    && oci.Obj? && oci.fields.Keys == {"root_digest", "index_sha256", "platform_manifests"}
    && oci.fields["index_sha256"] == Str(index) && oci.fields["root_digest"] == Str("sha256:" + index)
    && var images := oci.fields["platform_manifests"];
       && images.Obj? && images.fields.Keys == platforms.Keys
       && forall name | name in platforms :: images.fields[name] == Str(platforms[name])
  }

  /** The candidate is complete and its layout is accepted for the release. */
  predicate CandidateOk(c: Candidate, id: Identity) {
    id.version.Some? && c.artifactsOk(id) && Verify(LayoutFor(c, id)).Some?
  }

  /** The document names the release, describes exactly the scanned files, and repeats the identity of
      the OCI layout; it says nothing else. */
  predicate Says(f: Fields, c: Candidate, id: Identity) {
    && CandidateOk(c, id)
    && f.Keys == {"schema_version", "version", "tag", "source_commit", "workflow_run", "files", "oci"}
    && f["schema_version"] == Int(1) && f["version"] == Str(id.version.value) && f["tag"] == Str(id.tag)
    && f["source_commit"] == Str(id.commit) && f["workflow_run"] == Str(id.run)
    && f["files"].Obj? && f["files"].fields.Keys == c.layout.files.Keys
    && (forall n | n in c.layout.files :: Describes(f["files"].fields[n], c.layout.files[n]))
    && "oci/index.json" in c.layout.files
    && SaysOci(f["oci"], c.layout.files["oci/index.json"].sha256, Verify(LayoutFor(c, id)).value.platforms)
  }

  lemma InventoryMembers(version: Value, tag: Value, commit: Value, run: Value, files: Value, oci: Value)
    ensures var f := Inventory(version, tag, commit, run, files, oci);
            && f.Keys == {"schema_version", "version", "tag", "source_commit", "workflow_run", "files", "oci"}
            && f["schema_version"] == Int(1) && f["version"] == version && f["tag"] == tag
            && f["source_commit"] == commit && f["workflow_run"] == run && f["files"] == files && f["oci"] == oci
  {
  }

  lemma OciMembers(l: Layout, w: Walk)
    requires "oci/index.json" in l.files
    ensures SaysOci(OciValue(l, w), l.files["oci/index.json"].sha256, w.platforms)
  {
  }

  lemma DocumentSays(c: Candidate, id: Identity, includeInventory: bool)
    requires Document(c, id, includeInventory).Some?
    ensures Says(Document(c, id, includeInventory).value, c, id)
  {
    DocumentNeeds(c, id, includeInventory);
    hide Verify, Document, Inventory, OciValue, Describes, FilesValue, SaysOci;
    DocumentIs(c, id, includeInventory);
    var l := LayoutFor(c, id);
    FilesAreDescribed(l);
    InventoryMembers(Str(l.version), Str(id.tag), Str(id.commit), Str(id.run), FilesValue(l),
                     OciValue(l, Verify(l).value));
    OciMembers(l, Verify(l).value);
  }

  lemma DocumentNeeds(c: Candidate, id: Identity, includeInventory: bool)
    ensures Document(c, id, includeInventory).Some? <==>
            && CandidateOk(c, id) && includeInventory == c.inventory.Some?
            && (includeInventory ==> 0 <= c.inventory.value.mode <= 511)
  {
    hide Verify, Inventory, OciValue, FilesValue;
    if CandidateOk(c, id) {
      IndexIsThere(LayoutFor(c, id));
    }
  }

  lemma IndexIsThere(l: Layout)
    requires Verify(l).Some?
    ensures INDEX_FILE in l.files
  {
    hide Nodes, FindingsOk, BlobsPresent, SchemaOk, IsIndexType;
  }

  lemma FilesAreDescribed(l: Layout)
    ensures FilesValue(l).Obj? && FilesValue(l).fields.Keys == l.files.Keys
    ensures forall n | n in l.files :: Describes(FilesValue(l).fields[n], l.files[n])
  {
  }

  /** There is only one document that says so. */
  lemma SaysOnce(f: Fields, g: Fields, c: Candidate, id: Identity)
    requires Says(f, c, id) && Says(g, c, id)
    ensures f == g
  {
    hide Verify, Describes, SaysOci;
    var platforms := Verify(LayoutFor(c, id)).value.platforms;
    assert f["oci"] == g["oci"] by {
      OciOnce(f["oci"], g["oci"], c.layout.files["oci/index.json"].sha256, platforms);
    }
    assert f["files"] == g["files"] by {
      FilesOnce(f["files"], g["files"], c.layout.files);
    }
    assert forall k | k in f :: f[k] == g[k];
  }

  lemma OciOnce(a: Value, b: Value, index: string, platforms: map<string, string>)
    requires SaysOci(a, index, platforms) && SaysOci(b, index, platforms)
    ensures a == b
  {
    var x, y := a.fields["platform_manifests"].fields, b.fields["platform_manifests"].fields;
    assert x == y;
    assert a.fields == b.fields;
  }

  lemma FilesOnce(a: Value, b: Value, files: map<string, FileRecord>)
    requires a.Obj? && b.Obj? && a.fields.Keys == b.fields.Keys == files.Keys
    requires forall n | n in files :: Describes(a.fields[n], files[n]) && Describes(b.fields[n], files[n])
    ensures a == b
  {
    assert a.fields == b.fields;
  }

  /** Main result: an inventory is written exactly for a candidate that is in order and has none yet,
      and it says so. */
  lemma CreatesExactly(codec: Codec, c: Candidate, id: Identity, fileMode: int, f: Fields)
    requires Says(f, c, id)
    ensures CreateInventory(codec, c, id, fileMode) ==
            if c.inventory.Some? then None
            else Some((c.(inventory := Some(InventoryFile(codec.canonical(f), fileMode))),
                       codec.sha256(codec.canonical(f))))
  {
    DocumentNeeds(c, id, false);
    if c.inventory.None? {
      DocumentSays(c, id, false);
      SaysOnce(f, Document(c, id, false).value, c, id);
    }
    hide Document, Says;
  }

  /** Only such a candidate has a document that says so, and each has one. */
  lemma OnlyCandidatesAreInventoried(codec: Codec, c: Candidate, id: Identity, fileMode: int)
    ensures CreateInventory(codec, c, id, fileMode).Some? <==> CandidateOk(c, id) && c.inventory.None?
    ensures CandidateOk(c, id) <==> exists f :: Says(f, c, id)
  {
    DocumentNeeds(c, id, false);
    DocumentNeeds(Bare(c), id, false);
    hide Document, Says, Verify;
    if CandidateOk(c, id) {
      SomethingIsSaid(c, id);
    }
    SaysNeeds(c, id);
  }

  lemma SaysNeeds(c: Candidate, id: Identity)
    ensures forall f :: Says(f, c, id) ==> CandidateOk(c, id) && id.version.Some?
  {
    hide SaysOci, Describes, Verify, LayoutFor;
  }

  lemma SomethingIsSaid(c: Candidate, id: Identity)
    requires CandidateOk(c, id)
    ensures exists f :: Says(f, c, id)
  {
    DocumentNeeds(Bare(c), id, false);
    DocumentSays(Bare(c), id, false);
    var f := Document(Bare(c), id, false).value;
    assert Says(f, c, id) by {
      hide Verify, SaysOci, Describes;
    }
  }

  /** Main result: an inventory is verified exactly when its bytes, at most 16 MiB of them under the
      expected digest, are those of the document that says so, in a file with plain permissions. */
  lemma VerifiesExactly(codec: Codec, c: Candidate, id: Identity, expected: Option<string>)
    requires Lawful(codec) && ReadsBack(codec, c, id)
    ensures VerifyInventory(codec, c, id, expected).Some? <==>
            && c.inventory.Some? && |c.inventory.value.payload| <= 16777216 && 0 <= c.inventory.value.mode <= 511
            && (expected.Some? ==> expected.value == codec.sha256(c.inventory.value.payload))
            && exists f :: Says(f, c, id) && c.inventory.value.payload == codec.canonical(f)
  {
    DocumentNeeds(c, id, true);
    SaysNeeds(c, id);
    hide Says, CandidateOk, IsSha;
    if c.inventory.Some? {
      if Document(c, id, true).Some? {
        DocumentSays(c, id, true);
        DocumentsAreExact(c, id, true);
        hide Document, Exact;
        var document := Document(c, id, true).value;
        assert codec.strict(codec.canonical(document)) == Some(document);
        forall f | Says(f, c, id) ensures f == document {
          SaysOnce(f, document, c, id);
        }
      } else {
        hide Document;
      }
    }
  }

  /** Main result: the inventory of an accepted tree says all of that about the tree; the digest
      returned is that of its bytes, and the expected one when there was one. */
  lemma AcceptedInventorySays(codec: Codec, c: Candidate, id: Identity, expected: Option<string>)
    requires Lawful(codec) && ReadsBack(codec, c, id)
    requires VerifyInventory(codec, c, id, expected).Some?
    ensures c.inventory.Some? && |c.inventory.value.payload| <= 16777216 && 0 <= c.inventory.value.mode < 512
    ensures VerifyInventory(codec, c, id, expected).value == codec.sha256(c.inventory.value.payload)
    ensures expected.Some? ==> expected == VerifyInventory(codec, c, id, expected)
    ensures codec.strict(c.inventory.value.payload).Some?
    ensures Says(codec.strict(c.inventory.value.payload).value, c, id)
  {
    hide Verify, IsSha, Exact, Says;
    DocumentsAreExact(c, id, true);
    DocumentSays(c, id, true);
    assert codec.strict(c.inventory.value.payload) == Document(c, id, true);
  }

  /** So equal inventories are inventories of the same files for the same release: no record of any
      file can change behind an accepted inventory. */
  lemma EqualInventoriesDescribeEqualTrees(codec: Codec, c: Candidate, id: Identity, e: Option<string>,
                                           c': Candidate, id': Identity, e': Option<string>)
    requires Lawful(codec) && ReadsBack(codec, c, id) && ReadsBack(codec, c', id')
    requires VerifyInventory(codec, c, id, e).Some? && VerifyInventory(codec, c', id', e').Some?
    requires c.inventory.value.payload == c'.inventory.value.payload
    ensures c.layout.files == c'.layout.files
    ensures id == id'
  {
    hide VerifyInventory, ReadsBack, Lawful, CandidateOk, SaysOci, Verify, LayoutFor, Describes;
    AcceptedInventorySays(codec, c, id, e);
    AcceptedInventorySays(codec, c', id', e');
    SaysNeeds(c, id);
    SaysNeeds(c', id');
    var records := Get(codec.strict(c.inventory.value.payload).value, "files").fields;
    assert c.layout.files.Keys == c'.layout.files.Keys;
    forall n | n in c.layout.files ensures c.layout.files[n] == c'.layout.files[n] {
      assert Describes(records[n], c.layout.files[n]) && Describes(records[n], c'.layout.files[n]);
      SameRecord(c.layout.files[n], c'.layout.files[n]);
    }
  }

  lemma SameRecord(a: FileRecord, b: FileRecord)
    requires exists record :: Describes(record, a) && Describes(record, b)
    ensures a == b
  {
    var record :| Describes(record, a) && Describes(record, b);
    assert record.fields["size"] == Int(a.size) == Int(b.size);
    assert record.fields["sha256"] == Str(a.sha256) == Str(b.sha256);
    assert record.fields["mode"] == Int(a.mode) == Int(b.mode);
  }
}
