/** The static part of tools/candidate_inventory.py's OCI verification: what a descriptor,
    a manifest and an attestation statement must look like, independent of any walk. */
module OciLayout {
  import opened Wrappers
  import opened Json

  datatype FileRecord = FileRecord(size: nat, sha256: string, mode: nat)

  /** Decoded bytes known only by their length and SHA-256. */
  datatype Content = Content(size: nat, sha256: string)

  /** A scanned candidate tree, seen from its OCI layout.  `strict` and `relaxed` hold the
      object each of the two JSON readers returns for a path; a path is missing where that
      reader raises.  `embedded` is base64 decoding with validation. */
  datatype Layout = Layout(
    files: map<string, FileRecord>,
    strict: map<string, Fields>,
    relaxed: map<string, Fields>,
    embedded: string -> Option<Content>,
    version: string,
    commit: string)

  /** Wherever both readers return an object for the same bytes, it is the same object. */
  ghost predicate OneCodec(l: Layout) {
    forall p | p in l.strict && p in l.relaxed :: l.strict[p] == l.relaxed[p]
  }

  const MAX_JSON_BYTES := 16 * 1024 * 1024
  const MAX_DESCRIPTORS := 10000
  const MAX_DEPTH := 32

  const BLOB_ROOT := "oci/blobs/"
  const LAYOUT_FILE := "oci/oci-layout"
  const INDEX_FILE := "oci/index.json"
  const AMD64 := "linux/amd64"
  const ARM64 := "linux/arm64"

  predicate IsIndexType(m: string) {
    || m == "application/vnd.oci.image.index.v1+json"
    || m == "application/vnd.docker.distribution.manifest.list.v2+json"
  }

  predicate IsManifestType(m: string) {
    || m == "application/vnd.oci.image.manifest.v1+json"
    || m == "application/vnd.docker.distribution.manifest.v2+json"
  }

  predicate IsEmptyConfigType(m: string) {
    m == "application/vnd.oci.empty.v1+json"
  }

  predicate IsConfigType(m: string) {
    || m == "application/vnd.oci.image.config.v1+json"
    || m == "application/vnd.docker.container.image.v1+json"
    || IsEmptyConfigType(m)
  }

  predicate IsLayerType(m: string) {
    || m == "application/vnd.oci.image.layer.v1.tar"
    || m == "application/vnd.oci.image.layer.v1.tar+gzip"
    || m == "application/vnd.oci.image.layer.v1.tar+zstd"
    || m == "application/vnd.docker.image.rootfs.diff.tar"
    || m == "application/vnd.docker.image.rootfs.diff.tar.gzip"
  }

  predicate IsStatementLayerType(m: string) {
    m == "application/vnd.in-toto+json"
  }

  const SPDX := "https://spdx.dev/Document"
  const CYCLONEDX := "https://cyclonedx.org/bom"
  const SLSA_V02 := "https://slsa.dev/provenance/v0.2"
  const SLSA_V1 := "https://slsa.dev/provenance/v1"

  predicate IsHex(s: string) {
    forall i | 0 <= i < |s| :: '0' <= s[i] <= '9' || 'a' <= s[i] <= 'f'
  }

  /** _require_sha */
  predicate IsSha(s: string) {
    |s| == 64 && IsHex(s)
  }

  /** sha256: followed by 64 lowercase hexadecimal characters. */
  predicate IsDigest(d: string) {
    |d| == 71 && d[..7] == "sha256:" && IsHex(d[7..])
  }

  function HexOf(digest: string): string {
    if |digest| < 7 then "" else digest[7..]
  }

  function BlobPath(digest: string): string {
    "oci/blobs/sha256/" + HexOf(digest)
  }

  // ----- descriptors

  function DigestOf(d: Value): string {
    Text(Get(FieldsOf(d), "digest"))
  }

  function MediaOf(d: Value): string {
    Text(Get(FieldsOf(d), "mediaType"))
  }

  function PlatformOf(d: Value): Value {
    Get(FieldsOf(d), "platform")
  }

  function PathOf(d: Value): string {
    BlobPath(DigestOf(d))
  }

  /** Inline data, when present, must decode to exactly the described blob. */
  predicate EmbeddedOk(l: Layout, f: Fields, size: int, hex: string) {
    "data" in f ==>
      && f["data"].Str?
      && |f["data"].s| <= 2 * MAX_JSON_BYTES
      && var content := l.embedded(f["data"].s);
         content.Some? && content.value.size == size && content.value.sha256 == hex
  }

  /** _OCI._descriptor without its bookkeeping. */
  predicate DescriptorOk(l: Layout, d: Value) {
    && d.Obj?
    && Get(d.fields, "digest").Str?
    && IsDigest(DigestOf(d))
    && Get(d.fields, "size").Int?
    && Get(d.fields, "size").n >= 0
    && Get(d.fields, "mediaType").Str?
    && "urls" !in d.fields
    && PathOf(d) in l.files
    && l.files[PathOf(d)].size == Get(d.fields, "size").n
    && l.files[PathOf(d)].sha256 == HexOf(DigestOf(d))
    && EmbeddedOk(l, d.fields, Get(d.fields, "size").n, HexOf(DigestOf(d)))
  }

  /** The document a descriptor's blob parses to. */
  function StrictDoc(l: Layout, d: Value): Option<Fields> {
    if PathOf(d) in l.strict then Some(l.strict[PathOf(d)]) else None
  }

  predicate SchemaOk(doc: Fields) {
    "schemaVersion" in doc && doc["schemaVersion"] == Int(2)
  }

  predicate IsPlatform(p: Value, os: Value, architecture: Value) {
    p.Obj? && Get(p.fields, "os") == os && Get(p.fields, "architecture") == architecture
  }

  predicate IsUnknownPlatform(p: Value) {
    IsPlatform(p, Str("unknown"), Str("unknown"))
  }

  /** linux/amd64 or linux/arm64 for exactly those two platforms. */
  function LinuxName(os: Value, architecture: Value): Option<string> {
    if os == Str("linux") && architecture == Str("amd64") then Some(AMD64)
    else if os == Str("linux") && architecture == Str("arm64") then Some(ARM64)
    else None
  }

  // ----- statements

  predicate IsSpace(c: char) {
    || '\t' <= c <= '\r' || '\U{1C}' <= c <= ' ' || c == '\U{85}' || c == '\U{A0}' || c == '\U{1680}'
    || '\U{2000}' <= c <= '\U{200A}' || c == '\U{2028}' || c == '\U{2029}' || c == '\U{202F}'
    || c == '\U{205F}' || c == '\U{3000}'
  }

  /** str(value).strip() is nonempty. */
  predicate NonBlank(v: Value) {
    v.Str? && exists i | 0 <= i < |v.s| :: !IsSpace(v.s[i])
  }

  predicate NonEmptyArray(v: Value) {
    v.Arr? && v.items != []
  }

  predicate PredicateOk(predicateType: string, p: Fields) {
    && p != map[]
    && (predicateType == SPDX ==>
          && |Text(Get(p, "spdxVersion"))| >= 5 && Text(Get(p, "spdxVersion"))[..5] == "SPDX-"
          && NonEmptyArray(Get(p, "packages")))
    && (predicateType == CYCLONEDX ==>
          Get(p, "bomFormat") == Str("CycloneDX") && NonEmptyArray(Get(p, "components")))
    && (predicateType == SLSA_V02 ==>
          && NonBlank(Get(p, "buildType"))
          && NonBlank(Get(FieldsOf(Get(p, "builder")), "id")))
    && (predicateType == SLSA_V1 ==>
          && var details := Get(p, "runDetails");
             var definition := Get(p, "buildDefinition");
             && definition.Obj? && definition.fields != map[]
             && details.Obj? && details.fields != map[]
             && NonBlank(Get(definition.fields, "buildType"))
             && Get(FieldsOf(Get(details.fields, "builder")), "id").Str?)
  }

  predicate Binds(subjects: seq<Value>, reference: string) {
    exists i | 0 <= i < |subjects| ::
      Get(FieldsOf(Get(FieldsOf(subjects[i]), "digest")), "sha256") == Str(HexOf(reference))
  }

  /** One in-toto statement about the image `reference`; `bare` says that the attestation
      manifest itself names no OCI subject. */
  predicate StatementOk(s: Fields, reference: string, bare: bool) {
    && (|| Get(s, "_type") == Str("https://in-toto.io/Statement/v0.1")
        || Get(s, "_type") == Str("https://in-toto.io/Statement/v1"))
    && Get(s, "predicateType").Str?
    && Get(s, "subject").Arr?
    && (Get(s, "subject").items != [] || bare ==> Binds(Get(s, "subject").items, reference))
    && Get(s, "predicate").Obj?
    && PredicateOk(Get(s, "predicateType").s, Get(s, "predicate").fields)
  }

  predicate StatementLayerOk(l: Layout, layer: Value, reference: string, bare: bool) {
    && DescriptorOk(l, layer)
    && IsStatementLayerType(MediaOf(layer))
    && StrictDoc(l, layer).Some?
    && StatementOk(StrictDoc(l, layer).value, reference, bare)
  }

  function PredicateTypeOf(l: Layout, layer: Value): string {
    if PathOf(layer) in l.strict then Text(Get(l.strict[PathOf(layer)], "predicateType")) else ""
  }

  /** The predicate types of an attestation's layers. */
  function PredicateTypes(l: Layout, layers: seq<Value>): set<string> {
    set i | 0 <= i < |layers| :: PredicateTypeOf(l, layers[i])
  }

  // ----- nodes

  /** What an accepted index entry turns out to be. */
  datatype Kind =
    | Nested(children: seq<Value>)
    | Runnable(identity: string)
    | Attests(reference: string, predicates: set<string>)

  function LayersOf(doc: Fields): seq<Value> {
    var layers := Get(doc, "layers");
    if layers.Arr? then layers.items else []
  }

  function ChildrenOf(doc: Fields): seq<Value> {
    var manifests := Get(doc, "manifests");
    if manifests.Arr? then manifests.items else []
  }

  /** The (os, architecture) pair an image manifest claims through its config. */
  function ConfigPlatform(l: Layout, doc: Fields): Option<(Value, Value)> {
    var config :- StrictDoc(l, Get(doc, "config"));
    if IsEmptyConfigType(MediaOf(Get(doc, "config")))
    then Some((Str("unknown"), Str("unknown")))
    else Some((Get(config, "os"), Get(config, "architecture")))
  }

  function ReferenceOf(d: Value): Value {
    Get(FieldsOf(Get(FieldsOf(d), "annotations")), "vnd.docker.reference.digest")
  }

  predicate LabelsOk(l: Layout, config: Fields) {
    var labels := Get(FieldsOf(Get(config, "config")), "Labels");
    && labels.Obj?
    && Get(labels.fields, "org.opencontainers.image.version") == Str(l.version)
    && Get(labels.fields, "org.opencontainers.image.revision") == Str(l.commit)
  }

  /** _OCI._attestation without its bookkeeping. */
  function AttestationKind(l: Layout, doc: Fields, d: Value): (kind: Option<Kind>)
    ensures kind.Some? ==> kind.value.Attests?
  {
    var reference := ReferenceOf(d);
    var subject := Get(doc, "subject");
    if !(&& Get(FieldsOf(Get(FieldsOf(d), "annotations")), "vnd.docker.reference.type")
            == Str("attestation-manifest")
         && reference.Str? && IsDigest(reference.s)) then None
    else if subject != Null
            && !(&& DescriptorOk(l, subject) && DigestOf(subject) == reference.s
                 && IsManifestType(MediaOf(subject))) then None
    else if exists i | 0 <= i < |LayersOf(doc)| ::
              !StatementLayerOk(l, LayersOf(doc)[i], reference.s, subject == Null) then None
    else Some(Attests(reference.s, PredicateTypes(l, LayersOf(doc))))
  }

  predicate RunnableLayersOk(l: Layout, layers: seq<Value>) {
    forall i | 0 <= i < |layers| :: DescriptorOk(l, layers[i]) && IsLayerType(MediaOf(layers[i]))
  }

  /** The rules for an image config, including the stand-in an attestation may use. */
  predicate ConfigOk(l: Layout, doc: Fields, d: Value) {
    var configDescriptor := Get(doc, "config");
    && DescriptorOk(l, configDescriptor)
    && IsConfigType(MediaOf(configDescriptor))
    && StrictDoc(l, configDescriptor).Some?
    && (IsEmptyConfigType(MediaOf(configDescriptor)) ==>
          && StrictDoc(l, configDescriptor).value == map[]
          && Get(doc, "artifactType") == Str("application/vnd.docker.attestation.manifest.v1+json")
          && IsUnknownPlatform(PlatformOf(d)))
  }

  /** The checks on a manifest whose platform is not unknown/unknown. */
  function RunnableKind(l: Layout, doc: Fields, platform: (Value, Value)): (kind: Option<Kind>)
    ensures kind.Some? ==> kind.value.Runnable?
  {
    var identity :- LinuxName(platform.0, platform.1);
    var config :- StrictDoc(l, Get(doc, "config"));
    if "subject" in doc || "artifactType" in doc || !LabelsOk(l, config)
       || !RunnableLayersOk(l, LayersOf(doc)) then None
    else Some(Runnable(identity))
  }

  predicate IsAttestation(platform: (Value, Value)) {
    platform == (Str("unknown"), Str("unknown"))
  }

  /** _OCI._manifest without its bookkeeping and its duplicate-platform check. */
  function ManifestKind(l: Layout, doc: Fields, d: Value): (kind: Option<Kind>)
    ensures kind.Some? ==> !kind.value.Nested?
  {
    if !ConfigOk(l, doc, d) then None else
    var platform :- ConfigPlatform(l, doc);
    if PlatformOf(d) != Null && !IsPlatform(PlatformOf(d), platform.0, platform.1) then None
    else if LayersOf(doc) == [] then None
    else if IsAttestation(platform) then AttestationKind(l, doc, d)
    else RunnableKind(l, doc, platform)
  }

  /** The checks _OCI._node makes on a document before it looks at its media type. */
  predicate HeaderOk(l: Layout, doc: Fields, d: Value) {
    && SchemaOk(doc)
    && ("mediaType" in doc ==> doc["mediaType"] == Str(MediaOf(d)))
    && ("subject" in doc ==> DescriptorOk(l, doc["subject"]))
  }

  /** _OCI._node up to its descent: nothing here depends on what was visited before. */
  function KindOf(l: Layout, d: Value): Option<Kind> {
    if !DescriptorOk(l, d) then None else
    var doc :- StrictDoc(l, d);
    if !HeaderOk(l, doc, d) then None
    else if IsIndexType(MediaOf(d)) then
      if ChildrenOf(doc) == [] then None else Some(Nested(ChildrenOf(doc)))
    else if IsManifestType(MediaOf(d)) then ManifestKind(l, doc, d)
    else None
  }

  /** The descriptors a visited entry accounts for: itself and every descriptor its own
      document names, except the children of an index, which are entries themselves. */
  function Named(l: Layout, d: Value): seq<Value> {
    if PathOf(d) !in l.strict then [d] else
    var doc := l.strict[PathOf(d)];
    [d] + Subject(doc) + (if IsIndexType(MediaOf(d)) then [] else ManifestNames(l, doc))
  }

  /** The descriptors _OCI._manifest accounts for. */
  function ManifestNames(l: Layout, doc: Fields): seq<Value> {
    [Get(doc, "config")] +
    (if ConfigPlatform(l, doc).Some? && IsAttestation(ConfigPlatform(l, doc).value)
     then AttestationNames(doc) else LayersOf(doc))
  }

  /** What _OCI._attestation accounts for: the subject is checked a second time. */
  function AttestationNames(doc: Fields): seq<Value> {
    (if Get(doc, "subject") == Null then [] else [Get(doc, "subject")]) + LayersOf(doc)
  }

  function Subject(doc: Fields): seq<Value> {
    if "subject" in doc then [doc["subject"]] else []
  }

  function Paths(ds: seq<Value>): set<string> {
    set i | 0 <= i < |ds| :: PathOf(ds[i])
  }

  lemma TypesDisjoint(m: string)
    ensures !(IsIndexType(m) && IsManifestType(m))
  {
    var a, b := "application/vnd.oci.image.index.v1+json", "application/vnd.docker.distribution.manifest.list.v2+json";
    var c, d := "application/vnd.oci.image.manifest.v1+json", "application/vnd.docker.distribution.manifest.v2+json";
    assert |a| == 39 && |b| == 57 && |c| == 42 && |d| == 52;
  }
}
