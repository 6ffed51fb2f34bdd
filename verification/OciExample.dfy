/** A complete layout that all walks accept: an index of two images and two attestations, one with
    an SPDX and an SLSA v1 statement that lists its image, one with a CycloneDX and an SLSA v0.2
    statement whose manifest names it.  The blobs' digests are any fourteen distinct ones. */
module OciExample {
  import opened Wrappers
  import opened Json
  import opened OciLayout
  import opened OciVerify
  import opened OciReach
  import opened OciExactly
  import opened RegistrySummary
  import opened RegistryAgreement
  import opened PublicRegistry

  /** The SHA-256 digests of the fourteen blobs, in hexadecimal. */
  type Hashes = hex: seq<string> | |hex| == 14 witness seq(14, i => "")

  const INDEX := "application/vnd.oci.image.index.v1+json"
  const MANIFEST := "application/vnd.oci.image.manifest.v1+json"
  const CONFIG := "application/vnd.oci.image.config.v1+json"
  const EMPTY_CONFIG := "application/vnd.oci.empty.v1+json"
  const LAYER := "application/vnd.oci.image.layer.v1.tar+gzip"
  const STATEMENT := "application/vnd.in-toto+json"

  predicate Digests(hex: Hashes) {
    && (forall i | 0 <= i < 14 :: |hex[i]| == 64 && IsHex(hex[i]))
    && (forall i, j | 0 <= i < j < 14 :: hex[i] != hex[j])
  }

  function Digest(hex: Hashes, i: nat): string
    requires i < 14
  {
    "sha256:" + hex[i]
  }

  function Path(hex: Hashes, i: nat): string
    requires i < 14
  {
    "oci/blobs/sha256/" + hex[i]
  }

  lemma PathsDiffer(hex: Hashes, i: nat, j: nat)
    requires Digests(hex) && i < 14 && j < 14 && Path(hex, i) == Path(hex, j)
    ensures i == j
  {
    assert Path(hex, i)[17..] == hex[i] && Path(hex, j)[17..] == hex[j];
  }

  // ----- descriptors

  function Platform(os: string, architecture: string): Value {
    Obj(map["os" := Str(os), "architecture" := Str(architecture)])
  }

  function Descriptor(hex: Hashes, i: nat, media: string): Value
    requires i < 14
  {
    Obj(map["digest" := Str(Digest(hex, i)), "size" := Int(i), "mediaType" := Str(media)])
  }

  /** The architecture image number i runs on. */
  function Architecture(i: nat): string {
    if i == 1 then "amd64" else "arm64"
  }

  function ImageEntry(hex: Hashes, i: nat): Value
    requires i < 14
  {
    Obj(map["digest" := Str(Digest(hex, i)), "size" := Int(i), "mediaType" := Str(MANIFEST),
            "platform" := Platform("linux", Architecture(i))])
  }

  function AttestationEntry(hex: Hashes, i: nat, image: nat): Value
    requires i < 14 && image < 14
  {
    Obj(map["digest" := Str(Digest(hex, i)), "size" := Int(i), "mediaType" := Str(MANIFEST),
            "platform" := Platform("unknown", "unknown"),
            "annotations" := Obj(map["vnd.docker.reference.type" := Str("attestation-manifest"),
                                     "vnd.docker.reference.digest" := Str(Digest(hex, image))])])
  }

  function Entries(hex: Hashes): seq<Value>
  {
    [ImageEntry(hex, 1), ImageEntry(hex, 2), AttestationEntry(hex, 3, 1), AttestationEntry(hex, 4, 2)]
  }

  // ----- documents

  function ImageConfig(architecture: string, version: string, commit: string): Fields {
    map["os" := Str("linux"), "architecture" := Str(architecture),
        "config" := Obj(map["Labels" := Obj(map["org.opencontainers.image.version" := Str(version),
                                                "org.opencontainers.image.revision" := Str(commit)])])]
  }

  function Manifest(config: Value, layers: seq<Value>): Fields {
    map["schemaVersion" := Int(2), "config" := config, "layers" := Arr(layers)]
  }

  function Statement(kind: string, subjects: seq<Value>, content: Fields): Fields {
    map["_type" := Str("https://in-toto.io/Statement/v1"), "predicateType" := Str(kind),
        "subject" := Arr(subjects), "predicate" := Obj(content)]
  }

  function SubjectEntry(hex: string): Value {
    Obj(map["digest" := Obj(map["sha256" := Str(hex)])])
  }

  const SPDX_CONTENT: Fields := map["spdxVersion" := Str("SPDX-2.3"), "packages" := Arr([Null])]
  const CYCLONEDX_CONTENT: Fields := map["bomFormat" := Str("CycloneDX"), "components" := Arr([Null])]
  const SLSA_V02_CONTENT: Fields := map["buildType" := Str("b"), "builder" := Obj(map["id" := Str("i")])]
  const SLSA_V1_CONTENT: Fields :=
    map["buildDefinition" := Obj(map["buildType" := Str("b")]),
        "runDetails" := Obj(map["builder" := Obj(map["id" := Str("i")])])]

  function Document(hex: Hashes, version: string, commit: string, i: nat): Fields
  {
    if i == 0 then map["schemaVersion" := Int(2), "mediaType" := Str(INDEX), "manifests" := Arr(Entries(hex))]
    else if i == 1 then Manifest(Descriptor(hex, 5, CONFIG), [Descriptor(hex, 7, LAYER)])
    else if i == 2 then Manifest(Descriptor(hex, 6, CONFIG), [Descriptor(hex, 7, LAYER)])
    else if i == 3 then
      Manifest(Descriptor(hex, 8, CONFIG), [Descriptor(hex, 9, STATEMENT), Descriptor(hex, 10, STATEMENT)])
    else if i == 4 then
      Manifest(Descriptor(hex, 11, EMPTY_CONFIG), [Descriptor(hex, 12, STATEMENT), Descriptor(hex, 13, STATEMENT)])
        ["artifactType" := Str("application/vnd.docker.attestation.manifest.v1+json")]
        ["subject" := Descriptor(hex, 2, MANIFEST)]
    else if i == 5 then ImageConfig("amd64", version, commit)
    else if i == 6 then ImageConfig("arm64", version, commit)
    else if i == 8 then map["os" := Str("unknown"), "architecture" := Str("unknown")]
    else if i == 9 then Statement(SPDX, [SubjectEntry(hex[1])], SPDX_CONTENT)
    else if i == 10 then Statement(SLSA_V1, [SubjectEntry(hex[1])], SLSA_V1_CONTENT)
    else if i == 12 then Statement(CYCLONEDX, [], CYCLONEDX_CONTENT)
    else if i == 13 then Statement(SLSA_V02, [], SLSA_V02_CONTENT)
    else map[]
  }

  /** The files below oci/blobs/ are the fourteen blobs. */
  ghost predicate HoldsFiles(l: Layout, hex: Hashes)
  {
    && (forall i: nat | i < 14 :: Path(hex, i) in l.files && l.files[Path(hex, i)] == FileRecord(i, hex[i], 420))
    && (forall p | p in l.files && |p| >= 10 && p[..10] == "oci/blobs/" :: exists i: nat :: i < 14 && p == Path(hex, i))
  }

  /** The layout holds exactly these blobs, all but the tar layer as documents, under a root index
      that points at the index of images. */
  ghost predicate Holds(l: Layout, hex: Hashes) {
    && Digests(hex)
    && HoldsFiles(l, hex)
    && (forall i: nat | i < 14 && i != 7 ::
          Path(hex, i) in l.strict && l.strict[Path(hex, i)] == Document(hex, l.version, l.commit, i))
    && "oci/oci-layout" in l.strict && l.strict["oci/oci-layout"] == map["imageLayoutVersion" := Str("1.0.0")]
    && "oci/index.json" in l.files && "oci/index.json" in l.strict
    && l.strict["oci/index.json"] == RootIndex(Descriptor(hex, 0, INDEX))
    && l.relaxed == l.strict
  }

  // ----- looking blobs up

  lemma LookUp(l: Layout, hex: Hashes, i: nat)
    requires Holds(l, hex) && i < 14
    ensures Path(hex, i) in l.files && l.files[Path(hex, i)] == FileRecord(i, hex[i], 420)
    ensures i != 7 ==> Path(hex, i) in l.strict && l.strict[Path(hex, i)] == Document(hex, l.version, l.commit, i)
    ensures BlobPath(Digest(hex, i)) == Path(hex, i) && HexOf(Digest(hex, i)) == hex[i] && IsDigest(Digest(hex, i))
  {
    hide Document, IsHex;
    assert Digest(hex, i)[7..] == hex[i] && Digest(hex, i)[..7] == "sha256:";
  }

  /** A descriptor of one of the blobs checks out, whatever else it carries. */
  lemma Checked(l: Layout, hex: Hashes, i: nat, d: Value)
    requires Holds(l, hex) && i < 14 && d.Obj?
    requires Get(d.fields, "digest") == Str(Digest(hex, i)) && Get(d.fields, "size") == Int(i)
    requires Get(d.fields, "mediaType").Str? && "urls" !in d.fields && "data" !in d.fields
    ensures DescriptorOk(l, d) && PathOf(d) == Path(hex, i) && DigestOf(d) == Digest(hex, i)
    ensures i != 7 ==> StrictDoc(l, d) == Some(Document(hex, l.version, l.commit, i))
  {
    LookUp(l, hex, i);
    hide Document, IsHex, IsDigest, Holds, Path, Digest;
  }

  lemma DescriptorSays(hex: Hashes, i: nat, media: string)
    requires i < 14
    ensures var f := Descriptor(hex, i, media).fields;
            && Get(f, "digest") == Str(Digest(hex, i)) && Get(f, "size") == Int(i) && Get(f, "mediaType") == Str(media)
            && "urls" !in f && "data" !in f && Get(f, "platform") == Null
  {
    assert "urls"[0] != "size"[0];
  }

  lemma ImageEntrySays(hex: Hashes, i: nat)
    requires i < 14
    ensures var f := ImageEntry(hex, i).fields;
            && Get(f, "digest") == Str(Digest(hex, i)) && Get(f, "size") == Int(i)
            && Get(f, "mediaType") == Str(MANIFEST)
            && "urls" !in f && "data" !in f && Get(f, "platform") == Platform("linux", Architecture(i))
  {
    assert "urls"[0] != "size"[0];
  }

  lemma AttestationEntrySays(hex: Hashes, i: nat, image: nat)
    requires i < 14 && image < 14
    ensures var f := AttestationEntry(hex, i, image).fields;
            && Get(f, "digest") == Str(Digest(hex, i)) && Get(f, "size") == Int(i)
            && Get(f, "mediaType") == Str(MANIFEST)
            && "urls" !in f && "data" !in f && Get(f, "platform") == Platform("unknown", "unknown")
            && var notes := Get(f, "annotations");
               && Get(FieldsOf(notes), "vnd.docker.reference.type") == Str("attestation-manifest")
               && Get(FieldsOf(notes), "vnd.docker.reference.digest") == Str(Digest(hex, image))
  {
    assert "urls"[0] != "size"[0];
  }

  lemma MediaTypes()
    ensures IsIndexType(INDEX) && !IsManifestType(INDEX)
    ensures IsManifestType(MANIFEST) && !IsIndexType(MANIFEST)
    ensures IsConfigType(CONFIG) && !IsEmptyConfigType(CONFIG)
    ensures IsConfigType(EMPTY_CONFIG) && IsEmptyConfigType(EMPTY_CONFIG)
    ensures IsLayerType(LAYER) && IsStatementLayerType(STATEMENT)
  {
    TypesDisjoint(INDEX);
    TypesDisjoint(MANIFEST);
    assert |CONFIG| == 40 && |EMPTY_CONFIG| == 33;
  }

  lemma PlatformSays(os: string, architecture: string)
    ensures IsPlatform(Platform(os, architecture), Str(os), Str(architecture))
  {
  }

  // ----- images

  lemma ManifestSays(config: Value, layers: seq<Value>)
    ensures var m := Manifest(config, layers);
            && SchemaOk(m) && "mediaType" !in m && "subject" !in m && "artifactType" !in m
            && Get(m, "config") == config && LayersOf(m) == layers && Get(m, "subject") == Null
  {
    assert "config"[0] != "layers"[0];
  }

  lemma ConfigSays(architecture: string, version: string, commit: string, l: Layout)
    requires l.version == version && l.commit == commit
    ensures var c := ImageConfig(architecture, version, commit);
            Get(c, "os") == Str("linux") && Get(c, "architecture") == Str(architecture) && LabelsOk(l, c)
  {
    var v, r := "org.opencontainers.image.version", "org.opencontainers.image.revision";
    assert |v| == 32 && |r| == 33;
  }

  /** How an accepted manifest comes about. */
  lemma ManifestKindIs(l: Layout, d: Value, doc: Fields, platform: (Value, Value))
    requires DescriptorOk(l, d) && StrictDoc(l, d) == Some(doc) && HeaderOk(l, doc, d) && IsManifestType(MediaOf(d))
    requires ConfigOk(l, doc, d) && ConfigPlatform(l, doc) == Some(platform) && LayersOf(doc) != []
    requires PlatformOf(d) == Null || IsPlatform(PlatformOf(d), platform.0, platform.1)
    ensures KindOf(l, d) ==
            if IsAttestation(platform) then AttestationKind(l, doc, d) else RunnableKind(l, doc, platform)
    ensures Named(l, d) ==
            [d] + Subject(doc) +
            ([Get(doc, "config")] + if IsAttestation(platform) then AttestationNames(doc) else LayersOf(doc))
  {
    hide DescriptorOk, HeaderOk, ConfigOk, ConfigPlatform, IsPlatform, AttestationKind, RunnableKind, IsManifestType,
         IsIndexType, IsAttestation, LayersOf, AttestationNames;
    TypesDisjoint(MediaOf(d));
  }

  lemma ConfigIsOk(l: Layout, doc: Fields, d: Value, config: Fields)
    requires DescriptorOk(l, Get(doc, "config")) && StrictDoc(l, Get(doc, "config")) == Some(config)
    ensures MediaOf(Get(doc, "config")) == CONFIG ==>
              ConfigOk(l, doc, d) && ConfigPlatform(l, doc) == Some((Get(config, "os"), Get(config, "architecture")))
    ensures MediaOf(Get(doc, "config")) == EMPTY_CONFIG && config == map[] && IsUnknownPlatform(PlatformOf(d))
            && Get(doc, "artifactType") == Str("application/vnd.docker.attestation.manifest.v1+json") ==>
              ConfigOk(l, doc, d) && ConfigPlatform(l, doc) == Some((Str("unknown"), Str("unknown")))
  {
    MediaTypes();
    hide DescriptorOk, IsConfigType, IsEmptyConfigType, IsUnknownPlatform, IsPlatform;
  }

  lemma PlainHeader(l: Layout, doc: Fields, d: Value)
    requires SchemaOk(doc) && "mediaType" !in doc && "subject" !in doc
    ensures HeaderOk(l, doc, d) && Subject(doc) == []
  {
  }

  lemma RunnableFrom(l: Layout, doc: Fields, architecture: string, config: Fields, layer: Value)
    requires architecture in {"amd64", "arm64"}
    requires "subject" !in doc && "artifactType" !in doc && LayersOf(doc) == [layer]
    requires StrictDoc(l, Get(doc, "config")) == Some(config) && LabelsOk(l, config)
    requires DescriptorOk(l, layer) && MediaOf(layer) == LAYER
    ensures RunnableKind(l, doc, (Str("linux"), Str(architecture))) == Some(Runnable("linux/" + architecture))
  {
    hide DescriptorOk, LabelsOk, StrictDoc;
    MediaTypes();
    LinuxNames();
    assert [layer][0] == layer;
  }

  lemma NotAttestation(architecture: string)
    ensures !IsAttestation((Str("linux"), Str(architecture)))
  {
    assert "linux"[0] != "unknown"[0];
  }

  /** A descriptor of a blob, read back. */
  lemma Described(l: Layout, hex: Hashes, i: nat, media: string)
    requires Holds(l, hex) && i < 14
    ensures var d := Descriptor(hex, i, media);
            && DescriptorOk(l, d) && MediaOf(d) == media && PathOf(d) == Path(hex, i) && DigestOf(d) == Digest(hex, i)
            && PlatformOf(d) == Null
            && (i != 7 ==> StrictDoc(l, d) == Some(Document(hex, l.version, l.commit, i)))
  {
    assert Descriptor(hex, i, media).Obj?;
    hide Holds, DescriptorOk, Document, Descriptor, Path, Digest, StrictDoc;
    DescriptorSays(hex, i, media);
    Checked(l, hex, i, Descriptor(hex, i, media));
  }

  lemma ImageDescribed(l: Layout, hex: Hashes, i: nat)
    requires Holds(l, hex) && i < 14 && i != 7
    ensures var d := ImageEntry(hex, i);
            && DescriptorOk(l, d) && IsManifestType(MediaOf(d)) && PathOf(d) == Path(hex, i)
            && DigestOf(d) == Digest(hex, i) && IsPlatform(PlatformOf(d), Str("linux"), Str(Architecture(i)))
            && StrictDoc(l, d) == Some(Document(hex, l.version, l.commit, i))
  {
    assert ImageEntry(hex, i).Obj?;
    hide Holds, DescriptorOk, Document, ImageEntry, Path, Digest, StrictDoc, Platform, IsPlatform, IsManifestType;
    MediaTypes();
    ImageEntrySays(hex, i);
    Checked(l, hex, i, ImageEntry(hex, i));
    PlatformSays("linux", Architecture(i));
  }

  lemma ImageKind(l: Layout, hex: Hashes, i: nat)
    requires Holds(l, hex) && 0 < i <= 2
    ensures var d := ImageEntry(hex, i);
            && KindOf(l, d) == Some(Runnable("linux/" + Architecture(i)))
            && Named(l, d) == [d, Descriptor(hex, i + 4, CONFIG), Descriptor(hex, 7, LAYER)]
            && PathOf(d) == Path(hex, i) && DigestOf(d) == Digest(hex, i)
  {
    ImageDocuments(hex, l.version, l.commit, i);
    hide *;
    ImageDescribed(l, hex, i);
    Described(l, hex, i + 4, CONFIG);
    Described(l, hex, 7, LAYER);
    ImageFrom(l, ImageEntry(hex, i), Descriptor(hex, i + 4, CONFIG), Descriptor(hex, 7, LAYER), Architecture(i));
  }

  lemma ImageDocuments(hex: Hashes, version: string, commit: string, i: nat)
    requires 0 < i <= 2
    ensures Document(hex, version, commit, i) == Manifest(Descriptor(hex, i + 4, CONFIG), [Descriptor(hex, 7, LAYER)])
    ensures Document(hex, version, commit, i + 4) == ImageConfig(Architecture(i), version, commit)
    ensures Architecture(i) in {"amd64", "arm64"}
  {
    hide Manifest, ImageConfig, Descriptor;
  }

  lemma ImageFrom(l: Layout, d: Value, config: Value, layer: Value, architecture: string)
    requires architecture in {"amd64", "arm64"}
    requires DescriptorOk(l, d) && IsManifestType(MediaOf(d))
    requires IsPlatform(PlatformOf(d), Str("linux"), Str(architecture))
    requires StrictDoc(l, d) == Some(Manifest(config, [layer]))
    requires DescriptorOk(l, config) && MediaOf(config) == CONFIG
    requires StrictDoc(l, config) == Some(ImageConfig(architecture, l.version, l.commit))
    requires DescriptorOk(l, layer) && MediaOf(layer) == LAYER
    ensures KindOf(l, d) == Some(Runnable("linux/" + architecture)) && Named(l, d) == [d, config, layer]
  {
    var doc, settings := Manifest(config, [layer]), ImageConfig(architecture, l.version, l.commit);
    hide KindOf, Named, DescriptorOk, HeaderOk, ConfigOk, ConfigPlatform, IsPlatform, RunnableKind, IsAttestation,
         LayersOf,
         Manifest, ImageConfig, LabelsOk, IsManifestType, SchemaOk, StrictDoc, AttestationKind, MediaOf, PlatformOf;
    ManifestSays(config, [layer]);
    ConfigSays(architecture, l.version, l.commit, l);
    PlainHeader(l, doc, d);
    ConfigIsOk(l, doc, d, settings);
    NotAttestation(architecture);
    ManifestKindIs(l, d, doc, (Str("linux"), Str(architecture)));
    RunnableFrom(l, doc, architecture, settings, layer);
    assert [d] + [] + ([config] + [layer]) == [d, config, layer];
  }

  // ----- attestations

  lemma StatementSays(kind: string, subjects: seq<Value>, content: Fields)
    ensures var s := Statement(kind, subjects, content);
            && Get(s, "_type") == Str("https://in-toto.io/Statement/v1") && Get(s, "predicateType") == Str(kind)
            && Get(s, "subject") == Arr(subjects) && Get(s, "predicate") == Obj(content)
  {
  }

  lemma TypesDiffer()
    ensures SPDX != CYCLONEDX && SPDX != SLSA_V02 && SPDX != SLSA_V1 && CYCLONEDX != SLSA_V02 && CYCLONEDX != SLSA_V1
    ensures SLSA_V02 != SLSA_V1
  {
    assert |SPDX| == 25 && |CYCLONEDX| == 25 && |SLSA_V02| == 32 && |SLSA_V1| == 30;
    assert SPDX[8] != CYCLONEDX[8];
  }

  lemma SpdxIsOk()
    ensures PredicateOk(SPDX, SPDX_CONTENT)
  {
    TypesDiffer();
    assert "packages" in SPDX_CONTENT && "SPDX-2.3"[..5] == "SPDX-";
    hide NonBlank;
  }

  lemma CycloneDxIsOk()
    ensures PredicateOk(CYCLONEDX, CYCLONEDX_CONTENT)
  {
    TypesDiffer();
    assert "components" in CYCLONEDX_CONTENT;
    hide NonBlank;
  }

  lemma LettersAreNotBlank()
    ensures NonBlank(Str("b")) && NonBlank(Str("i"))
  {
    assert "b"[0] == 'b' && "i"[0] == 'i' && !IsSpace('b') && !IsSpace('i');
  }

  lemma SlsaV02IsOk()
    ensures PredicateOk(SLSA_V02, SLSA_V02_CONTENT)
  {
    TypesDiffer();
    LettersAreNotBlank();
    assert "builder" in SLSA_V02_CONTENT;
    hide NonBlank;
  }

  lemma SlsaV1IsOk()
    ensures PredicateOk(SLSA_V1, SLSA_V1_CONTENT)
  {
    TypesDiffer();
    LettersAreNotBlank();
    assert "runDetails" in SLSA_V1_CONTENT;
    var definition: Fields := map["buildType" := Str("b")];
    var details: Fields := map["builder" := Obj(map["id" := Str("i")])];
    assert "buildType" in definition && "builder" in details;
    hide NonBlank;
  }

  /** A statement of the example, for an image it lists, or for one its manifest names. */
  lemma StatementFrom(l: Layout, hex: Hashes, i: nat, kind: string, subjects: seq<Value>, content: Fields,
                      image: nat, bare: bool)
    requires Holds(l, hex) && i < 14 && i != 7 && image < 14
    requires Document(hex, l.version, l.commit, i) == Statement(kind, subjects, content) && PredicateOk(kind, content)
    requires subjects == [SubjectEntry(hex[image])] || (subjects == [] && !bare)
    ensures var layer := Descriptor(hex, i, STATEMENT);
            && StatementLayerOk(l, layer, Digest(hex, image), bare)
            && PredicateTypeOf(l, layer) == kind
  {
    var layer := Descriptor(hex, i, STATEMENT);
    assert HexOf(Digest(hex, image)) == hex[image] by {
      LookUp(l, hex, image);
    }
    SubjectSays(hex[image]);
    hide *;
    Described(l, hex, i, STATEMENT);
    StatementSays(kind, subjects, content);
    StatementIsOk(Statement(kind, subjects, content), kind, subjects, content, hex[image], Digest(hex, image), bare);
    LayerFrom(l, layer, Statement(kind, subjects, content), Digest(hex, image), bare, kind);
  }

  lemma StatementIsOk(s: Fields, kind: string, subjects: seq<Value>, content: Fields, hex: string, reference: string,
                      bare: bool)
    requires Get(s, "_type") == Str("https://in-toto.io/Statement/v1") && Get(s, "predicateType") == Str(kind)
    requires Get(s, "subject") == Arr(subjects) && Get(s, "predicate") == Obj(content) && PredicateOk(kind, content)
    requires HexOf(reference) == hex && (subjects == [SubjectEntry(hex)] || (subjects == [] && !bare))
    ensures StatementOk(s, reference, bare)
  {
    hide Get, PredicateOk, SubjectEntry, HexOf, FieldsOf;
    SubjectSays(hex);
    if subjects != [] {
      assert subjects[0] == SubjectEntry(hex);
    }
  }

  lemma LayerFrom(l: Layout, layer: Value, s: Fields, reference: string, bare: bool, kind: string)
    requires DescriptorOk(l, layer) && MediaOf(layer) == STATEMENT && StrictDoc(l, layer) == Some(s)
    requires StatementOk(s, reference, bare) && Get(s, "predicateType") == Str(kind)
    ensures StatementLayerOk(l, layer, reference, bare) && PredicateTypeOf(l, layer) == kind
  {
    hide DescriptorOk, StatementOk, MediaOf, PathOf, Get;
    MediaTypes();
  }

  lemma SubjectSays(hex: string)
    ensures Get(FieldsOf(Get(FieldsOf(SubjectEntry(hex)), "digest")), "sha256") == Str(hex)
  {
  }

  lemma AttestationDescribed(l: Layout, hex: Hashes, i: nat, image: nat)
    requires Holds(l, hex) && i < 14 && i != 7 && image < 14
    ensures var d := AttestationEntry(hex, i, image);
            && DescriptorOk(l, d) && IsManifestType(MediaOf(d)) && PathOf(d) == Path(hex, i)
            && DigestOf(d) == Digest(hex, i) && IsUnknownPlatform(PlatformOf(d))
            && StrictDoc(l, d) == Some(Document(hex, l.version, l.commit, i))
            && ReferenceOf(d) == Str(Digest(hex, image)) && IsDigest(Digest(hex, image))
            && Get(FieldsOf(Get(FieldsOf(d), "annotations")), "vnd.docker.reference.type")
               == Str("attestation-manifest")
  {
    assert AttestationEntry(hex, i, image).Obj?;
    LookUp(l, hex, image);
    hide Holds, DescriptorOk, Document, AttestationEntry, Path, Digest, StrictDoc, Platform, IsManifestType, IsDigest;
    MediaTypes();
    AttestationEntrySays(hex, i, image);
    Checked(l, hex, i, AttestationEntry(hex, i, image));
    PlatformSays("unknown", "unknown");
  }

  /** How an accepted attestation of two statements comes about. */
  lemma AttestationFrom(l: Layout, doc: Fields, d: Value, reference: string, a: Value, b: Value)
    requires ReferenceOf(d) == Str(reference) && IsDigest(reference)
    requires Get(FieldsOf(Get(FieldsOf(d), "annotations")), "vnd.docker.reference.type") == Str("attestation-manifest")
    requires var subject := Get(doc, "subject");
             subject != Null ==>
               DescriptorOk(l, subject) && DigestOf(subject) == reference && IsManifestType(MediaOf(subject))
    requires LayersOf(doc) == [a, b]
    requires StatementLayerOk(l, a, reference, Get(doc, "subject") == Null)
    requires StatementLayerOk(l, b, reference, Get(doc, "subject") == Null)
    ensures AttestationKind(l, doc, d) == Some(Attests(reference, {PredicateTypeOf(l, a), PredicateTypeOf(l, b)}))
  {
    hide DescriptorOk, IsManifestType, StatementLayerOk, IsDigest, PredicateTypeOf, PredicateTypes;
    assert [a, b][0] == a && [a, b][1] == b;
    TwoTypes(l, a, b);
  }

  lemma TwoTypes(l: Layout, a: Value, b: Value)
    ensures PredicateTypes(l, [a, b]) == {PredicateTypeOf(l, a), PredicateTypeOf(l, b)}
  {
    hide PredicateTypeOf;
    assert [a, b][0] == a && [a, b][1] == b;
  }

  /** The attestation whose statements list their image. */
  lemma ListingKind(l: Layout, hex: Hashes)
    requires Holds(l, hex)
    ensures var d := AttestationEntry(hex, 3, 1);
            && KindOf(l, d) == Some(Attests(Digest(hex, 1), {SPDX, SLSA_V1}))
            && Named(l, d) ==
               [d, Descriptor(hex, 8, CONFIG), Descriptor(hex, 9, STATEMENT), Descriptor(hex, 10, STATEMENT)]
            && PathOf(d) == Path(hex, 3) && DigestOf(d) == Digest(hex, 3)
  {
    ListingDocuments(hex, l.version, l.commit);
    hide *;
    SpdxIsOk();
    SlsaV1IsOk();
    AttestationDescribed(l, hex, 3, 1);
    Described(l, hex, 8, CONFIG);
    StatementFrom(l, hex, 9, SPDX, [SubjectEntry(hex[1])], SPDX_CONTENT, 1, true);
    StatementFrom(l, hex, 10, SLSA_V1, [SubjectEntry(hex[1])], SLSA_V1_CONTENT, 1, true);
    ListingFrom(l, AttestationEntry(hex, 3, 1), Digest(hex, 1), Descriptor(hex, 8, CONFIG),
                Descriptor(hex, 9, STATEMENT), Descriptor(hex, 10, STATEMENT));
  }

  const UNKNOWN: Fields := map["os" := Str("unknown"), "architecture" := Str("unknown")]

  lemma ListingDocuments(hex: Hashes, version: string, commit: string)
    ensures Document(hex, version, commit, 3) ==
            Manifest(Descriptor(hex, 8, CONFIG), [Descriptor(hex, 9, STATEMENT), Descriptor(hex, 10, STATEMENT)])
    ensures Document(hex, version, commit, 8) == UNKNOWN
    ensures Document(hex, version, commit, 9) == Statement(SPDX, [SubjectEntry(hex[1])], SPDX_CONTENT)
    ensures Document(hex, version, commit, 10) == Statement(SLSA_V1, [SubjectEntry(hex[1])], SLSA_V1_CONTENT)
  {
    hide Manifest, Descriptor, Statement, SubjectEntry;
  }

  lemma UnknownSays()
    ensures Get(UNKNOWN, "os") == Str("unknown") && Get(UNKNOWN, "architecture") == Str("unknown")
  {
  }

  lemma ListingFrom(l: Layout, d: Value, reference: string, config: Value, a: Value, b: Value)
    requires DescriptorOk(l, d) && IsManifestType(MediaOf(d)) && IsUnknownPlatform(PlatformOf(d))
    requires StrictDoc(l, d) == Some(Manifest(config, [a, b]))
    requires DescriptorOk(l, config) && MediaOf(config) == CONFIG && StrictDoc(l, config) == Some(UNKNOWN)
    requires ReferenceOf(d) == Str(reference) && IsDigest(reference)
    requires Get(FieldsOf(Get(FieldsOf(d), "annotations")), "vnd.docker.reference.type") == Str("attestation-manifest")
    requires StatementLayerOk(l, a, reference, true) && StatementLayerOk(l, b, reference, true)
    ensures KindOf(l, d) == Some(Attests(reference, {PredicateTypeOf(l, a), PredicateTypeOf(l, b)}))
    ensures Named(l, d) == [d, config, a, b]
  {
    hide *;
    var doc := Manifest(config, [a, b]);
    ManifestSays(config, [a, b]);
    PlainHeader(l, doc, d);
    UnknownSays();
    ConfigIsOk(l, doc, d, UNKNOWN);
    NamesWithoutSubject(doc, [a, b]);
    AttestationFrom(l, doc, d, reference, a, b);
    AttestationManifest(l, d, doc, [a, b]);
    JoinNames(d, [], config, [a, b]);
  }

  /** An attestation manifest whose parts are in order. */
  lemma AttestationManifest(l: Layout, d: Value, doc: Fields, names: seq<Value>)
    requires DescriptorOk(l, d) && StrictDoc(l, d) == Some(doc) && HeaderOk(l, doc, d) && IsManifestType(MediaOf(d))
    requires ConfigOk(l, doc, d) && ConfigPlatform(l, doc) == Some((Str("unknown"), Str("unknown")))
    requires LayersOf(doc) != [] && IsUnknownPlatform(PlatformOf(d)) && AttestationNames(doc) == names
    ensures KindOf(l, d) == AttestationKind(l, doc, d)
    ensures Named(l, d) == [d] + Subject(doc) + ([Get(doc, "config")] + names)
  {
    assert IsPlatform(PlatformOf(d), Str("unknown"), Str("unknown")) && IsAttestation((Str("unknown"), Str("unknown")));
    hide *;
    ManifestKindIs(l, d, doc, (Str("unknown"), Str("unknown")));
  }

  lemma JoinNames(d: Value, subject: seq<Value>, config: Value, rest: seq<Value>)
    ensures [d] + subject + ([config] + rest) == [d] + (subject + [config] + rest)
    ensures forall a, b | rest == [a, b] && subject == [] :: [d] + (subject + [config] + rest) == [d, config, a, b]
  {
  }

  lemma NamesWithoutSubject(doc: Fields, layers: seq<Value>)
    requires Get(doc, "subject") == Null && LayersOf(doc) == layers
    ensures AttestationNames(doc) == layers
  {
    assert [] + layers == layers;
  }

  /** The manifest of the attestation that names its image itself. */
  function NamingManifest(config: Value, layers: seq<Value>, subject: Value): Fields {
    Manifest(config, layers)
      ["artifactType" := Str("application/vnd.docker.attestation.manifest.v1+json")]
      ["subject" := subject]
  }

  lemma NamingSays(config: Value, layers: seq<Value>, subject: Value)
    ensures var m := NamingManifest(config, layers, subject);
            && SchemaOk(m) && "mediaType" !in m && "subject" in m && m["subject"] == subject
            && Get(m, "artifactType") == Str("application/vnd.docker.attestation.manifest.v1+json")
            && Get(m, "config") == config && LayersOf(m) == layers && Get(m, "subject") == subject
  {
    assert "config"[0] != "layers"[0];
  }

  lemma NamingDocuments(hex: Hashes, version: string, commit: string)
    ensures Document(hex, version, commit, 4) ==
            NamingManifest(Descriptor(hex, 11, EMPTY_CONFIG),
                           [Descriptor(hex, 12, STATEMENT), Descriptor(hex, 13, STATEMENT)],
                           Descriptor(hex, 2, MANIFEST))
    ensures Document(hex, version, commit, 11) == map[]
    ensures Document(hex, version, commit, 12) == Statement(CYCLONEDX, [], CYCLONEDX_CONTENT)
    ensures Document(hex, version, commit, 13) == Statement(SLSA_V02, [], SLSA_V02_CONTENT)
  {
    hide Manifest, Descriptor, Statement;
  }

  lemma SubjectHeader(l: Layout, doc: Fields, d: Value, subject: Value)
    requires SchemaOk(doc) && "mediaType" !in doc && "subject" in doc && doc["subject"] == subject
    requires DescriptorOk(l, subject)
    ensures HeaderOk(l, doc, d) && Subject(doc) == [subject]
  {
    hide DescriptorOk;
  }

  lemma NamesWithSubject(doc: Fields, subject: Value, layers: seq<Value>)
    requires Get(doc, "subject") == subject && subject != Null && LayersOf(doc) == layers
    ensures AttestationNames(doc) == [subject] + layers
  {
  }

  /** The attestation whose statements list nothing. */
  lemma NamingKind(l: Layout, hex: Hashes)
    requires Holds(l, hex)
    ensures var d, subject := AttestationEntry(hex, 4, 2), Descriptor(hex, 2, MANIFEST);
            && KindOf(l, d) == Some(Attests(Digest(hex, 2), {CYCLONEDX, SLSA_V02}))
            && Named(l, d) == [d] + [subject] + ([Descriptor(hex, 11, EMPTY_CONFIG)] +
                              ([subject] + [Descriptor(hex, 12, STATEMENT), Descriptor(hex, 13, STATEMENT)]))
            && PathOf(d) == Path(hex, 4) && DigestOf(d) == Digest(hex, 4)
  {
    NamingDocuments(hex, l.version, l.commit);
    hide *;
    CycloneDxIsOk();
    SlsaV02IsOk();
    AttestationDescribed(l, hex, 4, 2);
    Described(l, hex, 2, MANIFEST);
    Described(l, hex, 11, EMPTY_CONFIG);
    StatementFrom(l, hex, 12, CYCLONEDX, [], CYCLONEDX_CONTENT, 2, false);
    StatementFrom(l, hex, 13, SLSA_V02, [], SLSA_V02_CONTENT, 2, false);
    MediaTypes();
    NamingFrom(l, AttestationEntry(hex, 4, 2), Digest(hex, 2), Descriptor(hex, 11, EMPTY_CONFIG),
               Descriptor(hex, 12, STATEMENT), Descriptor(hex, 13, STATEMENT), Descriptor(hex, 2, MANIFEST));
  }

  lemma NamingFrom(l: Layout, d: Value, reference: string, config: Value, a: Value, b: Value, subject: Value)
    requires DescriptorOk(l, d) && IsManifestType(MediaOf(d)) && IsUnknownPlatform(PlatformOf(d))
    requires StrictDoc(l, d) == Some(NamingManifest(config, [a, b], subject))
    requires DescriptorOk(l, config) && MediaOf(config) == EMPTY_CONFIG && StrictDoc(l, config) == Some(map[])
    requires DescriptorOk(l, subject) && DigestOf(subject) == reference && IsManifestType(MediaOf(subject))
    requires ReferenceOf(d) == Str(reference) && IsDigest(reference)
    requires Get(FieldsOf(Get(FieldsOf(d), "annotations")), "vnd.docker.reference.type") == Str("attestation-manifest")
    requires StatementLayerOk(l, a, reference, false) && StatementLayerOk(l, b, reference, false)
    ensures KindOf(l, d) == Some(Attests(reference, {PredicateTypeOf(l, a), PredicateTypeOf(l, b)}))
    ensures Named(l, d) == [d] + [subject] + ([config] + ([subject] + [a, b]))
  {
    DescriptorIsObject(l, subject);
    hide *;
    var doc := NamingManifest(config, [a, b], subject);
    NamingSays(config, [a, b], subject);
    SubjectHeader(l, doc, d, subject);
    ConfigIsOk(l, doc, d, map[]);
    NamesWithSubject(doc, subject, [a, b]);
    AttestationFrom(l, doc, d, reference, a, b);
    AttestationManifest(l, d, doc, [subject] + [a, b]);
  }

  lemma DescriptorIsObject(l: Layout, d: Value)
    requires DescriptorOk(l, d)
    ensures d.Obj?
  {
  }

  // ----- the index of images

  lemma IndexSays(hex: Hashes, version: string, commit: string)
    ensures var m := Document(hex, version, commit, 0);
            && SchemaOk(m) && "mediaType" in m && m["mediaType"] == Str(INDEX) && "subject" !in m
            && ChildrenOf(m) == Entries(hex)
  {
    assert "mediaType"[1] != "manifests"[1];
    hide Entries;
  }

  lemma IndexKind(l: Layout, hex: Hashes)
    requires Holds(l, hex)
    ensures var d := Descriptor(hex, 0, INDEX);
            && KindOf(l, d) == Some(Nested(Entries(hex))) && Named(l, d) == [d]
            && PathOf(d) == Path(hex, 0) && DigestOf(d) == Digest(hex, 0) && PlatformOf(d) == Null
  {
    var d := Descriptor(hex, 0, INDEX);
    assert Entries(hex) != [];
    hide Holds, DescriptorOk, Document, Descriptor, Path, Digest, StrictDoc, Entries, IsIndexType, IsManifestType,
         SchemaOk,
         ChildrenOf, ManifestKind, MediaOf, PathOf;
    MediaTypes();
    Described(l, hex, 0, INDEX);
    IndexSays(hex, l.version, l.commit);
    IndexFrom(l, d, Document(hex, l.version, l.commit, 0));
  }

  lemma IndexFrom(l: Layout, d: Value, doc: Fields)
    requires DescriptorOk(l, d) && StrictDoc(l, d) == Some(doc) && IsIndexType(MediaOf(d)) && SchemaOk(doc)
    requires "mediaType" in doc && doc["mediaType"] == Str(MediaOf(d)) && "subject" !in doc && ChildrenOf(doc) != []
    ensures KindOf(l, d) == Some(Nested(ChildrenOf(doc))) && Named(l, d) == [d]
  {
    hide DescriptorOk, IsIndexType, IsManifestType, ManifestKind, SchemaOk, ChildrenOf;
    assert [d] + [] + [] == [d];
  }

  // ----- the walk

  lemma RunnableStep(l: Layout, w: Walk, d: Value, depth: nat, id: string)
    requires KindOf(l, d) == Some(Runnable(id)) && id !in w.platforms
    requires DigestOf(d) !in w.visiting && depth <= 32 && w.descriptors + |Named(l, d)| <= 10000
    ensures Node(l, w, d, depth) ==
            Some(Walk(w.used + Paths(Named(l, d)), w.visiting, w.platforms[id := DigestOf(d)], w.attestations,
                      w.descriptors + |Named(l, d)|))
  {
    hide Node, KindOf, Named, Paths, Children, Nodes;
    KindHasChildren(l, d);
    StepsAreNode(l, w, d, depth,
                 Walk(w.used + Paths(Named(l, d)), w.visiting, w.platforms[id := DigestOf(d)], w.attestations,
                      w.descriptors + |Named(l, d)|));
  }

  lemma AttestStep(l: Layout, w: Walk, d: Value, depth: nat, reference: string, predicates: set<string>)
    requires KindOf(l, d) == Some(Attests(reference, predicates)) && reference !in w.attestations
    requires DigestOf(d) !in w.visiting && depth <= 32 && w.descriptors + |Named(l, d)| <= 10000
    ensures Node(l, w, d, depth) ==
            Some(Walk(w.used + Paths(Named(l, d)), w.visiting, w.platforms, w.attestations[reference := predicates],
                      w.descriptors + |Named(l, d)|))
  {
    hide Node, KindOf, Named, Paths, Children, Nodes;
    KindHasChildren(l, d);
    assert {} + predicates == predicates;
    StepsAreNode(l, w, d, depth,
                 Walk(w.used + Paths(Named(l, d)), w.visiting, w.platforms, w.attestations[reference := predicates],
                      w.descriptors + |Named(l, d)|));
  }

  lemma FourNodes(l: Layout, w: Walk, a: Value, b: Value, c: Value, d: Value, depth: nat, w1: Walk, w2: Walk, w3: Walk,
                  w4: Walk)
    requires Node(l, w, a, depth) == Some(w1) && Node(l, w1, b, depth) == Some(w2)
    requires Node(l, w2, c, depth) == Some(w3) && Node(l, w3, d, depth) == Some(w4)
    ensures Nodes(l, w, [a, b, c, d], depth) == Some(w4)
  {
    hide Node;
    assert [a, b, c, d][1..] == [b, c, d] && [b, c, d][1..] == [c, d] && [c, d][1..] == [d] && [d][1..] == [];
    assert Nodes(l, w3, [d], depth) == Some(w4);
    assert Nodes(l, w2, [c, d], depth) == Some(w4);
    assert Nodes(l, w1, [b, c, d], depth) == Some(w4);
  }

  lemma DigestsDiffer(hex: Hashes, i: nat, j: nat)
    requires Digests(hex) && i < 14 && j < 14 && i != j
    ensures Digest(hex, i) != Digest(hex, j)
  {
    assert Digest(hex, i)[7..] == hex[i] && Digest(hex, j)[7..] == hex[j];
    assert i < j ==> hex[i] != hex[j];
    assert j < i ==> hex[j] != hex[i];
  }

  /** Two images and two attestations of them, whatever was used before. */
  lemma FourEntries(l: Layout, a: Value, b: Value, c: Value, d: Value, x: string, y: string, path: string,
                    used: set<string>, p: set<string>, q: set<string>)
    returns (w: Walk)
    requires KindOf(l, a) == Some(Runnable(AMD64)) && DigestOf(a) == x && |Named(l, a)| == 3
    requires KindOf(l, b) == Some(Runnable(ARM64)) && DigestOf(b) == y && |Named(l, b)| == 3
    requires KindOf(l, c) == Some(Attests(x, p)) && |Named(l, c)| == 4
    requires KindOf(l, d) == Some(Attests(y, q)) && |Named(l, d)| == 6
    requires path !in {x, y, DigestOf(c), DigestOf(d)} && x != y && AMD64 != ARM64
    ensures Nodes(l, Walk(used, {path}, map[], map[], 1), [a, b, c, d], 1) == Some(w)
    ensures w.visiting == {path} && w.platforms == map[AMD64 := x][ARM64 := y] && w.attestations == map[x := p][y := q]
    ensures w.used == used + Paths(Named(l, a)) + Paths(Named(l, b)) + Paths(Named(l, c)) + Paths(Named(l, d))
  {
    hide KindOf, Named, Paths, Node, Nodes, DigestOf;
    var w0 := Walk(used, {path}, map[], map[], 1);
    RunnableStep(l, w0, a, 1, AMD64);
    var w1 := Node(l, w0, a, 1).value;
    RunnableStep(l, w1, b, 1, ARM64);
    var w2 := Node(l, w1, b, 1).value;
    AttestStep(l, w2, c, 1, x, p);
    var w3 := Node(l, w2, c, 1).value;
    AttestStep(l, w3, d, 1, y, q);
    w := Node(l, w3, d, 1).value;
    FourNodes(l, w0, a, b, c, d, 1, w1, w2, w3, w);
  }

  lemma FiveDigestsDiffer(hex: Hashes)
    requires Digests(hex)
    ensures Digest(hex, 0) !in {Digest(hex, 1), Digest(hex, 2), Digest(hex, 3), Digest(hex, 4)}
    ensures Digest(hex, 1) != Digest(hex, 2) && AMD64 != ARM64
  {
    DigestsDiffer(hex, 1, 0);
    DigestsDiffer(hex, 2, 0);
    DigestsDiffer(hex, 3, 0);
    DigestsDiffer(hex, 4, 0);
    DigestsDiffer(hex, 1, 2);
    hide Digest;
    assert AMD64[7] != ARM64[7];
  }

  /** What the four entries use. */
  function EntriesUse(l: Layout, hex: Hashes): set<string> {
    Paths(Named(l, ImageEntry(hex, 1))) + Paths(Named(l, ImageEntry(hex, 2)))
    + Paths(Named(l, AttestationEntry(hex, 3, 1))) + Paths(Named(l, AttestationEntry(hex, 4, 2)))
  }

  lemma EntryKinds(l: Layout, hex: Hashes)
    requires Holds(l, hex)
    ensures KindOf(l, ImageEntry(hex, 1)) == Some(Runnable(AMD64)) && |Named(l, ImageEntry(hex, 1))| == 3
    ensures KindOf(l, ImageEntry(hex, 2)) == Some(Runnable(ARM64)) && |Named(l, ImageEntry(hex, 2))| == 3
    ensures DigestOf(ImageEntry(hex, 1)) == Digest(hex, 1) && DigestOf(ImageEntry(hex, 2)) == Digest(hex, 2)
    ensures DigestOf(AttestationEntry(hex, 3, 1)) == Digest(hex, 3)
    ensures DigestOf(AttestationEntry(hex, 4, 2)) == Digest(hex, 4)
    ensures KindOf(l, AttestationEntry(hex, 3, 1)) == Some(Attests(Digest(hex, 1), {SPDX, SLSA_V1}))
    ensures KindOf(l, AttestationEntry(hex, 4, 2)) == Some(Attests(Digest(hex, 2), {CYCLONEDX, SLSA_V02}))
    ensures |Named(l, AttestationEntry(hex, 3, 1))| == 4 && |Named(l, AttestationEntry(hex, 4, 2))| == 6
  {
    assert Architecture(1) == "amd64" && Architecture(2) == "arm64";
    hide *;
    LinuxNames();
    ImageKind(l, hex, 1);
    ImageKind(l, hex, 2);
    ListingKind(l, hex);
    NamingKind(l, hex);
  }

  /** The four entries of the index of images are accepted. */
  lemma EntriesAreAccepted(l: Layout, hex: Hashes, used: set<string>) returns (w: Walk)
    requires Holds(l, hex)
    ensures Nodes(l, Walk(used, {Digest(hex, 0)}, map[], map[], 1), Entries(hex), 1) == Some(w)
    ensures w.visiting == {Digest(hex, 0)} && w.platforms == Platforms(hex) && w.attestations == Attestations(hex)
    ensures w.used == used + EntriesUse(l, hex)
  {
    assert Digests(hex);
    FiveDigestsDiffer(hex);
    hide Holds, Digests, Digest, KindOf, Named, Paths, DigestOf, ImageEntry, AttestationEntry, Nodes;
    EntryKinds(l, hex);
    w := FourEntries(l, ImageEntry(hex, 1), ImageEntry(hex, 2), AttestationEntry(hex, 3, 1),
                     AttestationEntry(hex, 4, 2), Digest(hex, 1), Digest(hex, 2), Digest(hex, 0), used, {SPDX,
                     SLSA_V1}, {CYCLONEDX, SLSA_V02});
    UnionRight(used, Paths(Named(l, ImageEntry(hex, 1))), Paths(Named(l, ImageEntry(hex, 2))),
               Paths(Named(l, AttestationEntry(hex, 3, 1))), Paths(Named(l, AttestationEntry(hex, 4, 2))));
  }

  lemma UnionRight(a: set<string>, b: set<string>, c: set<string>, d: set<string>, e: set<string>)
    ensures a + b + c + d + e == a + (b + c + d + e)
  {
  }

  function Platforms(hex: Hashes): map<string, string>
  {
    map[AMD64 := Digest(hex, 1)][ARM64 := Digest(hex, 2)]
  }

  function Attestations(hex: Hashes): map<string, set<string>>
  {
    map[Digest(hex, 1) := {SPDX, SLSA_V1}][Digest(hex, 2) := {CYCLONEDX, SLSA_V02}]
  }

  /** What one entry uses: exactly the paths of these blobs. */
  ghost predicate Uses(hex: Hashes, used: set<string>, blobs: set<nat>)
  {
    && (forall i: nat | i in blobs :: i < 14 && Path(hex, i) in used)
    && (forall p | p in used :: exists i: nat :: i < 14 && p == Path(hex, i))
  }

  lemma UsesOne(hex: Hashes, a: Value, i: nat)
    requires i < 14 && PathOf(a) == Path(hex, i)
    ensures Uses(hex, Paths([a]), {i})
  {
    hide Path, PathOf;
    assert [a][0] == a;
  }

  lemma UsesMore(hex: Hashes, ds: seq<Value>, blobs: set<nat>, a: Value, i: nat)
    requires Uses(hex, Paths(ds), blobs) && i < 14 && PathOf(a) == Path(hex, i)
    ensures Uses(hex, Paths(ds + [a]), blobs + {i})
  {
    UsesOne(hex, a, i);
    hide Path, PathOf, Paths;
    PathsAppend(ds, [a]);
  }

  lemma UsesThree(hex: Hashes, a: Value, b: Value, c: Value, i: nat, j: nat, k: nat)
    requires i < 14 && j < 14 && k < 14
    requires PathOf(a) == Path(hex, i) && PathOf(b) == Path(hex, j) && PathOf(c) == Path(hex, k)
    ensures Uses(hex, Paths([a, b, c]), {i, j, k})
  {
    hide Uses, Paths, PathOf, Path;
    UsesOne(hex, a, i);
    UsesMore(hex, [a], {i}, b, j);
    UsesMore(hex, [a] + [b], {i} + {j}, c, k);
    assert [a] + [b] + [c] == [a, b, c] && {i} + {j} + {k} == {i, j, k};
  }

  lemma ListingUses(l: Layout, hex: Hashes)
    requires Holds(l, hex)
    ensures Uses(hex, Paths(Named(l, AttestationEntry(hex, 3, 1))), {3, 8, 9, 10})
  {
    hide *;
    ListingKind(l, hex);
    Described(l, hex, 8, CONFIG);
    Described(l, hex, 9, STATEMENT);
    Described(l, hex, 10, STATEMENT);
    var a, b, c := AttestationEntry(hex, 3, 1), Descriptor(hex, 8, CONFIG), Descriptor(hex, 9, STATEMENT);
    UsesThree(hex, a, b, c, 3, 8, 9);
    UsesMore(hex, [a, b, c], {3, 8, 9}, Descriptor(hex, 10, STATEMENT), 10);
    assert [a, b, c] + [Descriptor(hex, 10, STATEMENT)] == [a, b, c, Descriptor(hex, 10, STATEMENT)];
    assert {3, 8, 9} + {10} == {3, 8, 9, 10};
  }

  lemma NamingUses(l: Layout, hex: Hashes)
    requires Holds(l, hex)
    ensures Uses(hex, Paths(Named(l, AttestationEntry(hex, 4, 2))), {4, 2, 11, 12, 13})
  {
    hide *;
    NamingKind(l, hex);
    Described(l, hex, 2, MANIFEST);
    Described(l, hex, 11, EMPTY_CONFIG);
    Described(l, hex, 12, STATEMENT);
    Described(l, hex, 13, STATEMENT);
    var d, subject := AttestationEntry(hex, 4, 2), Descriptor(hex, 2, MANIFEST);
    var config := Descriptor(hex, 11, EMPTY_CONFIG);
    var a, b := Descriptor(hex, 12, STATEMENT), Descriptor(hex, 13, STATEMENT);
    UsesThree(hex, d, subject, config, 4, 2, 11);
    UsesMore(hex, [d, subject, config], {4, 2, 11}, subject, 2);
    UsesMore(hex, [d, subject, config] + [subject], {4, 2, 11} + {2}, a, 12);
    UsesMore(hex, [d, subject, config] + [subject] + [a], {4, 2, 11} + {2} + {12}, b, 13);
    assert [d] + [subject] + ([config] + ([subject] + [a, b])) == [d, subject, config] + [subject] + [a] + [b];
    assert {4, 2, 11} + {2} + {12} + {13} == {4, 2, 11, 12, 13};
  }

  lemma IndexUses(l: Layout, hex: Hashes)
    requires Holds(l, hex)
    ensures Uses(hex, Paths(Named(l, Descriptor(hex, 0, INDEX))), {0})
  {
    hide *;
    IndexKind(l, hex);
    UsesOne(hex, Descriptor(hex, 0, INDEX), 0);
  }

  /** Five sets that between them use every blob, and nothing but blobs. */
  lemma Together(hex: Hashes, a: set<string>, b: set<string>, c: set<string>, d: set<string>, e: set<string>,
                 present: set<string>)
    requires Uses(hex, a, {0}) && Uses(hex, b, {1, 5, 7}) && Uses(hex, c, {2, 6, 7})
    requires Uses(hex, d, {3, 8, 9, 10}) && Uses(hex, e, {4, 2, 11, 12, 13})
    requires forall p :: p in present <==> exists i: nat :: i < 14 && p == Path(hex, i)
    ensures a + b + c + d + e == present
  {
    hide Path;
    forall i: nat | i < 14 ensures Path(hex, i) in a + b + c + d + e {
      assert i in {0} || i in {1, 5, 7} || i in {2, 6, 7} || i in {3, 8, 9, 10} || i in {4, 2, 11, 12, 13};
    }
  }

  /** Every blob of the layout is used. */
  lemma AllAreUsed(l: Layout, hex: Hashes)
    requires Holds(l, hex)
    ensures Paths(Named(l, Descriptor(hex, 0, INDEX))) + EntriesUse(l, hex) == BlobsPresent(l)
  {
    hide Holds, Named, Paths, ImageEntry, AttestationEntry, Descriptor, Uses, BlobsPresent, Path, KindOf, DescriptorOk,
         PathOf, Digest, DigestOf, MediaOf, PlatformOf, StrictDoc, Document;
    IndexUses(l, hex);
    ImageKind(l, hex, 1);
    ImageKind(l, hex, 2);
    Described(l, hex, 5, CONFIG);
    Described(l, hex, 6, CONFIG);
    Described(l, hex, 7, LAYER);
    UsesThree(hex, ImageEntry(hex, 1), Descriptor(hex, 5, CONFIG), Descriptor(hex, 7, LAYER), 1, 5, 7);
    UsesThree(hex, ImageEntry(hex, 2), Descriptor(hex, 6, CONFIG), Descriptor(hex, 7, LAYER), 2, 6, 7);
    ListingUses(l, hex);
    NamingUses(l, hex);
    BlobsAre(l, hex);
    Together(hex, Paths(Named(l, Descriptor(hex, 0, INDEX))), Paths(Named(l, ImageEntry(hex, 1))),
             Paths(Named(l, ImageEntry(hex, 2))), Paths(Named(l, AttestationEntry(hex, 3, 1))),
             Paths(Named(l, AttestationEntry(hex, 4, 2))), BlobsPresent(l));
    UnionRight(Paths(Named(l, Descriptor(hex, 0, INDEX))), Paths(Named(l, ImageEntry(hex, 1))),
               Paths(Named(l, ImageEntry(hex, 2))), Paths(Named(l, AttestationEntry(hex, 3, 1))),
               Paths(Named(l, AttestationEntry(hex, 4, 2))));
  }

  lemma BlobsAre(l: Layout, hex: Hashes)
    requires Holds(l, hex)
    ensures forall p :: p in BlobsPresent(l) <==> exists i: nat :: i < 14 && p == Path(hex, i)
  {
    assert HoldsFiles(l, hex);
    hide Holds;
    forall i: nat | i < 14 ensures Path(hex, i) in BlobsPresent(l) {
      PathIsBlob(hex, i);
    }
    hide Path;
  }

  lemma PathIsBlob(hex: Hashes, i: nat)
    requires i < 14
    ensures |Path(hex, i)| >= 10 && Path(hex, i)[..10] == "oci/blobs/"
  {
    assert Path(hex, i)[..10] == "oci/blobs/";
  }

  function RootIndex(root: Value): Fields {
    map["schemaVersion" := Int(2), "manifests" := Arr([root])]
  }

  lemma RootIndexSays(root: Value)
    ensures SchemaOk(RootIndex(root)) && "mediaType" !in RootIndex(root) && ChildrenOf(RootIndex(root)) == [root]
  {
    assert "mediaType"[1] != "manifests"[1];
  }

  lemma RootsAre(l: Layout, hex: Hashes)
    requires Holds(l, hex)
    ensures RootOk(l) && Roots(l) == [Descriptor(hex, 0, INDEX)]
  {
    hide Digests, HoldsFiles, Document, SchemaOk, ChildrenOf, Descriptor;
    RootIndexSays(Descriptor(hex, 0, INDEX));
  }

  /** Main result: the first walk accepts the example, with both images and what is attested of each. */
  lemma ExampleIsAccepted(l: Layout, hex: Hashes)
    requires Holds(l, hex)
    ensures Verify(l).Some?
    ensures Verify(l).value.platforms == Platforms(hex) && Verify(l).value.attestations == Attestations(hex)
  {
    assert Digests(hex);
    var d := Descriptor(hex, 0, INDEX);
    hide *;
    FindingsAreOk(hex);
    RootsAre(l, hex);
    IndexKind(l, hex);
    var inner := EntriesAreAccepted(l, hex, Paths(Named(l, d)));
    AllAreUsed(l, hex);
    NestedStep(l, d, Entries(hex), inner);
    OneNode(l, START, d, 0);
    VerifyFrom(l, Roots(l), inner.(visiting := inner.visiting - {DigestOf(d)}));
  }

  lemma VerifyFrom(l: Layout, roots: seq<Value>, w: Walk)
    requires RootOk(l) && Roots(l) == roots && Nodes(l, START, roots, 0) == Some(w)
    requires FindingsOk(w.platforms, w.attestations) && w.used == BlobsPresent(l)
    ensures Verify(l) == Some(w)
  {
    hide RootOk, Roots, Nodes, FindingsOk, BlobsPresent;
  }

  lemma NestedStep(l: Layout, d: Value, children: seq<Value>, inner: Walk)
    requires KindOf(l, d) == Some(Nested(children)) && Named(l, d) == [d] && PlatformOf(d) == Null
    requires Nodes(l, Walk(Paths(Named(l, d)), {DigestOf(d)}, map[], map[], 1), children, 1) == Some(inner)
    ensures Node(l, START, d, 0) == Some(inner.(visiting := inner.visiting - {DigestOf(d)}))
  {
    hide Node, KindOf, Named, Paths, Children, Nodes, PlatformOf;
    KindHasChildren(l, d);
    assert {} + Paths(Named(l, d)) == Paths(Named(l, d)) && {} + {DigestOf(d)} == {DigestOf(d)};
    StepsAreNode(l, START, d, 0, inner.(visiting := inner.visiting - {DigestOf(d)}));
  }

  lemma OneNode(l: Layout, w: Walk, d: Value, depth: nat)
    ensures Nodes(l, w, [d], depth) == Node(l, w, d, depth)
  {
    hide Node;
    assert [d][1..] == [];
  }

  lemma FindingsAreOk(hex: Hashes)
    requires Digests(hex)
    ensures FindingsOk(Platforms(hex), Attestations(hex))
  {
    DigestsDiffer(hex, 1, 2);
    hide Digest;
    assert AMD64[7] != ARM64[7];
    assert Platforms(hex).Keys == {AMD64, ARM64};
    assert Platforms(hex)[AMD64] == Digest(hex, 1) && Platforms(hex)[ARM64] == Digest(hex, 2);
    assert Platforms(hex).Values == {Digest(hex, 1), Digest(hex, 2)};
    assert Attestations(hex).Keys == {Digest(hex, 1), Digest(hex, 2)};
  }

  // ----- a layout that holds the example

  /** Fourteen digests: a digit each, repeated. */
  function SomeHashes(): Hashes {
    seq(14, i requires 0 <= i < 14 => seq(64, j => "0123456789abcd"[i]))
  }

  lemma SomeHashesAreDigests()
    ensures Digests(SomeHashes())
  {
    var hex := SomeHashes();
    var digits := "0123456789abcd";
    assert forall i, j | 0 <= i < j < 14 :: digits[i] != digits[j];
    forall i, j | 0 <= i < j < 14 ensures hex[i] != hex[j] {
      assert hex[i][0] == digits[i] && hex[j][0] == digits[j];
    }
  }

  function FilesUpTo(hex: Hashes, n: nat): map<string, FileRecord>
    requires n <= 14
  {
    if n == 0 then map["oci/index.json" := FileRecord(300, "", 420)]
    else FilesUpTo(hex, n - 1)[Path(hex, n - 1) := FileRecord(n - 1, hex[n - 1], 420)]
  }

  function DocumentsUpTo(hex: Hashes, version: string, commit: string, n: nat): map<string, Fields>
    requires n <= 14
  {
    if n == 0 then
      map["oci/oci-layout" := map["imageLayoutVersion" := Str("1.0.0")],
          "oci/index.json" := RootIndex(Descriptor(hex, 0, INDEX))]
    else DocumentsUpTo(hex, version, commit, n - 1)[Path(hex, n - 1) := Document(hex, version, commit, n - 1)]
  }

  lemma {:induction false} FilesHold(hex: Hashes, n: nat)
    requires Digests(hex) && n <= 14
    ensures var files := FilesUpTo(hex, n);
            && "oci/index.json" in files
            && (forall i: nat | i < n :: Path(hex, i) in files && files[Path(hex, i)] == FileRecord(i, hex[i], 420))
            && (forall p | p in files && p != "oci/index.json" :: exists i: nat :: i < n && p == Path(hex, i))
  {
    hide Digests, Path;
    if n > 0 {
      FilesHold(hex, n - 1);
      NotRoot(hex, n - 1);
      forall i: nat | i < n - 1 ensures Path(hex, i) != Path(hex, n - 1) {
        if Path(hex, i) == Path(hex, n - 1) {
          PathsDiffer(hex, i, n - 1);
        }
      }
    }
  }

  lemma NotRoot(hex: Hashes, i: nat)
    requires i < 14
    ensures Path(hex, i) != "oci/index.json" && Path(hex, i) != "oci/oci-layout"
  {
    assert Path(hex, i)[4] == 'b';
  }

  lemma {:induction false} DocumentsHold(hex: Hashes, version: string, commit: string, n: nat)
    requires Digests(hex) && n <= 14
    ensures var documents := DocumentsUpTo(hex, version, commit, n);
            && "oci/oci-layout" in documents && documents["oci/oci-layout"] == map["imageLayoutVersion" := Str("1.0.0")]
            && "oci/index.json" in documents && documents["oci/index.json"] == RootIndex(Descriptor(hex, 0, INDEX))
            && forall i: nat | i < n ::
                 Path(hex, i) in documents && documents[Path(hex, i)] == Document(hex, version, commit, i)
  {
    hide Digests, Path, Document, RootIndex, Descriptor;
    if n == 0 {
      assert "oci/oci-layout"[4] != "oci/index.json"[4];
    } else {
      DocumentsHold(hex, version, commit, n - 1);
      NotRoot(hex, n - 1);
      forall i: nat | i < n - 1 ensures Path(hex, i) != Path(hex, n - 1) {
        if Path(hex, i) == Path(hex, n - 1) {
          PathsDiffer(hex, i, n - 1);
        }
      }
    }
  }

  function SomeLayout(version: string, commit: string): Layout {
    var documents := DocumentsUpTo(SomeHashes(), version, commit, 14);
    Layout(FilesUpTo(SomeHashes(), 14), documents, documents, s => None, version, commit)
  }

  lemma SomeLayoutHolds(version: string, commit: string)
    ensures Holds(SomeLayout(version, commit), SomeHashes())
  {
    var l, hex := SomeLayout(version, commit), SomeHashes();
    SomeHashesAreDigests();
    hide Digests, Document, Descriptor, RootIndex, SomeHashes, FilesUpTo, DocumentsUpTo, Path;
    FilesHold(hex, 14);
    DocumentsHold(hex, version, commit, 14);
    assert "oci/index.json"[..10] != "oci/blobs/" by {
      assert "oci/index.json"[..10][4] != "oci/blobs/"[4];
    }
  }

  /** There is a layout that is accepted, for every release. */
  lemma SomeLayoutIsAccepted(version: string, commit: string)
    ensures Verify(SomeLayout(version, commit)).Some?
    ensures Verify(SomeLayout(version, commit)).value.platforms.Keys == {"linux/amd64", "linux/arm64"}
  {
    assert AMD64[7] != ARM64[7];
    assert Platforms(SomeHashes()).Keys == {"linux/amd64", "linux/arm64"};
    hide Holds, Verify, SomeLayout, SomeHashes, Platforms;
    SomeLayoutHolds(version, commit);
    ExampleIsAccepted(SomeLayout(version, commit), SomeHashes());
  }

  // ----- the other two walks

  lemma ReadBack(l: Layout, d: Value, doc: Fields)
    requires l.relaxed == l.strict && StrictDoc(l, d) == Some(doc)
    ensures Readable(l, d) && l.relaxed[PathOf(d)] == doc
  {
  }

  lemma RunnableIsExplicit(l: Layout, d: Value)
    requires KindOf(l, d).Some? && KindOf(l, d).value.Runnable? && Readable(l, d) && PlatformOf(d) != Null
    ensures Explicit(l, d)
  {
    hide KindOf, Readable;
  }

  lemma AttestsIsExplicit(l: Layout, d: Value, doc: Fields, a: Value, b: Value)
    requires KindOf(l, d).Some? && KindOf(l, d).value.Attests? && PlatformOf(d) != Null
    requires Readable(l, d) && l.relaxed[PathOf(d)] == doc && LayersOf(doc) == [a, b]
    requires Readable(l, a) && Readable(l, b)
    ensures Explicit(l, d)
  {
    hide KindOf, LayersOf, PlatformOf, PathOf;
  }

  lemma PlatformIsStated(d: Value, os: Value, architecture: Value)
    requires IsPlatform(PlatformOf(d), os, architecture)
    ensures PlatformOf(d) != Null
  {
  }

  lemma ImageIsExplicit(l: Layout, hex: Hashes, i: nat)
    requires Holds(l, hex) && 0 < i <= 2
    ensures Explicit(l, ImageEntry(hex, i))
  {
    assert l.relaxed == l.strict;
    hide *;
    ImageKind(l, hex, i);
    ImageDescribed(l, hex, i);
    var d := ImageEntry(hex, i);
    ReadBack(l, d, Document(hex, l.version, l.commit, i));
    PlatformIsStated(d, Str("linux"), Str(Architecture(i)));
    RunnableIsExplicit(l, d);
  }

  lemma ListingIsExplicit(l: Layout, hex: Hashes)
    requires Holds(l, hex)
    ensures Explicit(l, AttestationEntry(hex, 3, 1))
  {
    assert l.relaxed == l.strict;
    ListingDocuments(hex, l.version, l.commit);
    hide *;
    ListingKind(l, hex);
    AttestationDescribed(l, hex, 3, 1);
    Described(l, hex, 9, STATEMENT);
    Described(l, hex, 10, STATEMENT);
    var d, a, b := AttestationEntry(hex, 3, 1), Descriptor(hex, 9, STATEMENT), Descriptor(hex, 10, STATEMENT);
    var doc := Document(hex, l.version, l.commit, 3);
    ManifestSays(Descriptor(hex, 8, CONFIG), [a, b]);
    ReadBack(l, d, doc);
    ReadBack(l, a, Document(hex, l.version, l.commit, 9));
    ReadBack(l, b, Document(hex, l.version, l.commit, 10));
    UnknownIsStated(d);
    AttestsIsExplicit(l, d, doc, a, b);
  }

  lemma UnknownIsStated(d: Value)
    requires IsUnknownPlatform(PlatformOf(d))
    ensures PlatformOf(d) != Null
  {
  }

  lemma NamingIsExplicit(l: Layout, hex: Hashes)
    requires Holds(l, hex)
    ensures Explicit(l, AttestationEntry(hex, 4, 2))
  {
    assert l.relaxed == l.strict;
    NamingDocuments(hex, l.version, l.commit);
    hide *;
    NamingKind(l, hex);
    AttestationDescribed(l, hex, 4, 2);
    Described(l, hex, 12, STATEMENT);
    Described(l, hex, 13, STATEMENT);
    var d, a, b := AttestationEntry(hex, 4, 2), Descriptor(hex, 12, STATEMENT), Descriptor(hex, 13, STATEMENT);
    var doc := Document(hex, l.version, l.commit, 4);
    NamingSays(Descriptor(hex, 11, EMPTY_CONFIG), [a, b], Descriptor(hex, 2, MANIFEST));
    ReadBack(l, d, doc);
    ReadBack(l, a, Document(hex, l.version, l.commit, 12));
    ReadBack(l, b, Document(hex, l.version, l.commit, 13));
    UnknownIsStated(d);
    AttestsIsExplicit(l, d, doc, a, b);
  }

  lemma EntriesAre(hex: Hashes, k: nat)
    requires k < 4
    ensures Entries(hex)[k] == if k < 2 then ImageEntry(hex, k + 1) else AttestationEntry(hex, k + 1, k - 1)
  {
    hide ImageEntry, AttestationEntry;
  }

  /** An explicit entry with nothing below it. */
  predicate Leafy(l: Layout, d: Value) {
    && Explicit(l, d) && Children(l, d) == []
    && KindOf(l, d).Some? && !KindOf(l, d).value.Nested?
  }

  lemma LeafFrom(l: Layout, d: Value)
    requires Explicit(l, d) && KindOf(l, d).Some? && !KindOf(l, d).value.Nested?
    ensures Leafy(l, d)
  {
    hide Explicit, KindOf, Children;
    KindHasChildren(l, d);
  }

  lemma ImageIsLeafy(l: Layout, hex: Hashes, i: nat)
    requires Holds(l, hex) && 0 < i <= 2
    ensures Leafy(l, ImageEntry(hex, i))
  {
    hide *;
    ImageKind(l, hex, i);
    ImageIsExplicit(l, hex, i);
    LeafFrom(l, ImageEntry(hex, i));
  }

  lemma AttestationsAreLeafy(l: Layout, hex: Hashes)
    requires Holds(l, hex)
    ensures Leafy(l, AttestationEntry(hex, 3, 1)) && Leafy(l, AttestationEntry(hex, 4, 2))
  {
    hide *;
    ListingKind(l, hex);
    ListingIsExplicit(l, hex);
    LeafFrom(l, AttestationEntry(hex, 3, 1));
    NamingKind(l, hex);
    NamingIsExplicit(l, hex);
    LeafFrom(l, AttestationEntry(hex, 4, 2));
  }

  /** Every entry of the index is explicit, and has nothing below it. */
  lemma EntryIsLeafy(l: Layout, hex: Hashes, k: nat)
    requires Holds(l, hex) && k < 4
    ensures k < |Entries(hex)| && Leafy(l, Entries(hex)[k])
  {
    FourEntriesAre(hex);
    hide *;
    EntriesAre(hex, k);
    ImageIsLeafy(l, hex, 1);
    ImageIsLeafy(l, hex, 2);
    AttestationsAreLeafy(l, hex);
  }

  lemma EntryIsExplicit(l: Layout, hex: Hashes, k: nat)
    requires Holds(l, hex) && k < 4
    ensures k < |Entries(hex)| && Explicit(l, Entries(hex)[k]) && Children(l, Entries(hex)[k]) == []
    ensures KindOf(l, Entries(hex)[k]).Some? && !KindOf(l, Entries(hex)[k]).value.Nested?
  {
    hide Holds, Explicit, Children, KindOf, Entries;
    EntryIsLeafy(l, hex, k);
  }

  /** Where the routes through the example lead. */
  lemma ExampleRoutes(l: Layout, hex: Hashes, r: seq<nat>)
    requires Holds(l, hex) && Route(l, Entries(hex), r)
    ensures |r| == 1 && r[0] < 4 && At(l, Entries(hex), r) == Entries(hex)[r[0]]
  {
    assert |Entries(hex)| == 4;
    hide Holds, Children, KindOf, Entries, Explicit;
    EntryIsExplicit(l, hex, r[0]);
  }

  lemma IndexIsExplicit(l: Layout, hex: Hashes)
    requires Holds(l, hex)
    ensures Explicit(l, Descriptor(hex, 0, INDEX)) && Children(l, Descriptor(hex, 0, INDEX)) == Entries(hex)
  {
    assert l.relaxed == l.strict;
    hide Holds, Children, KindOf, Entries, Descriptor, Digest, Named, Document, DescriptorOk, StrictDoc, PathOf,
         DigestOf,
         PlatformOf, MediaOf, Readable;
    IndexKind(l, hex);
    Described(l, hex, 0, INDEX);
    ReadBack(l, Descriptor(hex, 0, INDEX), Document(hex, l.version, l.commit, 0));
    KindHasChildren(l, Descriptor(hex, 0, INDEX));
  }

  lemma ExampleIsAllExplicit(l: Layout, hex: Hashes)
    requires Holds(l, hex)
    ensures AllExplicit(l, [Descriptor(hex, 0, INDEX)])
  {
    hide Holds, Children, KindOf, Entries, Descriptor, Explicit;
    IndexIsExplicit(l, hex);
    FourEntriesAre(hex);
    forall k | 0 <= k < |Entries(hex)| ensures Leafy(l, Entries(hex)[k]) {
      EntryIsLeafy(l, hex, k);
    }
    AllBelow(l, Descriptor(hex, 0, INDEX), Entries(hex));
  }

  lemma FourEntriesAre(hex: Hashes)
    ensures |Entries(hex)| == 4
  {
  }

  /** An explicit index over leaves is explicit throughout. */
  lemma AllBelow(l: Layout, root: Value, entries: seq<Value>)
    requires Explicit(l, root) && Children(l, root) == entries
    requires forall k | 0 <= k < |entries| :: Leafy(l, entries[k])
    ensures AllExplicit(l, [root])
  {
    hide Explicit, KindOf, Children;
    forall r | Route(l, [root], r) ensures Explicit(l, At(l, [root], r)) {
      if |r| > 1 {
        assert [root][0] == root;
        LeafRoute(l, entries, r[1..]);
      }
    }
  }

  /** Over leaves every route has one entry. */
  lemma LeafRoute(l: Layout, entries: seq<Value>, r: seq<nat>)
    requires Route(l, entries, r) && forall k | 0 <= k < |entries| :: Leafy(l, entries[k])
    ensures |r| == 1 && Leafy(l, At(l, entries, r)) && At(l, entries, r) == entries[r[0]]
  {
    assert Leafy(l, entries[r[0]]);
    hide Explicit, KindOf;
  }

  lemma ExampleRoot(l: Layout, hex: Hashes)
    requires Holds(l, hex)
    ensures RootReadable(l) && IsRedirect(l.strict["oci/index.json"])
    ensures PublishDigest(l, l.strict["oci/index.json"]) == Digest(hex, 0)
  {
    var root := Descriptor(hex, 0, INDEX);
    assert "oci/index.json" in l.files;
    hide Digests, HoldsFiles, Document, SchemaOk, ChildrenOf, Descriptor, KindOf, Digest, Entries, Named, DescriptorOk,
         StrictDoc, Readable, PathOf, IsIndexType;
    RootIndexSays(root);
    IndexKind(l, hex);
    IndexIsExplicit(l, hex);
    IndexMedia(l, hex);
    RedirectRoot(l, root);
  }

  lemma IndexMedia(l: Layout, hex: Hashes)
    requires Holds(l, hex)
    ensures IsIndexType(MediaOf(Descriptor(hex, 0, INDEX)))
  {
    hide Holds, Descriptor, IsIndexType, DescriptorOk, Document, StrictDoc;
    MediaTypes();
    Described(l, hex, 0, INDEX);
  }

  lemma RedirectRoot(l: Layout, root: Value)
    requires INDEX_FILE in l.relaxed && INDEX_FILE in l.files && LAYOUT_FILE in l.relaxed
    requires ChildrenOf(l.relaxed[INDEX_FILE]) == [root] && Readable(l, root)
    requires IsIndexType(MediaOf(root)) && PlatformOf(root) == Null
    ensures RootReadable(l) && IsRedirect(l.relaxed[INDEX_FILE])
    ensures PublishDigest(l, l.relaxed[INDEX_FILE]) == DigestOf(root)
  {
    hide ChildrenOf, IsIndexType, MediaOf, PlatformOf, DigestOf, Readable;
  }

  /** Main result: the registry summary of the example succeeds, and publishes its index of images. */
  lemma ExampleIsSummarized(l: Layout, hex: Hashes, stack: nat)
    requires Holds(l, hex) && stack >= 32
    ensures Summarize(l, stack).Done?
    ensures Summarize(l, stack).value.digest == Digest(hex, 0)
    ensures Summarize(l, stack).value.found.platforms == Platforms(hex)
  {
    assert l.relaxed == l.strict && OneCodec(l);
    hide Holds, Verify, Summarize, Explicit, KindOf, Entries, Descriptor, Digest, Platforms, Attestations, RootReadable,
         RootOk, IsRedirect, PublishDigest, FindingsOk, SelectedItems, CollectAll, OneCodec;
    ExampleIsAccepted(l, hex);
    ExampleIsAllExplicit(l, hex);
    RootsAre(l, hex);
    ExampleRoot(l, hex);
    SummarySucceedsExactly(l, stack);
    SummaryAgrees(l, stack);
    SummarizeUnfolds(l, stack);
  }

  /** Main result: a genuine registry that serves the published index as it is has the third walk
      find both images. */
  lemma ExampleIsPublished(l: Layout, hex: Hashes, reg: Registry)
    requires Holds(l, hex) && Genuine(l, reg)
    requires reg(Digest(hex, 0)) == Some(Fetched(hex[0], 0, Some(Document(hex, l.version, l.commit, 0))))
    ensures RegistryPlatforms(reg, Some(Document(hex, l.version, l.commit, 0)), 0) == Some(Platforms(hex))
  {
    assert l.relaxed == l.strict && OneCodec(l) && "sha256:" + hex[0] == Digest(hex, 0);
    assert |Entries(hex)| == 4;
    hide Holds, Verify, Summarize, KindOf, Entries, Descriptor, Digest, Platforms, Attestations, RootReadable, Document,
         RootOk, IsRedirect, PublishDigest, FindingsOk, CollectAll, OneCodec, Genuine, RegistryPlatforms, Children,
         Route,
         Explicit, Roots, SelectedItems;
    ExampleIsSummarized(l, hex, 32);
    ExampleIsAccepted(l, hex);
    SelectedEntries(l, hex);
    forall r | Route(l, Entries(hex), r) ensures |r| <= 5 && IndexServed(l, reg, At(l, Entries(hex), r)) {
      ExampleRoutes(l, hex, r);
      EntryIsExplicit(l, hex, r[0]);
    }
    PublicSucceedsExactly(l, reg, 32, Digest(hex, 0));
    PublicPlatformsAgree(l, reg, 32, Digest(hex, 0));
  }

  lemma SelectedEntries(l: Layout, hex: Hashes)
    requires Holds(l, hex)
    ensures SelectedItems(l) == Entries(hex)
  {
    assert "oci/index.json" in l.strict;
    hide Holds, Children, KindOf, Entries, Descriptor, IsRedirect, Explicit, RootOk, Roots, RootReadable, PublishDigest;
    ExampleRoot(l, hex);
    RootsAre(l, hex);
    IndexIsExplicit(l, hex);
  }
}
