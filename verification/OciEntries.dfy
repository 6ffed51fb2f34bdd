/** Which entries of an index the first walk accepts, condition by condition and in both
    directions, in the fields of the documents. */
module OciEntries {
  import opened Wrappers
  import opened Json
  import opened OciLayout
  import opened OciReach
  import opened OciExactly
  import opened OciMeaning

  predicate IndexMedia(m: Value) {
    || m == Str("application/vnd.oci.image.index.v1+json")
    || m == Str("application/vnd.docker.distribution.manifest.list.v2+json")
  }

  predicate ManifestMedia(m: Value) {
    || m == Str("application/vnd.oci.image.manifest.v1+json")
    || m == Str("application/vnd.docker.distribution.manifest.v2+json")
  }

  predicate ImageConfigMedia(m: Value) {
    || m == Str("application/vnd.oci.image.config.v1+json")
    || m == Str("application/vnd.docker.container.image.v1+json")
  }

  predicate EmptyConfigMedia(m: Value) {
    m == Str("application/vnd.oci.empty.v1+json")
  }

  predicate LayerMedia(m: Value) {
    || m == Str("application/vnd.oci.image.layer.v1.tar")
    || m == Str("application/vnd.oci.image.layer.v1.tar+gzip")
    || m == Str("application/vnd.oci.image.layer.v1.tar+zstd")
    || m == Str("application/vnd.docker.image.rootfs.diff.tar")
    || m == Str("application/vnd.docker.image.rootfs.diff.tar.gzip")
  }

  // ----- statements

  /** One of the subjects is the image with these hexadecimal digits. */
  predicate OneSubject(subjects: seq<Value>, hex: string) {
    exists i | 0 <= i < |subjects| :: Member(Member(subjects[i], "digest"), "sha256") == Str(hex)
  }

  /** A statement about the image with these hexadecimal digits; one without any subjects passes
      only when the attestation's manifest names the image. */
  predicate StatementFor(s: Fields, hex: string, named: bool) {
    && (|| Get(s, "_type") == Str("https://in-toto.io/Statement/v0.1")
        || Get(s, "_type") == Str("https://in-toto.io/Statement/v1"))
    && Get(s, "predicateType").Str?
    && Get(s, "subject").Arr?
    && (OneSubject(Get(s, "subject").items, hex) || (named && Get(s, "subject").items == []))
    && ContentFor(Get(s, "predicateType").s, Get(s, "predicate"))
  }

  lemma StatementIs(s: Fields, reference: string, bare: bool)
    requires |reference| >= 7
    ensures StatementOk(s, reference, bare) <==> StatementFor(s, reference[7..], !bare)
  {
    if Get(s, "predicateType").Str? && Get(s, "predicate").Obj? {
      ContentIs(Get(s, "predicateType").s, Get(s, "predicate").fields);
    }
    if Get(s, "subject").Arr? {
      SubjectsAre(Get(s, "subject").items, reference);
    }
    hide PredicateOk, Binds, OneSubject;
    NoContent(s);
  }

  lemma NoContent(s: Fields)
    ensures Get(s, "predicateType").Str? && !Get(s, "predicate").Obj? ==>
              !ContentFor(Get(s, "predicateType").s, Get(s, "predicate"))
  {
  }

  lemma SubjectsAre(subjects: seq<Value>, reference: string)
    requires |reference| >= 7
    ensures Binds(subjects, reference) <==> OneSubject(subjects, reference[7..])
    ensures OneSubject(subjects, reference[7..]) ==> subjects != []
  {
    if Binds(subjects, reference) {
      var i :| 0 <= i < |subjects| &&
        Get(FieldsOf(Get(FieldsOf(subjects[i]), "digest")), "sha256") == Str(HexOf(reference));
      assert Member(Member(subjects[i], "digest"), "sha256") == Str(reference[7..]);
    }
    if OneSubject(subjects, reference[7..]) {
      var i :| 0 <= i < |subjects| && Member(Member(subjects[i], "digest"), "sha256") == Str(reference[7..]);
      assert Get(FieldsOf(Get(FieldsOf(subjects[i]), "digest")), "sha256") == Str(HexOf(reference));
    }
  }

  // ----- descriptors and documents

  /** The descriptor names a local blob by digest and size and links nowhere else; an inline copy
      decodes to the blob. */
  predicate Sound(l: Layout, d: Value) {
    && Names(l, d, PathOf(d))
    && Get(d.fields, "mediaType").Str? && "urls" !in d.fields
    && ("data" in d.fields ==>
          && d.fields["data"].Str? && |d.fields["data"].s| <= 33554432
          && l.embedded(d.fields["data"].s) ==
             Some(OciLayout.Content(l.files[PathOf(d)].size, l.files[PathOf(d)].sha256)))
  }

  /** The named blob is this document. */
  predicate Holding(l: Layout, d: Value, doc: Fields) {
    Sound(l, d) && PathOf(d) in l.strict && l.strict[PathOf(d)] == doc
  }

  predicate Headed(l: Layout, d: Value, doc: Fields) {
    && Get(doc, "schemaVersion") == Int(2)
    && ("mediaType" in doc ==> doc["mediaType"] == Member(d, "mediaType"))
    && ("subject" in doc ==> Sound(l, doc["subject"]))
  }

  predicate SaysPlatform(p: Value, os: Value, architecture: Value) {
    p.Obj? && Get(p.fields, "os") == os && Get(p.fields, "architecture") == architecture
  }

  /** The config an attestation may use in place of an image's. */
  predicate StandIn(doc: Fields, d: Value, config: Fields) {
    && config == map[]
    && Get(doc, "artifactType") == Str("application/vnd.docker.attestation.manifest.v1+json")
    && SaysPlatform(Member(d, "platform"), Str("unknown"), Str("unknown"))
  }

  /** The platform a config of this media type stands for: its own fields, or, for the empty config
      of an attestation, unknown/unknown. */
  predicate ConfigFor(media: Value, d: Value, doc: Fields, config: Fields, os: Value, architecture: Value) {
    || (ImageConfigMedia(media) && os == Get(config, "os") && architecture == Get(config, "architecture"))
    || (EmptyConfigMedia(media) && StandIn(doc, d, config) && os == Str("unknown") && architecture == Str("unknown"))
  }

  /** The config of a manifest, and the platform it stands for. */
  predicate Configured(l: Layout, d: Value, doc: Fields, config: Fields, os: Value, architecture: Value) {
    && Holding(l, Get(doc, "config"), config)
    && ConfigFor(Member(Get(doc, "config"), "mediaType"), d, doc, config, os, architecture)
    && (Member(d, "platform") == Null || SaysPlatform(Member(d, "platform"), os, architecture))
    && Get(doc, "layers").Arr? && Get(doc, "layers").items != []
  }

  lemma SoundIs(l: Layout, d: Value)
    ensures Sound(l, d) <==> DescriptorOk(l, d)
  {
    hide Names, DescriptorOk;
    CheckedDescriptorIs(l, d);
  }

  lemma MediaIs(d: Value)
    requires Member(d, "mediaType").Str?
    ensures IndexMedia(Member(d, "mediaType")) <==> IsIndexType(MediaOf(d))
    ensures ManifestMedia(Member(d, "mediaType")) <==> IsManifestType(MediaOf(d))
    ensures ImageConfigMedia(Member(d, "mediaType")) || EmptyConfigMedia(Member(d, "mediaType")) <==>
            IsConfigType(MediaOf(d))
    ensures EmptyConfigMedia(Member(d, "mediaType")) <==> IsEmptyConfigType(MediaOf(d))
    ensures LayerMedia(Member(d, "mediaType")) <==> IsLayerType(MediaOf(d))
    ensures Member(d, "mediaType") == Str("application/vnd.in-toto+json") <==> IsStatementLayerType(MediaOf(d))
  {
  }

  lemma SoundHasMedia(l: Layout, d: Value)
    requires Sound(l, d)
    ensures d.Obj? && Member(d, "mediaType").Str? && Member(d, "mediaType") == Str(MediaOf(d))
  {
  }

  lemma HeadedIs(l: Layout, d: Value, doc: Fields)
    requires Sound(l, d)
    ensures Headed(l, d, doc) <==> HeaderOk(l, doc, d)
  {
    SoundHasMedia(l, d);
    hide Sound, DescriptorOk, MediaOf;
    if "subject" in doc {
      SoundIs(l, doc["subject"]);
    }
  }

  // ----- nested indexes

  /** Main result: an entry is a nested index exactly when it is a sound descriptor of an index
      document with entries. */
  lemma NestedExactly(l: Layout, d: Value, children: seq<Value>)
    ensures KindOf(l, d) == Some(Nested(children)) <==>
            && Sound(l, d) && PathOf(d) in l.strict && IndexMedia(Member(d, "mediaType"))
            && Headed(l, d, l.strict[PathOf(d)])
            && Get(l.strict[PathOf(d)], "manifests") == Arr(children) && children != []
  {
    hide Sound, DescriptorOk, IndexMedia, IsIndexType, IsManifestType, Headed, HeaderOk, ManifestKind;
    SoundIs(l, d);
    if Sound(l, d) {
      SoundHasMedia(l, d);
      MediaIs(d);
      if PathOf(d) in l.strict {
        HeadedIs(l, d, l.strict[PathOf(d)]);
      }
    }
  }

  // ----- manifests

  lemma ConfigOkIs(l: Layout, d: Value, doc: Fields, config: Fields)
    requires DescriptorOk(l, Get(doc, "config")) && StrictDoc(l, Get(doc, "config")) == Some(config)
    ensures ConfigOk(l, doc, d) <==>
            && IsConfigType(MediaOf(Get(doc, "config")))
            && (IsEmptyConfigType(MediaOf(Get(doc, "config"))) ==> StandIn(doc, d, config))
  {
    UnknownIs(d);
    hide DescriptorOk, StrictDoc, IsConfigType, IsEmptyConfigType, MediaOf, IsUnknownPlatform, SaysPlatform, PlatformOf,
         Member, Get;
  }

  lemma UnknownIs(d: Value)
    ensures IsUnknownPlatform(PlatformOf(d)) <==> SaysPlatform(Member(d, "platform"), Str("unknown"), Str("unknown"))
  {
  }

  lemma ConfigPlatformIs(l: Layout, doc: Fields, config: Fields)
    requires StrictDoc(l, Get(doc, "config")) == Some(config)
    ensures ConfigPlatform(l, doc) ==
            Some(if IsEmptyConfigType(MediaOf(Get(doc, "config"))) then (Str("unknown"), Str("unknown"))
                 else (Get(config, "os"), Get(config, "architecture")))
  {
    hide StrictDoc, IsEmptyConfigType, MediaOf, Get;
  }

  lemma ConfigMedia(l: Layout, c: Value)
    requires Sound(l, c)
    ensures ImageConfigMedia(Member(c, "mediaType")) <==>
            IsConfigType(MediaOf(c)) && !IsEmptyConfigType(MediaOf(c))
    ensures EmptyConfigMedia(Member(c, "mediaType")) <==> IsEmptyConfigType(MediaOf(c))
    ensures IsEmptyConfigType(MediaOf(c)) ==> IsConfigType(MediaOf(c))
  {
    SoundHasMedia(l, c);
    MediaIs(c);
    NotBothConfigs(Member(c, "mediaType"));
    hide *;
  }

  /** The rules for a config descriptor, once its blob is known. */
  lemma ConfigRules(l: Layout, d: Value, doc: Fields, config: Fields, os: Value, architecture: Value)
    requires Holding(l, Get(doc, "config"), config)
    ensures ConfigOk(l, doc, d) && ConfigPlatform(l, doc) == Some((os, architecture)) <==>
            ConfigFor(Member(Get(doc, "config"), "mediaType"), d, doc, config, os, architecture)
  {
    var c := Get(doc, "config");
    HoldingIs(l, c, config);
    ConfigMedia(l, c);
    ConfigOkIs(l, d, doc, config);
    ConfigPlatformIs(l, doc, config);
    ConfigForIs(Member(c, "mediaType"), d, doc, config, os, architecture);
    hide *;
  }

  lemma ConfigForIs(media: Value, d: Value, doc: Fields, config: Fields, os: Value, architecture: Value)
    ensures ConfigFor(media, d, doc, config, os, architecture) <==>
            || (ImageConfigMedia(media) && (os, architecture) == (Get(config, "os"), Get(config, "architecture")))
            || (&& EmptyConfigMedia(media) && StandIn(doc, d, config)
                && (os, architecture) == (Str("unknown"), Str("unknown")))
  {
    hide ImageConfigMedia, EmptyConfigMedia, StandIn, Get;
  }

  lemma HoldingIs(l: Layout, d: Value, doc: Fields)
    ensures Holding(l, d, doc) ==> Sound(l, d)
    ensures Holding(l, d, doc) <==> DescriptorOk(l, d) && StrictDoc(l, d) == Some(doc)
  {
    SoundIs(l, d);
    hide Sound, DescriptorOk;
  }

  lemma ConfiguredIs(l: Layout, d: Value, doc: Fields, os: Value, architecture: Value)
    requires d.Obj?
    ensures && ConfigOk(l, doc, d) && ConfigPlatform(l, doc) == Some((os, architecture)) && LayersOf(doc) != []
            && (PlatformOf(d) == Null || IsPlatform(PlatformOf(d), os, architecture)) <==>
            exists config :: Configured(l, d, doc, config, os, architecture)
  {
    var c := Get(doc, "config");
    PlatformIs(d, os, architecture);
    LayersAre(doc);
    if StrictDoc(l, c).Some? && DescriptorOk(l, c) {
      var config := StrictDoc(l, c).value;
      HoldingIs(l, c, config);
      ConfigRules(l, d, doc, config, os, architecture);
      ConfiguredHolds(l, d, doc, config, os, architecture);
    }
    forall config | Configured(l, d, doc, config, os, architecture)
      ensures DescriptorOk(l, c) && StrictDoc(l, c) == Some(config)
    {
      ConfiguredHolds(l, d, doc, config, os, architecture);
      HoldingIs(l, c, config);
      hide Holding, DescriptorOk, ConfigFor;
    }
    ConfigOkNeeds(l, d, doc);
    hide *;
  }

  lemma ConfigOkNeeds(l: Layout, d: Value, doc: Fields)
    ensures ConfigOk(l, doc, d) ==> DescriptorOk(l, Get(doc, "config")) && StrictDoc(l, Get(doc, "config")).Some?
  {
    hide DescriptorOk, IsConfigType, IsEmptyConfigType, IsUnknownPlatform;
  }

  lemma ConfiguredHolds(l: Layout, d: Value, doc: Fields, config: Fields, os: Value, architecture: Value)
    ensures Configured(l, d, doc, config, os, architecture) <==>
            && Holding(l, Get(doc, "config"), config)
            && ConfigFor(Member(Get(doc, "config"), "mediaType"), d, doc, config, os, architecture)
            && (Member(d, "platform") == Null || SaysPlatform(Member(d, "platform"), os, architecture))
            && Get(doc, "layers").Arr? && Get(doc, "layers").items != []
  {
    hide Holding, ConfigFor, SaysPlatform, Member, Get;
  }

  lemma PlatformIs(d: Value, os: Value, architecture: Value)
    requires d.Obj?
    ensures Member(d, "platform") == PlatformOf(d)
    ensures SaysPlatform(Member(d, "platform"), os, architecture) <==> IsPlatform(PlatformOf(d), os, architecture)
  {
  }

  lemma LayersAre(doc: Fields)
    ensures LayersOf(doc) != [] <==> Get(doc, "layers").Arr? && Get(doc, "layers").items != []
  {
  }

  lemma NotBothConfigs(m: Value)
    ensures !(ImageConfigMedia(m) && EmptyConfigMedia(m))
  {
    var a, b := "application/vnd.oci.image.config.v1+json", "application/vnd.docker.container.image.v1+json";
    var c := "application/vnd.oci.empty.v1+json";
    assert |a| == 40 && |b| == 46 && |c| == 33;
  }

  /** The checks before a manifest is taken for an image or an attestation. */
  ghost predicate ManifestOf(l: Layout, d: Value, os: Value, architecture: Value) {
    && Sound(l, d) && PathOf(d) in l.strict && ManifestMedia(Member(d, "mediaType"))
    && Headed(l, d, l.strict[PathOf(d)])
    && exists config :: Configured(l, d, l.strict[PathOf(d)], config, os, architecture)
  }

  lemma ManifestOfIs(l: Layout, d: Value, os: Value, architecture: Value)
    requires ManifestOf(l, d, os, architecture)
    ensures PathOf(d) in l.strict
    ensures var doc := l.strict[PathOf(d)];
            KindOf(l, d) == if IsAttestation((os, architecture)) then AttestationKind(l, doc, d)
                            else RunnableKind(l, doc, (os, architecture))
  {
    var doc := l.strict[PathOf(d)];
    SoundIs(l, d);
    SoundHasMedia(l, d);
    MediaIs(d);
    TypesDisjoint(MediaOf(d));
    HeadedIs(l, d, doc);
    ConfiguredIs(l, d, doc, os, architecture);
    KindOfManifest(l, d, doc);
    ManifestKindIs(l, d, doc, os, architecture);
    hide Sound, DescriptorOk, ManifestMedia, IndexMedia, ImageConfigMedia, EmptyConfigMedia, LayerMedia, IsIndexType,
         IsManifestType, IsConfigType, IsEmptyConfigType, IsLayerType, IsStatementLayerType, Headed, HeaderOk,
         Configured, ConfigOk, ConfigPlatform, IsPlatform, LayersOf, IsAttestation, AttestationKind, RunnableKind,
         KindOf, ManifestKind;
  }

  lemma KindOfManifest(l: Layout, d: Value, doc: Fields)
    requires DescriptorOk(l, d) && PathOf(d) in l.strict && l.strict[PathOf(d)] == doc
    requires HeaderOk(l, doc, d) && IsManifestType(MediaOf(d)) && !IsIndexType(MediaOf(d))
    ensures KindOf(l, d) == ManifestKind(l, doc, d)
  {
    hide DescriptorOk, HeaderOk, IsManifestType, IsIndexType, ManifestKind;
  }

  lemma ManifestKindIs(l: Layout, d: Value, doc: Fields, os: Value, architecture: Value)
    requires ConfigOk(l, doc, d) && ConfigPlatform(l, doc) == Some((os, architecture)) && LayersOf(doc) != []
    requires PlatformOf(d) == Null || IsPlatform(PlatformOf(d), os, architecture)
    ensures ManifestKind(l, doc, d) ==
            if IsAttestation((os, architecture)) then AttestationKind(l, doc, d)
            else RunnableKind(l, doc, (os, architecture))
  {
    hide ConfigOk, ConfigPlatform, LayersOf, PlatformOf, IsPlatform, IsAttestation, AttestationKind, RunnableKind;
  }

  lemma ManifestIsManifestOf(l: Layout, d: Value)
    requires KindOf(l, d).Some? && !KindOf(l, d).value.Nested?
    ensures PathOf(d) in l.strict && ConfigPlatform(l, l.strict[PathOf(d)]).Some?
    ensures var p := ConfigPlatform(l, l.strict[PathOf(d)]).value; ManifestOf(l, d, p.0, p.1)
  {
    SoundIs(l, d);
    KindIsDescribed(l, d);
    SoundHasMedia(l, d);
    MediaIs(d);
    ManifestParts(l, d);
    var doc := l.strict[PathOf(d)];
    HeadedIs(l, d, doc);
    ConfiguredIs(l, d, doc, ConfigPlatform(l, doc).value.0, ConfigPlatform(l, doc).value.1);
    hide Sound, DescriptorOk, ManifestMedia, IsManifestType, Headed, HeaderOk, KindOf, Configured, ConfigOk,
         ConfigPlatform, IsPlatform, LayersOf;
  }

  lemma ManifestParts(l: Layout, d: Value)
    requires KindOf(l, d).Some? && !KindOf(l, d).value.Nested?
    ensures PathOf(d) in l.strict && IsManifestType(MediaOf(d)) && HeaderOk(l, l.strict[PathOf(d)], d)
    ensures var doc := l.strict[PathOf(d)];
            && ConfigOk(l, doc, d) && ConfigPlatform(l, doc).Some? && LayersOf(doc) != []
            && var p := ConfigPlatform(l, doc).value; PlatformOf(d) == Null || IsPlatform(PlatformOf(d), p.0, p.1)
  {
    hide DescriptorOk, IsIndexType, IsManifestType, HeaderOk, AttestationKind, RunnableKind, ConfigOk, ConfigPlatform,
         IsPlatform, LayersOf, IsAttestation;
  }

  // ----- images

  /** What makes a manifest an image for an architecture. */
  predicate ImageOf(l: Layout, doc: Fields, config: Fields) {
    && "subject" !in doc && "artifactType" !in doc
    && (var labels := Member(Get(config, "config"), "Labels");
        && labels.Obj?
        && Member(labels, "org.opencontainers.image.version") == Str(l.version)
        && Member(labels, "org.opencontainers.image.revision") == Str(l.commit))
    && Get(doc, "layers").Arr?
    && forall i | 0 <= i < |Get(doc, "layers").items| ::
         Sound(l, Get(doc, "layers").items[i]) && LayerMedia(Member(Get(doc, "layers").items[i], "mediaType"))
  }

  lemma ImageOfIs(l: Layout, doc: Fields, config: Fields, architecture: string)
    requires architecture in {"amd64", "arm64"} && StrictDoc(l, Get(doc, "config")) == Some(config)
    requires Get(doc, "layers").Arr?
    ensures RunnableKind(l, doc, (Str("linux"), Str(architecture))) == Some(Runnable("linux/" + architecture)) <==>
            ImageOf(l, doc, config)
  {
    LinuxNameIs(Str("linux"), Str(architecture));
    var layers := LayersOf(doc);
    forall i | 0 <= i < |layers|
      ensures (DescriptorOk(l, layers[i]) && IsLayerType(MediaOf(layers[i]))) <==>
              (Sound(l, layers[i]) && LayerMedia(Member(layers[i], "mediaType")))
    {
      LayerIs(l, layers[i]);
    }
    hide DescriptorOk, Sound, IsLayerType, LayerMedia, LinuxName, MediaOf;
  }

  lemma LayerIs(l: Layout, layer: Value)
    ensures (DescriptorOk(l, layer) && IsLayerType(MediaOf(layer))) <==>
            (Sound(l, layer) && LayerMedia(Member(layer, "mediaType")))
    ensures (DescriptorOk(l, layer) && IsStatementLayerType(MediaOf(layer))) <==>
            (Sound(l, layer) && Member(layer, "mediaType") == Str("application/vnd.in-toto+json"))
    ensures (DescriptorOk(l, layer) && IsManifestType(MediaOf(layer))) <==>
            (Sound(l, layer) && ManifestMedia(Member(layer, "mediaType")))
  {
    SoundIs(l, layer);
    if Sound(l, layer) {
      SoundHasMedia(l, layer);
      MediaIs(layer);
    }
    hide Sound, DescriptorOk, MediaOf, IsLayerType, IsStatementLayerType, IsManifestType, LayerMedia, ManifestMedia;
  }

  /** Main result: an entry is a runnable image exactly when it is a sound descriptor of a manifest
      whose config is for linux on that architecture and carries the release's labels, that is no
      attestation artifact, and whose layers are all sound tar layers. */
  lemma RunnableExactly(l: Layout, d: Value, architecture: string)
    requires architecture in {"amd64", "arm64"}
    ensures KindOf(l, d) == Some(Runnable("linux/" + architecture)) <==>
            && ManifestOf(l, d, Str("linux"), Str(architecture))
            && exists config :: Holding(l, Get(l.strict[PathOf(d)], "config"), config) &&
                                ImageOf(l, l.strict[PathOf(d)], config)
  {
    hide KindOf, ManifestOf, ImageOf, Sound, RunnableKind, AttestationKind, ConfigPlatform;
    NotUnknown(architecture);
    if ManifestOf(l, d, Str("linux"), Str(architecture)) {
      ManifestOfIs(l, d, Str("linux"), Str(architecture));
      var config := ConfigHeld(l, d, Str("linux"), Str(architecture));
      ImageOfIs(l, l.strict[PathOf(d)], config, architecture);
    }
    if KindOf(l, d) == Some(Runnable("linux/" + architecture)) {
      ManifestIsManifestOf(l, d);
      var p := ConfigPlatform(l, l.strict[PathOf(d)]).value;
      ManifestOfIs(l, d, p.0, p.1);
      RunnableFor(l, l.strict[PathOf(d)], p, architecture);
    }
  }

  lemma NotUnknown(architecture: string)
    ensures !IsAttestation((Str("linux"), Str(architecture)))
  {
    assert "linux"[0] != "unknown"[0];
  }

  lemma ConfigHeld(l: Layout, d: Value, os: Value, architecture: Value) returns (config: Fields)
    requires ManifestOf(l, d, os, architecture)
    ensures Holding(l, Get(l.strict[PathOf(d)], "config"), config)
    ensures StrictDoc(l, Get(l.strict[PathOf(d)], "config")) == Some(config) && Get(l.strict[PathOf(d)], "layers").Arr?
    ensures forall other :: Holding(l, Get(l.strict[PathOf(d)], "config"), other) ==> other == config
  {
    hide Sound, Headed, ImageConfigMedia, EmptyConfigMedia, SaysPlatform;
    config :| Configured(l, d, l.strict[PathOf(d)], config, os, architecture);
  }

  lemma RunnableFor(l: Layout, doc: Fields, p: (Value, Value), architecture: string)
    requires architecture in {"amd64", "arm64"}
    requires !IsAttestation(p) ==> RunnableKind(l, doc, p) == Some(Runnable("linux/" + architecture))
    ensures !IsAttestation(p) ==> p == (Str("linux"), Str(architecture))
  {
    LinuxNameIs(p.0, p.1);
    hide LinuxName, LabelsOk, RunnableLayersOk, IsAttestation;
    assert forall a: string :: ("linux/" + a)[6..] == a;
  }

  // ----- attestations

  /** A layer holding one statement about the image with these hexadecimal digits. */
  predicate StatementLayer(l: Layout, layer: Value, hex: string, named: bool) {
    && Sound(l, layer) && Member(layer, "mediaType") == Str("application/vnd.in-toto+json")
    && PathOf(layer) in l.strict && StatementFor(l.strict[PathOf(layer)], hex, named)
  }

  /** The descriptor says that it attests the image of this digest. */
  predicate Points(d: Value, reference: string) {
    && Member(Member(d, "annotations"), "vnd.docker.reference.type") == Str("attestation-manifest")
    && Member(Member(d, "annotations"), "vnd.docker.reference.digest") == Str(reference)
    && |reference| == 71 && reference[..7] == "sha256:" && LowerHex(reference[7..])
  }

  /** What makes a manifest an attestation of the image of this digest, recording these types. */
  predicate AttestationOf(l: Layout, d: Value, doc: Fields, reference: string, predicates: set<string>) {
    && Points(d, reference)
    && (Get(doc, "subject") != Null ==>
          && Sound(l, doc["subject"]) && Member(doc["subject"], "digest") == Str(reference)
          && ManifestMedia(Member(doc["subject"], "mediaType")))
    && (forall i | 0 <= i < |LayersOf(doc)| ::
          StatementLayer(l, LayersOf(doc)[i], reference[7..], Get(doc, "subject") != Null))
    && predicates == Recorded(l, LayersOf(doc))
  }

  /** The predicate types the layers' documents give. */
  function Recorded(l: Layout, layers: seq<Value>): set<string> {
    set i | && 0 <= i < |layers| && PathOf(layers[i]) in l.strict
            && Get(l.strict[PathOf(layers[i])], "predicateType").Str? ::
      Get(l.strict[PathOf(layers[i])], "predicateType").s
  }

  lemma PointsIs(d: Value, reference: string)
    ensures Points(d, reference) <==>
            && Get(FieldsOf(Get(FieldsOf(d), "annotations")), "vnd.docker.reference.type")
               == Str("attestation-manifest")
            && ReferenceOf(d) == Str(reference) && IsDigest(reference)
  {
    if |reference| == 71 {
      HexIsLower(reference[7..]);
    }
    hide LowerHex, IsHex;
  }

  lemma StatementLayerIs(l: Layout, layer: Value, reference: string, bare: bool)
    requires |reference| >= 7
    ensures StatementLayerOk(l, layer, reference, bare) <==> StatementLayer(l, layer, reference[7..], !bare)
  {
    LayerIs(l, layer);
    if PathOf(layer) in l.strict {
      StatementIs(l.strict[PathOf(layer)], reference, bare);
    }
    hide Sound, DescriptorOk, IsStatementLayerType, StatementOk, StatementFor, Member, MediaOf;
  }

  lemma ManifestSubjectIs(l: Layout, subject: Value, reference: string)
    ensures DescriptorOk(l, subject) && DigestOf(subject) == reference && IsManifestType(MediaOf(subject)) <==>
            && Sound(l, subject) && Member(subject, "digest") == Str(reference)
            && ManifestMedia(Member(subject, "mediaType"))
  {
    LayerIs(l, subject);
    SoundIs(l, subject);
    DigestIs(l, subject);
    hide Sound, DescriptorOk, IsManifestType, ManifestMedia;
  }

  lemma DigestIs(l: Layout, d: Value)
    ensures DescriptorOk(l, d) ==> Member(d, "digest") == Str(DigestOf(d))
  {
  }

  lemma RecordedIs(l: Layout, layers: seq<Value>, hex: string, named: bool)
    requires forall i | 0 <= i < |layers| :: StatementLayer(l, layers[i], hex, named)
    ensures PredicateTypes(l, layers) == Recorded(l, layers)
  {
    forall i | 0 <= i < |layers|
      ensures PathOf(layers[i]) in l.strict && Get(l.strict[PathOf(layers[i])], "predicateType").Str?
    {
      assert StatementLayer(l, layers[i], hex, named);
      hide Sound, OneSubject, ContentFor;
    }
    hide StatementLayer;
  }

  lemma AttestationOfIs(l: Layout, d: Value, doc: Fields, reference: string, predicates: set<string>)
    ensures AttestationKind(l, doc, d) == Some(Attests(reference, predicates)) <==>
            AttestationOf(l, d, doc, reference, predicates)
  {
    PointsIs(d, reference);
    if Points(d, reference) {
      var bare := Get(doc, "subject") == Null;
      ManifestSubjectIs(l, Get(doc, "subject"), reference);
      var layers := LayersOf(doc);
      forall i | 0 <= i < |layers|
        ensures StatementLayerOk(l, layers[i], reference, bare) <==> StatementLayer(l, layers[i], reference[7..], !bare)
      {
        StatementLayerIs(l, layers[i], reference, bare);
      }
      if forall i | 0 <= i < |layers| :: StatementLayer(l, layers[i], reference[7..], !bare) {
        RecordedIs(l, layers, reference[7..], !bare);
      }
      hide Points, Sound, DescriptorOk, ManifestMedia, IsManifestType, StatementLayerOk, StatementLayer, PredicateTypes,
           Recorded, LayersOf, Member, MediaOf, DigestOf;
    } else {
      hide Points, Sound, StatementLayerOk, StatementLayer, PredicateTypes, Recorded, IsDigest;
    }
  }

  /** Main result: an entry is an attestation of an image exactly when it is a sound descriptor of
      an unknown/unknown manifest that is annotated with the image's digest, whose subject, if any,
      is a manifest of that digest, and whose layers are all sound statements about it. */
  lemma AttestsExactly(l: Layout, d: Value, reference: string, predicates: set<string>)
    ensures KindOf(l, d) == Some(Attests(reference, predicates)) <==>
            && ManifestOf(l, d, Str("unknown"), Str("unknown"))
            && AttestationOf(l, d, l.strict[PathOf(d)], reference, predicates)
  {
    hide KindOf, ManifestOf, AttestationOf, RunnableKind, AttestationKind, ConfigPlatform;
    if ManifestOf(l, d, Str("unknown"), Str("unknown")) {
      ManifestOfIs(l, d, Str("unknown"), Str("unknown"));
      AttestationOfIs(l, d, l.strict[PathOf(d)], reference, predicates);
    }
    if KindOf(l, d) == Some(Attests(reference, predicates)) {
      ManifestIsManifestOf(l, d);
      var p := ConfigPlatform(l, l.strict[PathOf(d)]).value;
      ManifestOfIs(l, d, p.0, p.1);
      OnlyUnknownAttests(l, l.strict[PathOf(d)], p, reference, predicates);
    }
  }

  lemma OnlyUnknownAttests(l: Layout, doc: Fields, p: (Value, Value), reference: string, predicates: set<string>)
    requires !IsAttestation(p) ==> RunnableKind(l, doc, p) == Some(Attests(reference, predicates))
    ensures p == (Str("unknown"), Str("unknown"))
  {
  }
}
