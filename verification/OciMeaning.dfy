/** What an accepted OCI layout says, in the fields of its documents: blobs are stored under their
    own digests, images are for the platform and release they claim, and every recorded predicate
    is a statement about the image it is recorded for. */
module OciMeaning {
  import opened Wrappers
  import opened Json
  import opened OciLayout
  import opened OciVerify
  import opened OciReach
  import opened OciExactly

  const BLOBS := "oci/blobs/sha256/"

  predicate LowerHex(s: string) {
    |s| == 64 && forall i | 0 <= i < 64 :: s[i] in "0123456789abcdef"
  }

  /** The blob at this path is the one the descriptor names, by digest and size. */
  predicate Names(l: Layout, d: Value, path: string) {
    && d.Obj?
    && Get(d.fields, "digest").Str?
    && path in l.files
    && LowerHex(l.files[path].sha256)
    && Get(d.fields, "digest").s == "sha256:" + l.files[path].sha256
    && path == BLOBS + l.files[path].sha256
    && Get(d.fields, "size") == Int(l.files[path].size)
  }

  lemma HexIsLower(s: string)
    requires |s| == 64
    ensures LowerHex(s) <==> IsHex(s)
  {
    forall i | 0 <= i < 64 ensures s[i] in "0123456789abcdef" <==> '0' <= s[i] <= '9' || 'a' <= s[i] <= 'f' {
      HexChar(s[i]);
    }
  }

  lemma HexChar(c: char)
    ensures c in "0123456789abcdef" <==> '0' <= c <= '9' || 'a' <= c <= 'f'
  {
    var all := "0123456789abcdef";
    assert forall i | 0 <= i < 16 :: '0' <= all[i] <= '9' || 'a' <= all[i] <= 'f';
    if '0' <= c <= '9' {
      assert all[c as int - '0' as int] == c;
    } else if 'a' <= c <= 'f' {
      assert all[c as int - 'a' as int + 10] == c;
    }
  }

  /** A checked descriptor names a blob, carries a media type, links nowhere else, and any inline
      copy of the blob decodes to exactly its bytes. */
  lemma CheckedDescriptorIs(l: Layout, d: Value)
    ensures DescriptorOk(l, d) <==>
            && Names(l, d, PathOf(d))
            && Get(d.fields, "mediaType").Str? && "urls" !in d.fields
            && ("data" in d.fields ==>
                  && d.fields["data"].Str? && |d.fields["data"].s| <= 33554432
                  && l.embedded(d.fields["data"].s) ==
                     Some(Content(l.files[PathOf(d)].size, l.files[PathOf(d)].sha256)))
  {
    hide LowerHex, IsHex;
    if d.Obj? && Get(d.fields, "digest").Str? {
      var digest := DigestOf(d);
      if |digest| == 71 {
        HexIsLower(digest[7..]);
        assert digest == digest[..7] + digest[7..];
      }
      if PathOf(d) in l.files && Names(l, d, PathOf(d)) {
        var hex := l.files[PathOf(d)].sha256;
        assert ("sha256:" + hex)[..7] == "sha256:" && ("sha256:" + hex)[7..] == hex;
        NamedHexLength(l, d);
      }
    }
  }

  lemma NamedHexLength(l: Layout, d: Value)
    requires Names(l, d, PathOf(d))
    ensures |l.files[PathOf(d)].sha256| == 64 && |DigestOf(d)| == 71
  {
  }

  // ----- every named descriptor is checked

  lemma NamedAreChecked(l: Layout, d: Value, i: nat)
    requires KindOf(l, d).Some? && i < |Named(l, d)|
    ensures DescriptorOk(l, Named(l, d)[i])
  {
    hide DescriptorOk, ConfigPlatform, ManifestNames, ManifestKind, IsIndexType, IsManifestType, IsConfigType;
    TypesDisjoint(MediaOf(d));
    var doc := StrictDoc(l, d).value;
    var header := [d] + Subject(doc);
    if i < |header| {
      assert Named(l, d)[i] == header[i];
    } else {
      assert !IsIndexType(MediaOf(d));
      assert Named(l, d)[i] == ManifestNames(l, doc)[i - |header|];
      ManifestNamesAreChecked(l, doc, d, i - |header|);
    }
  }

  lemma ManifestNamesAreChecked(l: Layout, doc: Fields, d: Value, i: nat)
    requires ManifestKind(l, doc, d).Some? && i < |ManifestNames(l, doc)|
    ensures DescriptorOk(l, ManifestNames(l, doc)[i])
  {
    hide DescriptorOk, LinuxName, LabelsOk, IsPlatform, StatementOk, IsStatementLayerType, IsLayerType, IsManifestType;
    if i > 0 {
      var platform := ConfigPlatform(l, doc).value;
      if IsAttestation(platform) {
        AttestationNamesAreChecked(l, doc, d, i - 1);
      } else {
        assert ManifestNames(l, doc)[i] == LayersOf(doc)[i - 1];
      }
    }
  }

  lemma AttestationNamesAreChecked(l: Layout, doc: Fields, d: Value, i: nat)
    requires AttestationKind(l, doc, d).Some? && i < |AttestationNames(doc)|
    ensures DescriptorOk(l, AttestationNames(doc)[i])
  {
    hide DescriptorOk, StatementOk, IsStatementLayerType, IsManifestType, PredicateTypes;
    var subject := Get(doc, "subject");
    var k := if subject == Null then i else i - 1;
    if k >= 0 {
      assert AttestationNames(doc)[i] == LayersOf(doc)[k];
      assert StatementLayerOk(l, LayersOf(doc)[k], ReferenceOf(d).s, subject == Null);
    }
  }

  /** Main result: in an accepted layout every blob is stored under the SHA-256 of its own bytes. */
  lemma BlobsAreContentAddressed(l: Layout, p: string)
    requires Verify(l).Some? && p in BlobsPresent(l)
    ensures p in l.files && LowerHex(l.files[p].sha256) && p == BLOBS + l.files[p].sha256
  {
    hide Nodes, Named, Children, KindOf, BlobsPresent, FindingsOk, RootOk, Roots, DescriptorOk, LowerHex;
    BlobsAreReached(l);
    var r := UsedRoute(l, START, Roots(l), 0, p);
    RouteAccounted(l, START, Roots(l), 0, r);
    var d := At(l, Roots(l), r);
    var i: nat :| i < |Named(l, d)| && PathOf(Named(l, d)[i]) == p;
    NamedAreChecked(l, d, i);
    CheckedDescriptorIs(l, Named(l, d)[i]);
  }

  // ----- statements

  function Member(v: Value, key: string): Value {
    Get(FieldsOf(v), key)
  }

  /** One of the subjects is the image with this digest. */
  predicate SubjectIs(subjects: Value, reference: string) {
    subjects.Arr? && exists i | 0 <= i < |subjects.items| ::
      var sha := Member(Member(subjects.items[i], "digest"), "sha256");
      sha.Str? && "sha256:" + sha.s == reference
  }

  /** The statement is about the image: it lists it, or it lists nothing and the attestation's own
      manifest names it. */
  predicate IsAbout(statement: Fields, manifest: Fields, reference: string) {
    var subjects := Get(statement, "subject");
    || SubjectIs(subjects, reference)
    || (subjects == Arr([]) && Member(Get(manifest, "subject"), "digest") == Str(reference))
  }

  predicate SomeItems(v: Value) {
    v.Arr? && v.items != []
  }

  /** Python's white space. */
  const WHITE: seq<int> :=
    [9, 10, 11, 12, 13, 28, 29, 30, 31, 32, 133, 160, 5760,
     8192, 8193, 8194, 8195, 8196, 8197, 8198, 8199, 8200, 8201, 8202, 8232, 8233, 8239, 8287, 12288]

  predicate SaysSomething(v: Value) {
    v.Str? && exists i | 0 <= i < |v.s| :: v.s[i] as int !in WHITE
  }

  lemma WhiteIsSpace(c: char)
    ensures c as int in WHITE <==> IsSpace(c)
  {
    if c as int in WHITE {
      var i :| 0 <= i < |WHITE| && WHITE[i] == c as int;
    }
    if IsSpace(c) {
      FindWhite(c as int);
    }
  }

  lemma FindWhite(n: int)
    requires || 9 <= n <= 13 || 28 <= n <= 32 || n == 133 || n == 160 || n == 5760
             || 8192 <= n <= 8202 || n == 8232 || n == 8233 || n == 8239 || n == 8287 || n == 12288
    ensures n in WHITE
  {
    if 9 <= n <= 13 {
      assert WHITE[n - 9] == n;
    } else if 28 <= n <= 32 {
      assert WHITE[n - 23] == n;
    } else if 8192 <= n <= 8202 {
      assert WHITE[n - 8179] == n;
    } else {
      assert WHITE[10] == 133 && WHITE[11] == 160 && WHITE[12] == 5760 && WHITE[24] == 8232 && WHITE[25] == 8233;
      assert WHITE[26] == 8239 && WHITE[27] == 8287 && WHITE[28] == 12288;
    }
  }

  lemma SaysSomethingIs(v: Value)
    ensures SaysSomething(v) <==> NonBlank(v)
    ensures SaysSomething(v) ==> v.Str?
  {
    if v.Str? {
      forall i | 0 <= i < |v.s| ensures v.s[i] as int in WHITE <==> IsSpace(v.s[i]) {
        WhiteIsSpace(v.s[i]);
      }
    }
    hide IsSpace;
  }

  /** What a predicate must contain, by its type. */
  predicate ContentFor(kind: string, p: Value) {
    && p.Obj? && p.fields != map[]
    && (kind == "https://spdx.dev/Document" ==>
          SomeItems(Member(p, "packages")) &&
          var version := Member(p, "spdxVersion");
          version.Str? && |version.s| >= 5 && version.s[..5] == "SPDX-")
    && (kind == "https://cyclonedx.org/bom" ==>
          Member(p, "bomFormat") == Str("CycloneDX") && SomeItems(Member(p, "components")))
    && (kind == "https://slsa.dev/provenance/v0.2" ==>
          SaysSomething(Member(p, "buildType")) && SaysSomething(Member(Member(p, "builder"), "id")))
    && (kind == "https://slsa.dev/provenance/v1" ==>
          && Member(p, "buildDefinition").Obj? && Member(p, "runDetails").Obj?
          && SaysSomething(Member(Member(p, "buildDefinition"), "buildType"))
          && Member(Member(Member(p, "runDetails"), "builder"), "id").Str?)
  }

  lemma ContentIs(kind: string, p: Fields)
    ensures ContentFor(kind, Obj(p)) <==> PredicateOk(kind, p)
  {
    SaysSomethingIs(Get(p, "buildType"));
    SaysSomethingIs(Get(FieldsOf(Get(p, "builder")), "id"));
    SaysSomethingIs(Get(FieldsOf(Get(p, "buildDefinition")), "buildType"));
    SomethingInside(Get(p, "buildDefinition"), "buildType");
    SomethingInside(Get(p, "runDetails"), "builder");
    NothingOfNull("id");
    hide NonBlank, SaysSomething;
  }

  /** An object with a member is not empty. */
  lemma SomethingInside(v: Value, key: string)
    ensures v.Obj? && Get(v.fields, key) != Null ==> v.fields != map[]
  {
  }

  lemma NothingOfNull(key: string)
    ensures Get(FieldsOf(Null), key) == Null
  {
  }

  /** The manifest at `q` lists a layer stored at `s`, an in-toto statement of this type about the
      referenced image. */
  predicate Attested(l: Layout, q: string, s: string, i: nat, reference: string, p: string) {
    && q in l.strict && s in l.strict
    && (var layers := Get(l.strict[q], "layers");
        && layers.Arr? && i < |layers.items| && Names(l, layers.items[i], s)
        && Member(layers.items[i], "mediaType") == Str("application/vnd.in-toto+json"))
    && var statement := l.strict[s];
       && (|| Get(statement, "_type") == Str("https://in-toto.io/Statement/v0.1")
           || Get(statement, "_type") == Str("https://in-toto.io/Statement/v1"))
       && Get(statement, "predicateType") == Str(p)
       && IsAbout(statement, l.strict[q], reference)
       && ContentFor(p, Get(statement, "predicate"))
  }

  lemma StatementIsAbout(s: Fields, doc: Fields, reference: string)
    requires IsDigest(reference) && StatementOk(s, reference, Get(doc, "subject") == Null)
    requires Get(doc, "subject") != Null ==> Member(Get(doc, "subject"), "digest") == Str(reference)
    ensures IsAbout(s, doc, reference)
  {
    hide PredicateOk, IsHex;
    var subjects := Get(s, "subject");
    assert reference == "sha256:" + HexOf(reference);
    if Binds(subjects.items, reference) {
      var i :| 0 <= i < |subjects.items| &&
        Get(FieldsOf(Get(FieldsOf(subjects.items[i]), "digest")), "sha256") == Str(HexOf(reference));
      assert Member(Member(subjects.items[i], "digest"), "sha256") == Str(HexOf(reference));
    }
  }

  lemma StatementHasContent(s: Fields, reference: string, bare: bool)
    requires StatementOk(s, reference, bare)
    ensures Get(s, "predicateType").Str?
    ensures ContentFor(Get(s, "predicateType").s, Get(s, "predicate"))
  {
    hide Binds, PredicateOk;
    ContentIs(Get(s, "predicateType").s, Get(s, "predicate").fields);
  }

  /** One layer of an attestation, in document fields. */
  lemma LayerIsAttested(l: Layout, d: Value, i: nat)
    requires KindOf(l, d).Some? && KindOf(l, d).value.Attests?
    requires StrictDoc(l, d).Some? && i < |LayersOf(StrictDoc(l, d).value)|
    ensures var layer := LayersOf(StrictDoc(l, d).value)[i];
            Attested(l, PathOf(d), PathOf(layer), i, KindOf(l, d).value.reference, PredicateTypeOf(l, layer))
  {
    hide HeaderOk, ConfigOk, ConfigPlatform, IsManifestType, IsIndexType, DescriptorOk, StatementOk, ContentFor,
         IsAbout, Names, PredicateTypes;
    var doc := StrictDoc(l, d).value;
    var layer := LayersOf(doc)[i];
    var reference := ReferenceOf(d).s;
    assert StatementLayerOk(l, layer, reference, Get(doc, "subject") == Null);
    CheckedDescriptorIs(l, layer);
    var s := StrictDoc(l, layer).value;
    SubjectNames(l, d);
    StatementIsAbout(s, doc, reference);
    StatementHasContent(s, reference, Get(doc, "subject") == Null);
    StatementFields(s, reference, Get(doc, "subject") == Null);
  }

  lemma SubjectNames(l: Layout, d: Value)
    requires KindOf(l, d).Some? && KindOf(l, d).value.Attests? && StrictDoc(l, d).Some?
    ensures ReferenceOf(d) == Str(KindOf(l, d).value.reference) && IsDigest(ReferenceOf(d).s)
    ensures var subject := Get(StrictDoc(l, d).value, "subject");
            subject != Null ==> Member(subject, "digest") == ReferenceOf(d)
  {
    hide HeaderOk, ConfigOk, ConfigPlatform, IsManifestType, IsIndexType, StatementLayerOk, IsDigest, EmbeddedOk;
  }

  lemma StatementFields(s: Fields, reference: string, bare: bool)
    requires StatementOk(s, reference, bare)
    ensures || Get(s, "_type") == Str("https://in-toto.io/Statement/v0.1")
            || Get(s, "_type") == Str("https://in-toto.io/Statement/v1")
    ensures Get(s, "predicateType").Str?
  {
    hide Binds, PredicateOk;
  }

  /** Main result: every predicate recorded for an image is the type of a statement in the layout
      that is about that image. */
  lemma PredicatesAreAttested(l: Layout, reference: string, p: string) returns (q: string, s: string, i: nat)
    requires Verify(l).Some?
    requires reference in Verify(l).value.attestations && p in Verify(l).value.attestations[reference]
    ensures Attested(l, q, s, i, reference, p)
    ensures q in Verify(l).value.used && s in Verify(l).value.used
  {
    hide Nodes, Named, Children, KindOf, BlobsPresent, FindingsOk, RootOk, Roots, Attested, DescriptorOk;
    var r := PredicateRoute(l, START, Roots(l), 0, reference, p);
    var d := At(l, Roots(l), r);
    RouteAccounted(l, START, Roots(l), 0, r);
    i := TypedLayer(l, d, p);
    var layer := LayersOf(StrictDoc(l, d).value)[i];
    LayerIsAttested(l, d, i);
    q, s := PathOf(d), PathOf(layer);
    LayerIsNamed(l, d, i);
  }

  lemma TypedLayer(l: Layout, d: Value, p: string) returns (i: nat)
    requires KindOf(l, d).Some? && KindOf(l, d).value.Attests? && p in KindOf(l, d).value.predicates
    ensures StrictDoc(l, d).Some? && i < |LayersOf(StrictDoc(l, d).value)|
    ensures PredicateTypeOf(l, LayersOf(StrictDoc(l, d).value)[i]) == p
  {
    hide HeaderOk, ConfigOk, ConfigPlatform, IsManifestType, IsIndexType, DescriptorOk, StatementLayerOk,
         PredicateTypeOf;
    var layers := LayersOf(StrictDoc(l, d).value);
    assert p in PredicateTypes(l, layers);
    i :| 0 <= i < |layers| && PredicateTypeOf(l, layers[i]) == p;
  }

  lemma LayerIsNamed(l: Layout, d: Value, i: nat)
    requires KindOf(l, d).Some? && KindOf(l, d).value.Attests?
    requires StrictDoc(l, d).Some? && i < |LayersOf(StrictDoc(l, d).value)|
    ensures PathOf(d) in Paths(Named(l, d)) && PathOf(LayersOf(StrictDoc(l, d).value)[i]) in Paths(Named(l, d))
  {
    hide KindOf, Named, LayersOf;
    AttestationNamed(l, d);
    var doc := StrictDoc(l, d).value;
    InTheMiddle([d] + Subject(doc) + [Get(doc, "config")] + Subjects(doc), LayersOf(doc), i);
    assert Named(l, d)[0] == d;
  }

  lemma AttestationNamed(l: Layout, d: Value)
    requires KindOf(l, d).Some? && KindOf(l, d).value.Attests?
    ensures StrictDoc(l, d).Some?
    ensures var doc := StrictDoc(l, d).value;
            Named(l, d) == [d] + Subject(doc) + [Get(doc, "config")] + Subjects(doc) + LayersOf(doc)
  {
    hide KindOf, IsIndexType, IsManifestType, ConfigPlatform, LayersOf, IsAttestation;
    AttestationIsUnknown(l, d);
    var doc := StrictDoc(l, d).value;
    assert AttestationNames(doc) == Subjects(doc) + LayersOf(doc);
    hide AttestationNames, Subjects, Subject;
    Regroup([d] + Subject(doc), [Get(doc, "config")], Subjects(doc), LayersOf(doc));
  }

  lemma Regroup(a: seq<Value>, b: seq<Value>, c: seq<Value>, d: seq<Value>)
    ensures a + (b + (c + d)) == a + b + c + d
  {
  }

  function Subjects(doc: Fields): seq<Value> {
    if Get(doc, "subject") == Null then [] else [Get(doc, "subject")]
  }

  lemma InTheMiddle(a: seq<Value>, b: seq<Value>, i: nat)
    requires i < |b|
    ensures PathOf(b[i]) in Paths(a + b)
  {
    assert (a + b)[|a| + i] == b[i];
  }

  lemma AttestationIsUnknown(l: Layout, d: Value)
    requires KindOf(l, d).Some? && KindOf(l, d).value.Attests?
    ensures PathOf(d) in l.strict && !IsIndexType(MediaOf(d))
    ensures var p := ConfigPlatform(l, l.strict[PathOf(d)]); p.Some? && IsAttestation(p.value)
  {
    hide HeaderOk, ConfigOk, DescriptorOk, ConfigPlatform, LabelsOk, RunnableLayersOk, LinuxName;
    TypesDisjoint(MediaOf(d));
  }

  // ----- images

  /** The manifest at `q` is an image for this architecture, labelled with this release, with a
      config and at least one layer, all stored under their digests. */
  predicate IsImage(l: Layout, q: string, c: string, architecture: string) {
    && q in l.strict && c in l.strict
    && var manifest, config := l.strict[q], l.strict[c];
       && Get(manifest, "schemaVersion") == Int(2)
       && "subject" !in manifest && "artifactType" !in manifest
       && Names(l, Get(manifest, "config"), c)
       && Get(config, "os") == Str("linux") && Get(config, "architecture") == Str(architecture)
       && (var labels := Member(Get(config, "config"), "Labels");
           && Member(labels, "org.opencontainers.image.version") == Str(l.version)
           && Member(labels, "org.opencontainers.image.revision") == Str(l.commit))
       && var layers := Get(manifest, "layers");
          layers.Arr? && layers.items != []
          && forall i | 0 <= i < |layers.items| :: Names(l, layers.items[i], PathOf(layers.items[i]))
  }

  lemma RunnableIsImage(l: Layout, d: Value)
    requires KindOf(l, d).Some? && KindOf(l, d).value.Runnable?
    ensures StrictDoc(l, d).Some?
    ensures exists architecture | architecture in {"amd64", "arm64"} ::
              && IsImage(l, PathOf(d), PathOf(Get(StrictDoc(l, d).value, "config")), architecture)
              && KindOf(l, d).value.identity == "linux/" + architecture
  {
    hide DescriptorOk, IsManifestType, IsIndexType, IsConfigType, AttestationKind, Names, IsLayerType;
    TypesDisjoint(MediaOf(d));
    var doc := StrictDoc(l, d).value;
    var configDescriptor := Get(doc, "config");
    assert DescriptorOk(l, configDescriptor);
    CheckedDescriptorIs(l, configDescriptor);
    forall i | 0 <= i < |LayersOf(doc)| ensures Names(l, LayersOf(doc)[i], PathOf(LayersOf(doc)[i])) {
      CheckedDescriptorIs(l, LayersOf(doc)[i]);
    }
    var platform := ConfigPlatform(l, doc).value;
    LinuxNameIs(platform.0, platform.1);
    EmptyConfigIsUnknown(l, doc);
  }

  lemma EmptyConfigIsUnknown(l: Layout, doc: Fields)
    requires ConfigPlatform(l, doc).Some?
    ensures ConfigPlatform(l, doc).value.0 == Str("linux") ==>
              var config := StrictDoc(l, Get(doc, "config")).value;
              ConfigPlatform(l, doc).value == (Get(config, "os"), Get(config, "architecture"))
  {
    assert "unknown"[0] != "linux"[0];
  }

  /** Main result: each platform of an accepted layout is an image for it, of this release. */
  lemma PlatformsAreImages(l: Layout, architecture: string) returns (q: string, c: string)
    requires Verify(l).Some? && architecture in {"amd64", "arm64"}
    ensures var platforms := Verify(l).value.platforms;
            && "linux/" + architecture in platforms
            && IsImage(l, q, c, architecture)
            && q in l.files && platforms["linux/" + architecture] == "sha256:" + l.files[q].sha256
  {
    hide Nodes, Named, Paths, Children, KindOf, BlobsPresent, RootOk, Roots, IsImage, DescriptorOk;
    LinuxNames();
    var id := "linux/" + architecture;
    var r := PlatformRoute(l, START, Roots(l), 0, id);
    RouteAccounted(l, START, Roots(l), 0, r);
    var d := At(l, Roots(l), r);
    RunnableIsImage(l, d);
    assert architecture == id[6..];
    assert forall a: string :: ("linux/" + a)[6..] == a;
    q, c := PathOf(d), PathOf(Get(StrictDoc(l, d).value, "config"));
    KindIsDescribed(l, d);
    CheckedDescriptorIs(l, d);
  }

  lemma KindIsDescribed(l: Layout, d: Value)
    requires KindOf(l, d).Some?
    ensures DescriptorOk(l, d)
  {
    hide HeaderOk, ManifestKind;
  }
}
