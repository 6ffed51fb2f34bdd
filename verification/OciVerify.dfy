/** tools/candidate_inventory.py's _OCI: a walk over the content-addressed graph under
    oci/index.json that accumulates what it used and found.  The functions say what one walk
    does to its accumulators; the class updates them in place, in the code's order. */
module OciVerify {
  import opened Wrappers
  import opened Json
  import opened OciLayout

  datatype Walk = Walk(
    used: set<string>,
    visiting: set<string>,
    platforms: map<string, string>,
    attestations: map<string, set<string>>,
    descriptors: nat)

  const START := Walk({}, {}, map[], map[], 0)

  /** Account for descriptors that all check out. */
  function Charge(w: Walk, ds: seq<Value>): Option<Walk> {
    if w.descriptors + |ds| > MAX_DESCRIPTORS then None
    else Some(w.(used := w.used + Paths(ds), descriptors := w.descriptors + |ds|))
  }

  function AddPredicates(m: map<string, set<string>>, reference: string, predicates: set<string>)
    : map<string, set<string>>
  {
    m[reference := (if reference in m then m[reference] else {}) + predicates]
  }

  /** A nested index may claim a platform only if it added exactly that platform. */
  predicate ClaimOk(claimed: Value, added: set<string>) {
    claimed == Null ||
    (claimed.Obj? &&
     var name := LinuxName(Get(claimed.fields, "os"), Get(claimed.fields, "architecture"));
     name.Some? && added == {name.value})
  }

  /** What a manifest adds to the findings. */
  function Record(w: Walk, kind: Kind, digest: string): Option<Walk> {
    match kind
    case Nested(_) => None
    case Runnable(identity) =>
      if identity in w.platforms then None
      else Some(w.(platforms := w.platforms[identity := digest]))
    case Attests(reference, predicates) =>
      Some(w.(attestations := AddPredicates(w.attestations, reference, predicates)))
  }

  function Manifest(l: Layout, w: Walk, doc: Fields, d: Value): Option<Walk> {
    var kind :- ManifestKind(l, doc, d);
    var w1 :- Charge(w, ManifestNames(l, doc));
    Record(w1, kind, DigestOf(d))
  }

  function Node(l: Layout, w: Walk, d: Value, depth: nat): Option<Walk>
    decreases MAX_DEPTH + 2 - depth, 0, 0
  {
    if !DescriptorOk(l, d) then None else
    var w1 :- Charge(w, [d]);
    if depth > MAX_DEPTH || DigestOf(d) in w1.visiting then None else
    var doc :- StrictDoc(l, d);
    if !HeaderOk(l, doc, d) then None else
    var w2 :- Charge(w1.(visiting := w1.visiting + {DigestOf(d)}), Subject(doc));
    var w3 :- if IsIndexType(MediaOf(d)) then Index(l, w2, doc, PlatformOf(d), depth)
              else if IsManifestType(MediaOf(d)) then Manifest(l, w2, doc, d)
              else None;
    Some(w3.(visiting := w3.visiting - {DigestOf(d)}))
  }

  function Index(l: Layout, w: Walk, doc: Fields, claimed: Value, depth: nat): Option<Walk>
    requires depth <= MAX_DEPTH
    decreases MAX_DEPTH + 1 - depth, 2, 0
  {
    if ChildrenOf(doc) == [] then None else
    var w1 :- Nodes(l, w, ChildrenOf(doc), depth + 1);
    if ClaimOk(claimed, w1.platforms.Keys - w.platforms.Keys) then Some(w1) else None
  }

  function Nodes(l: Layout, w: Walk, items: seq<Value>, depth: nat): Option<Walk>
    decreases MAX_DEPTH + 2 - depth, 1, |items|
  {
    if items == [] then Some(w) else
    var w1 :- Node(l, w, items[0], depth);
    Nodes(l, w1, items[1..], depth)
  }

  predicate CompletePredicates(predicates: set<string>) {
    && (SPDX in predicates || CYCLONEDX in predicates)
    && (SLSA_V02 in predicates || SLSA_V1 in predicates)
  }

  /** The scanned files below oci/blobs/. */
  function BlobsPresent(l: Layout): set<string> {
    set p | p in l.files && |p| >= |BLOB_ROOT| && p[..|BLOB_ROOT|] == BLOB_ROOT
  }

  predicate RootOk(l: Layout) {
    && LAYOUT_FILE in l.strict
    && l.strict[LAYOUT_FILE] == map["imageLayoutVersion" := Str("1.0.0")]
    && INDEX_FILE in l.strict
    && INDEX_FILE in l.files
    && SchemaOk(l.strict[INDEX_FILE])
    && ("mediaType" in l.strict[INDEX_FILE] ==> IsIndexType(Text(l.strict[INDEX_FILE]["mediaType"])))
    && ChildrenOf(l.strict[INDEX_FILE]) != []
  }

  predicate FindingsOk(platforms: map<string, string>, attestations: map<string, set<string>>) {
    && platforms.Keys == {AMD64, ARM64}
    && attestations.Keys == platforms.Values
    && forall r | r in attestations :: CompletePredicates(attestations[r])
  }

  /** The top-level entries of oci/index.json. */
  function Roots(l: Layout): seq<Value> {
    if INDEX_FILE in l.strict then ChildrenOf(l.strict[INDEX_FILE]) else []
  }

  /** _OCI.verify: the final accumulators of an accepted layout. */
  function Verify(l: Layout): Option<Walk> {
    if !RootOk(l) then None else
    var w :- Nodes(l, START, Roots(l), 0);
    if FindingsOk(w.platforms, w.attestations) && w.used == BlobsPresent(l) then Some(w) else None
  }

  // ----- the walk as the code performs it

  lemma PathsAppend(a: seq<Value>, b: seq<Value>)
    ensures Paths(a + b) == Paths(a) + Paths(b)
  {
    forall p | p in Paths(b) ensures p in Paths(a + b) {
      var i :| 0 <= i < |b| && PathOf(b[i]) == p;
      assert (a + b)[|a| + i] == b[i];
    }
    forall p | p in Paths(a) ensures p in Paths(a + b) {
      var i :| 0 <= i < |a| && PathOf(a[i]) == p;
      assert (a + b)[i] == a[i];
    }
  }

  /** Charging in two steps is charging once. */
  lemma ChargeAppend(w: Walk, a: seq<Value>, b: seq<Value>)
    ensures Charge(w, a + b) ==
            (if Charge(w, a).Some? then Charge(Charge(w, a).value, b) else None)
  {
    PathsAppend(a, b);
    if Charge(w, a + b).Some? {
      assert w.used + (Paths(a) + Paths(b)) == (w.used + Paths(a)) + Paths(b);
    }
  }

  lemma ChargeNothing(w: Walk)
    ensures w.descriptors <= MAX_DESCRIPTORS ==> Charge(w, []) == Some(w)
  {
    assert w.used + Paths([]) == w.used;
  }

  lemma PredicateTypesAppend(l: Layout, layers: seq<Value>, layer: Value)
    ensures PredicateTypes(l, layers + [layer]) == PredicateTypes(l, layers) + {PredicateTypeOf(l, layer)}
  {
    var more := layers + [layer];
    assert more[|layers|] == layer;
    forall p | p in PredicateTypes(l, layers) ensures p in PredicateTypes(l, more) {
      var i :| 0 <= i < |layers| && PredicateTypeOf(l, layers[i]) == p;
      assert more[i] == layers[i];
    }
  }

  lemma AddPredicatesTwice(m: map<string, set<string>>, reference: string, a: set<string>, b: set<string>)
    ensures AddPredicates(AddPredicates(m, reference, a), reference, b) == AddPredicates(m, reference, a + b)
  {
    var before := if reference in m then m[reference] else {};
    assert before + a + b == before + (a + b);
  }

  lemma NoPredicateTypes(l: Layout)
    ensures PredicateTypes(l, []) == {}
  {
  }

  class Verifier {
    const l: Layout
    var used: set<string>
    var visiting: set<string>
    var platforms: map<string, string>
    var attestations: map<string, set<string>>
    var descriptors: nat

    constructor (l: Layout)
      ensures this.l == l && State() == START
    {
      this.l := l;
      used, visiting, platforms, attestations, descriptors := {}, {}, map[], map[], 0;
    }

    ghost function State(): Walk
      reads this
    {
      Walk(used, visiting, platforms, attestations, descriptors)
    }

    /** verify: accept, or raise.  The root digest is the digest of oci/index.json. */
    method VerifyLayout() returns (platformManifests: Option<map<string, string>>)
      requires State() == START
      modifies this
      ensures platformManifests.Some? <==> Verify(l).Some?
      ensures platformManifests.Some? ==>
                Some(State()) == Verify(l) && platformManifests.value == State().platforms
      ensures descriptors <= MAX_DESCRIPTORS + 1
    {
      hide SchemaOk, IsIndexType, FindingsOk, BlobsPresent, Nodes;
      if LAYOUT_FILE !in l.strict || l.strict[LAYOUT_FILE] != map["imageLayoutVersion" := Str("1.0.0")] {
        return None;
      }
      if INDEX_FILE !in l.strict || INDEX_FILE !in l.files {
        return None;
      }
      var index := l.strict[INDEX_FILE];
      if !SchemaOk(index) || ("mediaType" in index && !IsIndexType(Text(index["mediaType"])))
         || ChildrenOf(index) == [] {
        return None;
      }
      var ok := VisitNodes(ChildrenOf(index), 0);
      if !ok || !FindingsOk(platforms, attestations) || used != BlobsPresent(l) {
        return None;
      }
      platformManifests := Some(platforms);
    }

    /** _descriptor */
    method CheckDescriptor(d: Value) returns (ok: bool)
      requires descriptors <= MAX_DESCRIPTORS
      modifies this`used, this`descriptors
      ensures ok <==> DescriptorOk(l, d) && Charge(old(State()), [d]).Some?
      ensures ok ==> State() == Charge(old(State()), [d]).value
      ensures descriptors <= MAX_DESCRIPTORS + 1
      ensures ok ==> descriptors <= MAX_DESCRIPTORS
    {
      if !DescriptorOk(l, d) {
        return false;
      }
      used := used + {PathOf(d)};
      descriptors := descriptors + 1;
      assert Paths([d]) == {PathOf(d)} by { assert [d][0] == d; }
      ok := descriptors <= MAX_DESCRIPTORS;
    }

    /** _node */
    method VisitNode(d: Value, depth: nat) returns (ok: bool)
      requires descriptors <= MAX_DESCRIPTORS
      modifies this
      ensures ok <==> Node(l, old(State()), d, depth).Some?
      ensures ok ==> State() == Node(l, old(State()), d, depth).value
      ensures descriptors <= MAX_DESCRIPTORS + 1
      ensures ok ==> descriptors <= MAX_DESCRIPTORS
      decreases MAX_DEPTH + 2 - depth, 0, 0
    {
      hide DescriptorOk, IsIndexType, IsManifestType, Index, Manifest, Paths;
      ok := CheckDescriptor(d);
      if !ok {
        return;
      }
      var digest := DigestOf(d);
      if depth > MAX_DEPTH || digest in visiting {
        return false;
      }
      visiting := visiting + {digest};
      if PathOf(d) !in l.strict {
        return false;
      }
      var doc := l.strict[PathOf(d)];
      if !SchemaOk(doc) || ("mediaType" in doc && doc["mediaType"] != Str(MediaOf(d))) {
        return false;
      }
      ok := CheckSubject(doc);
      if !ok {
        return;
      }
      if IsIndexType(MediaOf(d)) {
        ok := VisitIndex(doc, PlatformOf(d), depth);
      } else if IsManifestType(MediaOf(d)) {
        ok := VisitManifest(doc, d);
      } else {
        ok := false;
      }
      visiting := visiting - {digest};
    }

    method VisitIndex(doc: Fields, claimed: Value, depth: nat) returns (ok: bool)
      requires descriptors <= MAX_DESCRIPTORS
      requires depth <= MAX_DEPTH
      modifies this
      ensures ok <==> Index(l, old(State()), doc, claimed, depth).Some?
      ensures ok ==> State() == Index(l, old(State()), doc, claimed, depth).value
      ensures descriptors <= MAX_DESCRIPTORS + 1
      ensures ok ==> descriptors <= MAX_DESCRIPTORS
      decreases MAX_DEPTH + 1 - depth, 2, 0
    {
      hide ClaimOk, Nodes;
      var before := platforms.Keys;
      if ChildrenOf(doc) == [] {
        return false;
      }
      ok := VisitNodes(ChildrenOf(doc), depth + 1);
      ok := ok && ClaimOk(claimed, platforms.Keys - before);
    }

    /** The subject lines of _node. */
    method CheckSubject(doc: Fields) returns (ok: bool)
      requires descriptors <= MAX_DESCRIPTORS
      modifies this`used, this`descriptors
      ensures ok <==> ("subject" in doc ==> DescriptorOk(l, doc["subject"])) &&
                      Charge(old(State()), Subject(doc)).Some?
      ensures ok ==> State() == Charge(old(State()), Subject(doc)).value
      ensures descriptors <= MAX_DESCRIPTORS + 1
      ensures ok ==> descriptors <= MAX_DESCRIPTORS
    {
      hide DescriptorOk;
      if "subject" in doc {
        ok := CheckDescriptor(doc["subject"]);
      } else {
        assert Paths([]) == {};
        ok := true;
      }
    }

    /** _index, for a document whose entries are `items` */
    method VisitNodes(items: seq<Value>, depth: nat) returns (ok: bool)
      requires descriptors <= MAX_DESCRIPTORS
      modifies this
      ensures ok <==> Nodes(l, old(State()), items, depth).Some?
      ensures ok ==> State() == Nodes(l, old(State()), items, depth).value
      ensures descriptors <= MAX_DESCRIPTORS + 1
      ensures ok ==> descriptors <= MAX_DESCRIPTORS
      decreases MAX_DEPTH + 2 - depth, 1, |items|
    {
      hide Node;
      for i := 0 to |items|
        invariant descriptors <= MAX_DESCRIPTORS
        invariant Nodes(l, old(State()), items, depth) == Nodes(l, State(), items[i..], depth)
      {
        assert items[i..][0] == items[i] && items[i..][1..] == items[i + 1..];
        ok := VisitNode(items[i], depth);
        if !ok {
          return;
        }
      }
      ok := true;
    }

    /** _manifest */
    method VisitManifest(doc: Fields, d: Value) returns (ok: bool)
      requires descriptors <= MAX_DESCRIPTORS
      modifies this
      ensures ok <==> Manifest(l, old(State()), doc, d).Some?
      ensures ok ==> State() == Manifest(l, old(State()), doc, d).value
      ensures descriptors <= MAX_DESCRIPTORS + 1
      ensures ok ==> descriptors <= MAX_DESCRIPTORS
    {
      hide ConfigOk, ConfigPlatform, IsPlatform, AttestationKind, LinuxName, LabelsOk, RunnableLayersOk,
           AttestationNames, IsAttestation, Paths;
      ghost var names := ManifestNames(l, doc);
      assert [Get(doc, "config")] + names[1..] == names;
      ChargeAppend(State(), [Get(doc, "config")], names[1..]);
      var config := VisitConfig(doc, d);
      if config.None? {
        return false;
      }
      var (os, architecture) := config.value;
      if PlatformOf(d) != Null && !IsPlatform(PlatformOf(d), os, architecture) {
        return false;
      }
      if LayersOf(doc) == [] {
        return false;
      }
      if IsAttestation(config.value) {
        assert names[1..] == AttestationNames(doc);
        ok := VisitAttestation(doc, d);
      } else {
        assert names[1..] == LayersOf(doc);
        ok := VisitRunnable(doc, d, config.value);
      }
    }

    /** The config lines of _manifest: the platform the config stands for. */
    method VisitConfig(doc: Fields, d: Value) returns (platform: Option<(Value, Value)>)
      requires descriptors <= MAX_DESCRIPTORS
      modifies this`used, this`descriptors
      ensures platform.Some? <==> ConfigOk(l, doc, d) && Charge(old(State()), [Get(doc, "config")]).Some?
      ensures platform.Some? ==> Some(State()) == Charge(old(State()), [Get(doc, "config")])
      ensures platform.Some? ==> platform == ConfigPlatform(l, doc) && StrictDoc(l, Get(doc, "config")).Some?
      ensures descriptors <= MAX_DESCRIPTORS + 1
      ensures platform.Some? ==> descriptors <= MAX_DESCRIPTORS
    {
      hide DescriptorOk, IsConfigType, IsEmptyConfigType, IsUnknownPlatform, Paths;
      var configDescriptor := Get(doc, "config");
      var ok := CheckDescriptor(configDescriptor);
      if !ok || !IsConfigType(MediaOf(configDescriptor)) || PathOf(configDescriptor) !in l.strict {
        return None;
      }
      var config := l.strict[PathOf(configDescriptor)];
      if IsEmptyConfigType(MediaOf(configDescriptor)) {
        if config != map[]
           || Get(doc, "artifactType") != Str("application/vnd.docker.attestation.manifest.v1+json")
           || !IsUnknownPlatform(PlatformOf(d)) {
          return None;
        }
        return Some((Str("unknown"), Str("unknown")));
      }
      platform := Some((Get(config, "os"), Get(config, "architecture")));
    }

    /** The lines of _manifest that only runnable images reach. */
    method VisitRunnable(doc: Fields, d: Value, platform: (Value, Value)) returns (ok: bool)
      requires descriptors <= MAX_DESCRIPTORS
      requires StrictDoc(l, Get(doc, "config")).Some?
      modifies this
      ensures ok <==> RunnableKind(l, doc, platform).Some?
                      && Charge(old(State()), LayersOf(doc)).Some?
                      && RunnableKind(l, doc, platform).value.identity !in old(platforms)
      ensures ok ==> Some(State()) == Record(Charge(old(State()), LayersOf(doc)).value,
                                             RunnableKind(l, doc, platform).value, DigestOf(d))
      ensures descriptors <= MAX_DESCRIPTORS + 1
      ensures ok ==> descriptors <= MAX_DESCRIPTORS
    {
      hide LabelsOk, RunnableLayersOk, LinuxName, Paths;
      var identity := LinuxName(platform.0, platform.1);
      if identity.None? || "subject" in doc || "artifactType" in doc {
        return false;
      }
      if identity.value in platforms || !LabelsOk(l, l.strict[PathOf(Get(doc, "config"))]) {
        return false;
      }
      ok := CheckRunnableLayers(LayersOf(doc));
      if ok {
        platforms := platforms[identity.value := DigestOf(d)];
      }
    }

    method CheckRunnableLayers(layers: seq<Value>) returns (ok: bool)
      requires descriptors <= MAX_DESCRIPTORS
      modifies this`used, this`descriptors
      ensures ok <==> RunnableLayersOk(l, layers) && Charge(old(State()), layers).Some?
      ensures ok ==> State() == Charge(old(State()), layers).value
      ensures descriptors <= MAX_DESCRIPTORS + 1
      ensures ok ==> descriptors <= MAX_DESCRIPTORS
    {
      hide DescriptorOk, IsLayerType, Paths;
      ChargeNothing(State());
      for i := 0 to |layers|
        invariant descriptors <= MAX_DESCRIPTORS
        invariant Some(State()) == Charge(old(State()), layers[..i])
        invariant RunnableLayersOk(l, layers[..i])
      {
        ChargeAppend(old(State()), layers[..i], [layers[i]]);
        assert layers[..i + 1] == layers[..i] + [layers[i]];
        ok := CheckDescriptor(layers[i]);
        if !ok || !IsLayerType(MediaOf(layers[i])) {
          return false;
        }
      }
      assert layers[..|layers|] == layers;
      ok := true;
    }

    /** _attestation */
    method VisitAttestation(doc: Fields, d: Value) returns (ok: bool)
      requires descriptors <= MAX_DESCRIPTORS
      modifies this
      ensures ok <==> AttestationKind(l, doc, d).Some? &&
                      Charge(old(State()), AttestationNames(doc)).Some?
      ensures ok ==> Some(State()) == Record(Charge(old(State()), AttestationNames(doc)).value,
                                             AttestationKind(l, doc, d).value, DigestOf(d))
      ensures descriptors <= MAX_DESCRIPTORS + 1
      ensures ok ==> descriptors <= MAX_DESCRIPTORS
    {
      hide DescriptorOk, StatementLayerOk, IsManifestType, IsDigest, Paths, PredicateTypes, AddPredicates;
      var reference := ReferenceOf(d);
      if Get(FieldsOf(Get(FieldsOf(d), "annotations")), "vnd.docker.reference.type") != Str("attestation-manifest")
         || !reference.Str? || !IsDigest(reference.s) {
        return false;
      }
      var subject, layers := Get(doc, "subject"), LayersOf(doc);
      ChargeAppend(State(), [subject], layers);
      if subject != Null {
        assert AttestationNames(doc) == [subject] + layers;
        ok := CheckDescriptor(subject);
        if !ok || DigestOf(subject) != reference.s || !IsManifestType(MediaOf(subject)) {
          return false;
        }
      } else {
        assert AttestationNames(doc) == layers;
      }
      ok := CheckStatements(layers, reference.s, subject == Null);
    }

    /** The layer loop of _attestation, adding to the reference's predicate set as it goes. */
    method CheckStatements(layers: seq<Value>, reference: string, bare: bool) returns (ok: bool)
      requires descriptors <= MAX_DESCRIPTORS
      modifies this`used, this`descriptors, this`attestations
      ensures ok <==> (forall i | 0 <= i < |layers| :: StatementLayerOk(l, layers[i], reference, bare))
                      && Charge(old(State()), layers).Some?
      ensures ok ==> State() == Charge(old(State()), layers).value.(
                                attestations :=
                                  AddPredicates(old(attestations), reference, PredicateTypes(l, layers)))
      ensures descriptors <= MAX_DESCRIPTORS + 1
      ensures ok ==> descriptors <= MAX_DESCRIPTORS
    {
      hide StatementOk, IsDigest, EmbeddedOk, Paths, PredicateTypes, AddPredicates;
      ghost var w := State();
      ChargeNothing(w);
      NoPredicateTypes(l);
      attestations := AddPredicates(attestations, reference, {});
      for i := 0 to |layers|
        invariant descriptors <= MAX_DESCRIPTORS
        invariant Charge(w, layers[..i]).Some?
        invariant State() == Charge(w, layers[..i]).value.(
                               attestations := AddPredicates(w.attestations, reference, PredicateTypes(l, layers[..i])))
        invariant forall j | 0 <= j < i :: StatementLayerOk(l, layers[j], reference, bare)
      {
        ChargeAppend(w, layers[..i], [layers[i]]);
        assert layers[..i + 1] == layers[..i] + [layers[i]];
        ok := CheckDescriptor(layers[i]);
        if !ok || !IsStatementLayerType(MediaOf(layers[i])) || PathOf(layers[i]) !in l.strict
           || !StatementOk(l.strict[PathOf(layers[i])], reference, bare) {
          return false;
        }
        PredicateTypesAppend(l, layers[..i], layers[i]);
        AddPredicatesTwice(w.attestations, reference, PredicateTypes(l, layers[..i]), {PredicateTypeOf(l, layers[i])});
        attestations := AddPredicates(attestations, reference, {PredicateTypeOf(l, layers[i])});
      }
      assert layers[..|layers|] == layers;
      ok := true;
    }
  }
}
