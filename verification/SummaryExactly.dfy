/** When the second walk succeeds and what it returns, on any layout, in the fields of the documents:
    nesting does not matter, only the entries that are no index, in the order they are met. */
module SummaryExactly {
  import opened Wrappers
  import opened Json
  import opened OciLayout
  import opened OciVerify
  import opened OciMeaning
  import opened OciEntries
  import opened RegistrySummary
  import opened RegistryExactly

  /** A blob's size as a descriptor gives it; Python's true is 1 and its false 0. */
  predicate IsSize(v: Value, n: nat) {
    v == Int(n) || (n == 1 && v == Bool(true)) || (n == 0 && v == Bool(false))
  }

  /** A local blob that is stored under the SHA-256 of its own bytes. */
  predicate Stored(l: Layout, path: string) {
    path in l.files && path == "oci/blobs/sha256/" + l.files[path].sha256
  }

  /** The descriptor names the stored blob that reads as this document. */
  predicate Held(l: Layout, d: Value, doc: Fields) {
    && d.Obj?
    && Stored(l, PathOf(d)) && PathOf(d) in l.relaxed && l.relaxed[PathOf(d)] == doc
    && Member(d, "digest") == Str("sha256:" + l.files[PathOf(d)].sha256)
    && IsSize(Member(d, "size"), l.files[PathOf(d)].size)
  }

  /** It names some document. */
  predicate Holds(l: Layout, d: Value) {
    PathOf(d) in l.relaxed && Held(l, d, l.relaxed[PathOf(d)])
  }

  predicate Says(l: Layout, layer: Value, p: string) {
    Holds(l, layer) && Get(l.relaxed[PathOf(layer)], "predicateType") == Str(p)
  }

  /** The digest an attestation's descriptor is annotated with. */
  predicate Refers(d: Value, reference: string) {
    IsUnknown(d) && Member(Member(d, "annotations"), "vnd.docker.reference.digest") == Str(reference)
  }

  predicate IsReadableAttestation(l: Layout, d: Value) {
    && ManifestMedia(Member(d, "mediaType"))
    && (var reference := Member(Member(d, "annotations"), "vnd.docker.reference.digest");
        reference.Str? && |reference.s| >= 7 && reference.s[..7] == "sha256:")
    && Holds(l, d)
    && LayersBelow(l, d) != []
    && forall i | 0 <= i < |LayersBelow(l, d)| ::
         Holds(l, LayersBelow(l, d)[i]) && Get(l.relaxed[PathOf(LayersBelow(l, d)[i])], "predicateType").Str?
  }

  /** An entry the second walk can read within so many frames. */
  predicate Readable(l: Layout, d: Value, stack: nat)
    decreases stack
  {
    && d.Obj? && !CannotBeLookedUp(d)
    && if ImageName(d).Some? then ManifestMedia(Member(d, "mediaType")) && Holds(l, d)
       else if IsUnknown(d) then IsReadableAttestation(l, d)
       else
         && IndexMedia(Member(d, "mediaType")) && Holds(l, d) && stack > 0
         && Below(l, d) != []
         && forall i | 0 <= i < |Below(l, d)| :: Readable(l, Below(l, d)[i], stack - 1)
  }

  /** The entries of the index a descriptor names. */
  function Below(l: Layout, d: Value): seq<Value> {
    if PathOf(d) in l.relaxed && Get(l.relaxed[PathOf(d)], "manifests").Arr?
    then Get(l.relaxed[PathOf(d)], "manifests").items else []
  }

  /** The entries that are no index, in the order the walk meets them. */
  function Leaves(l: Layout, items: seq<Value>, stack: nat): seq<Value>
    decreases stack, |items|
  {
    if items == [] then []
    else
      (if ImageName(items[0]).Some? || IsUnknown(items[0]) || stack == 0 then [items[0]]
       else Leaves(l, Below(l, items[0]), stack - 1))
      + Leaves(l, items[1..], stack)
  }

  /** The digest of the last leaf that is this image. */
  function Latest(leaves: seq<Value>, id: string): Option<string> {
    if leaves == [] then None
    else
      var later := Latest(leaves[1..], id);
      if later.Some? then later
      else if ImageName(leaves[0]) == Some(id) then Some(Text(Member(leaves[0], "digest")))
      else None
  }

  predicate RefersIn(leaves: seq<Value>, reference: string) {
    exists k | 0 <= k < |leaves| :: Refers(leaves[k], reference)
  }

  /** Some leaf attests this of the image. */
  predicate SaidIn(l: Layout, leaves: seq<Value>, reference: string, p: string) {
    exists k | 0 <= k < |leaves| :: Refers(leaves[k], reference) && SaidBy(l, leaves[k], p)
  }

  predicate SaidBy(l: Layout, d: Value, p: string) {
    exists i | 0 <= i < |LayersBelow(l, d)| :: Says(l, LayersBelow(l, d)[i], p)
  }

  function LayersBelow(l: Layout, d: Value): seq<Value> {
    if PathOf(d) in l.relaxed && Get(l.relaxed[PathOf(d)], "layers").Arr?
    then Get(l.relaxed[PathOf(d)], "layers").items else []
  }

  /** Some leaf with this digest refers to the image. */
  predicate AttestedIn(leaves: seq<Value>, reference: string, digest: string) {
    exists k | 0 <= k < |leaves| :: Refers(leaves[k], reference) && Member(leaves[k], "digest") == Str(digest)
  }

  function Lookup<V>(m: map<string, V>, key: string): Option<V> {
    if key in m then Some(m[key]) else None
  }

  predicate In(m: map<string, set<string>>, key: string, p: string) {
    key in m && p in m[key]
  }

  ghost predicate AddsImages(m: map<string, string>, leaves: seq<Value>, m': map<string, string>) {
    forall id :: Lookup(m', id) == if Latest(leaves, id).Some? then Latest(leaves, id) else Lookup(m, id)
  }

  ghost predicate AddsKeys(m: map<string, set<string>>, leaves: seq<Value>, m': map<string, set<string>>) {
    forall r :: r in m' <==> r in m || RefersIn(leaves, r)
  }

  ghost predicate AddsSaid(l: Layout, m: map<string, set<string>>, leaves: seq<Value>, m': map<string, set<string>>) {
    forall r, p :: In(m', r, p) <==> In(m, r, p) || SaidIn(l, leaves, r, p)
  }

  ghost predicate AddsAttested(m: map<string, set<string>>, leaves: seq<Value>, m': map<string, set<string>>) {
    forall r, digest :: In(m', r, digest) <==> In(m, r, digest) || AttestedIn(leaves, r, digest)
  }

  /** The findings `c'` are the findings `c` with what the leaves add. */
  ghost predicate Adds(l: Layout, c: Summary, leaves: seq<Value>, c': Summary) {
    && AddsImages(c.platforms, leaves, c'.platforms)
    && AddsKeys(c.predicates, leaves, c'.predicates)
    && AddsKeys(c.manifests, leaves, c'.manifests)
    && AddsSaid(l, c.predicates, leaves, c'.predicates)
    && AddsAttested(c.manifests, leaves, c'.manifests)
  }

  // ----- reading

  lemma HeldIs(l: Layout, d: Value, doc: Fields)
    ensures ReadRelaxed(l, d) == Some(doc) <==> Held(l, d, doc)
  {
    SizesAre(Get(FieldsOf(d), "size"), if PathOf(d) in l.files then l.files[PathOf(d)].size else 0);
    hide IntOf, IsSize;
    if HasDigestPrefix(Get(FieldsOf(d), "digest")) {
      assert DigestOf(d) == DigestOf(d)[..7] + DigestOf(d)[7..];
    }
    if Held(l, d, doc) {
      var sha := l.files[PathOf(d)].sha256;
      assert ("sha256:" + sha)[7..] == sha && ("sha256:" + sha)[..7] == "sha256:";
    }
  }

  lemma SizesAre(v: Value, n: nat)
    ensures IntOf(v) == Some(n) <==> IsSize(v, n)
  {
  }

  lemma HoldsIs(l: Layout, d: Value)
    ensures ReadRelaxed(l, d).Some? <==> Holds(l, d)
    ensures Holds(l, d) ==> ReadRelaxed(l, d) == Some(l.relaxed[PathOf(d)])
    ensures Holds(l, d) ==>
              d.Obj? && Member(d, "digest") == Str(DigestOf(d)) && HasDigestPrefix(Get(FieldsOf(d), "digest"))
  {
    if PathOf(d) in l.relaxed {
      HeldIs(l, d, l.relaxed[PathOf(d)]);
    }
  }

  lemma AttestationReads(l: Layout, c: Summary, d: Value)
    ensures CollectAttestation(l, c, d).Some? <==> IsReadableAttestation(l, d)
  {
    HoldsIs(l, d);
    HeaderIs(l, d);
    if Holds(l, d) {
      LayersRead(l, d);
      assert LayersOf(l.relaxed[PathOf(d)]) == LayersBelow(l, d);
    }
    hide Holds, ReadRelaxed, RelaxedLayerOk, AttestationHeaderOk, ManifestMedia, RelaxedTypes, AddPredicates, LayersOf;
  }

  lemma HeaderIs(l: Layout, d: Value)
    requires ReadRelaxed(l, d).Some? <==> Holds(l, d)
    ensures AttestationHeaderOk(d) && Holds(l, d) <==>
            && ManifestMedia(Member(d, "mediaType"))
            && (var reference := Member(Member(d, "annotations"), "vnd.docker.reference.digest");
                reference.Str? && |reference.s| >= 7 && reference.s[..7] == "sha256:")
            && Holds(l, d)
  {
    HoldsIs(l, d);
    MediaTypesAre(d);
    hide Holds, ReadRelaxed, IsManifestType, ManifestMedia, MediaOf;
  }

  lemma LayersRead(l: Layout, d: Value)
    ensures (exists i | 0 <= i < |LayersBelow(l, d)| :: !RelaxedLayerOk(l, LayersBelow(l, d)[i])) <==>
            !forall i | 0 <= i < |LayersBelow(l, d)| ::
               && Holds(l, LayersBelow(l, d)[i])
               && Get(l.relaxed[PathOf(LayersBelow(l, d)[i])], "predicateType").Str?
  {
    var layers := LayersBelow(l, d);
    forall i | 0 <= i < |layers|
      ensures RelaxedLayerOk(l, layers[i]) <==>
              Holds(l, layers[i]) && Get(l.relaxed[PathOf(layers[i])], "predicateType").Str?
    {
      HoldsIs(l, layers[i]);
      hide Holds, ReadRelaxed;
    }
    hide Holds, RelaxedLayerOk, LayersBelow;
  }

  // ----- findings

  lemma {:induction false} LatestAppends(a: seq<Value>, b: seq<Value>, id: string)
    ensures Latest(a + b, id) == if Latest(b, id).Some? then Latest(b, id) else Latest(a, id)
  {
    hide ImageName, Member;
    if a == [] {
      assert a + b == b;
    } else {
      assert (a + b)[1..] == a[1..] + b;
      LatestAppends(a[1..], b, id);
    }
  }

  lemma AddsCompose(l: Layout, c: Summary, a: seq<Value>, c1: Summary, b: seq<Value>, c2: Summary)
    requires Adds(l, c, a, c1) && Adds(l, c1, b, c2)
    ensures Adds(l, c, a + b, c2)
  {
    ImagesCompose(c.platforms, a, c1.platforms, b, c2.platforms);
    KeysCompose(c.predicates, a, c1.predicates, b, c2.predicates);
    KeysCompose(c.manifests, a, c1.manifests, b, c2.manifests);
    SaidCompose(l, c.predicates, a, c1.predicates, b, c2.predicates);
    AttestedCompose(c.manifests, a, c1.manifests, b, c2.manifests);
    hide AddsImages, AddsKeys, AddsSaid, AddsAttested;
  }

  lemma SaidCompose(l: Layout, m: map<string, set<string>>, a: seq<Value>, m1: map<string, set<string>>, b: seq<Value>,
                    m2: map<string, set<string>>)
    requires AddsSaid(l, m, a, m1) && AddsSaid(l, m1, b, m2)
    ensures AddsSaid(l, m, a + b, m2)
  {
    hide In, SaidIn;
    forall r, p ensures SaidIn(l, a + b, r, p) <==> SaidIn(l, a, r, p) || SaidIn(l, b, r, p) {
      SaidAppends(l, a, b, r, p);
    }
  }

  lemma SaidAppends(l: Layout, a: seq<Value>, b: seq<Value>, r: string, p: string)
    ensures SaidIn(l, a + b, r, p) <==> SaidIn(l, a, r, p) || SaidIn(l, b, r, p)
  {
    hide Refers, SaidBy;
    assert forall k | 0 <= k < |a| :: (a + b)[k] == a[k];
    assert forall k | 0 <= k < |b| :: b[k] == (a + b)[|a| + k];
  }

  lemma AttestedCompose(m: map<string, set<string>>, a: seq<Value>, m1: map<string, set<string>>, b: seq<Value>,
                        m2: map<string, set<string>>)
    requires AddsAttested(m, a, m1) && AddsAttested(m1, b, m2)
    ensures AddsAttested(m, a + b, m2)
  {
    hide In, AttestedIn;
    forall r, digest ensures AttestedIn(a + b, r, digest) <==> AttestedIn(a, r, digest) || AttestedIn(b, r, digest) {
      AttestedAppends(a, b, r, digest);
    }
  }

  lemma AttestedAppends(a: seq<Value>, b: seq<Value>, r: string, digest: string)
    ensures AttestedIn(a + b, r, digest) <==> AttestedIn(a, r, digest) || AttestedIn(b, r, digest)
  {
    hide Refers, Member;
    assert forall k | 0 <= k < |a| :: (a + b)[k] == a[k];
    assert forall k | 0 <= k < |b| :: b[k] == (a + b)[|a| + k];
  }

  lemma ImagesCompose(m: map<string, string>, a: seq<Value>, m1: map<string, string>, b: seq<Value>,
                      m2: map<string, string>)
    requires AddsImages(m, a, m1) && AddsImages(m1, b, m2)
    ensures AddsImages(m, a + b, m2)
  {
    hide Latest, Lookup;
    forall id ensures Latest(a + b, id) == if Latest(b, id).Some? then Latest(b, id) else Latest(a, id) {
      LatestAppends(a, b, id);
    }
  }

  lemma KeysCompose(m: map<string, set<string>>, a: seq<Value>, m1: map<string, set<string>>, b: seq<Value>,
                    m2: map<string, set<string>>)
    requires AddsKeys(m, a, m1) && AddsKeys(m1, b, m2)
    ensures AddsKeys(m, a + b, m2)
  {
    hide Refers;
    assert forall k | 0 <= k < |a| :: (a + b)[k] == a[k];
    assert forall k | 0 <= k < |b| :: b[k] == (a + b)[|a| + k];
  }

  lemma LatestOfOne(d: Value, id: string)
    ensures Latest([d], id) == if ImageName(d) == Some(id) then Some(Text(Member(d, "digest"))) else None
  {
    hide ImageName, Member;
    assert [d][1..] == [];
    assert Latest([d][1..], id) == None;
  }

  lemma ImageAdds(l: Layout, c: Summary, d: Value, id: string)
    requires ImageName(d) == Some(id) && d.Obj?
    ensures Adds(l, c, [d], c.(platforms := c.platforms[id := DigestOf(d)]))
  {
    assert "linux"[0] != "unknown"[0];
    assert !IsUnknown(d);
    assert DigestOf(d) == Text(Member(d, "digest"));
    forall other ensures Latest([d], other) == if ImageName(d) == Some(other) then Some(DigestOf(d)) else None {
      LatestOfOne(d, other);
    }
    hide ImageName, IsUnknown, SaidBy, DigestOf, Member, Latest;
  }

  lemma AttestationAdds(l: Layout, c: Summary, d: Value)
    requires IsUnknown(d) && ImageName(d).None? && CollectAttestation(l, c, d).Some?
    ensures Adds(l, c, [d], CollectAttestation(l, c, d).value)
  {
    HoldsIs(l, d);
    assert ReferenceOf(d).Str?;
    assert Member(Member(d, "annotations"), "vnd.docker.reference.digest") == ReferenceOf(d);
    var reference := ReferenceOf(d).s;
    assert LayersOf(l.relaxed[PathOf(d)]) == LayersBelow(l, d);
    var types := RelaxedTypes(l, LayersBelow(l, d));
    forall p ensures p in types <==> SaidBy(l, d, p) {
      TypesAre(l, c, d, p);
    }
    assert CollectAttestation(l, c, d).value ==
           c.(manifests := AddPredicates(c.manifests, reference, {DigestOf(d)}),
              predicates := AddPredicates(c.predicates, reference, types));
    forall r ensures Refers(d, r) <==> r == reference {
    }
    hide ImageName, IsUnknown, SaidBy, DigestOf, Member, Refers, CollectAttestation, Holds, ReadRelaxed, ReferenceOf,
         RelaxedTypes, LayersBelow;
    OneAttestation(l, c, d, reference, types, DigestOf(d));
  }

  lemma TypesAre(l: Layout, c: Summary, d: Value, p: string)
    requires IsUnknown(d) && CollectAttestation(l, c, d).Some?
    ensures p in RelaxedTypes(l, LayersBelow(l, d)) <==> SaidBy(l, d, p)
  {
    HoldsIs(l, d);
    assert LayersOf(l.relaxed[PathOf(d)]) == LayersBelow(l, d);
    var layers := LayersBelow(l, d);
    forall i | 0 <= i < |layers| ensures RelaxedType(l, layers[i]) == p <==> Says(l, layers[i], p) {
      assert RelaxedLayerOk(l, layers[i]);
      HoldsIs(l, layers[i]);
      hide Holds, ReadRelaxed;
    }
    hide Says, RelaxedType, LayersBelow, CollectAttestation;
  }

  lemma OneAttestation(l: Layout, c: Summary, d: Value, reference: string, types: set<string>, digest: string)
    requires ImageName(d).None? && Member(d, "digest") == Str(digest)
    requires forall r :: Refers(d, r) <==> r == reference
    requires forall p :: p in types <==> SaidBy(l, d, p)
    ensures Adds(l, c, [d], c.(manifests := AddPredicates(c.manifests, reference, {digest}),
                               predicates := AddPredicates(c.predicates, reference, types)))
  {
    hide ImageName, SaidBy, Member, Refers;
    forall id ensures Latest([d], id) == None {
      LatestOfOne(d, id);
    }
    hide Latest;
    forall r ensures RefersIn([d], r) <==> r == reference {
      assert [d][0] == d;
    }
    forall r, p
      ensures SaidIn(l, [d], r, p) <==> r == reference && p in types
      ensures AttestedIn([d], r, p) <==> r == reference && p == digest
    {
      assert [d][0] == d;
    }
    hide RefersIn, SaidIn, AttestedIn;
  }

  // ----- the walk

  /** One entry: it is collected exactly when it is readable, and then adds its leaves. */
  lemma {:induction false} EntryAdds(l: Layout, c: Summary, d: Value, stack: nat)
    ensures CollectOne(l, c, d, stack).Done? <==> Readable(l, d, stack)
    ensures Readable(l, d, stack) ==> Adds(l, c, Leaves(l, [d], stack), CollectOne(l, c, d, stack).value)
    decreases stack, 1
  {
    EntryIs(d);
    HoldsIs(l, d);
    LeavesOfOne(l, d, stack);
    hide Adds, Leaves, Holds, ReadRelaxed, PlatformKey, ImageName, Unhashable, CannotBeLookedUp, IsUnknown, Below,
         IsUnknownPlatform, IsIndexType, IsManifestType, IndexMedia, ManifestMedia, CollectAttestation, CollectAll,
         IsReadableAttestation, Member, MediaOf, PlatformOf, DigestText, PublicRegistry.PublicDigestOk;
    if d.Obj? && !CannotBeLookedUp(d) {
      if ImageName(d).Some? {
        ImageAdds(l, c, d, ImageName(d).value);
      } else if IsUnknown(d) {
        AttestationReads(l, c, d);
        if CollectAttestation(l, c, d).Some? {
          AttestationAdds(l, c, d);
        }
      } else if Holds(l, d) && stack > 0 {
        HeldIsThere(l, d);
        BelowIs(l, d);
        EntriesAdd(l, c, Below(l, d), stack - 1);
      }
    }
  }

  lemma HeldIsThere(l: Layout, d: Value)
    requires Holds(l, d)
    ensures PathOf(d) in l.relaxed
  {
  }

  lemma BelowIs(l: Layout, d: Value)
    requires PathOf(d) in l.relaxed
    ensures Below(l, d) == ChildrenOf(l.relaxed[PathOf(d)])
  {
  }

  lemma LeavesOfOne(l: Layout, d: Value, stack: nat)
    ensures Leaves(l, [d], stack) ==
            if ImageName(d).Some? || IsUnknown(d) || stack == 0 then [d] else Leaves(l, Below(l, d), stack - 1)
  {
    hide ImageName, IsUnknown, Below;
    assert [d][1..] == [];
    assert Leaves(l, [d][1..], stack) == [];
  }

  /** Main result: entries are collected exactly when each is readable, and what is found is what was
      found before with what the leaves add. */
  lemma {:induction false} EntriesAdd(l: Layout, c: Summary, items: seq<Value>, stack: nat)
    ensures CollectAll(l, c, items, stack).Done? <==> forall i | 0 <= i < |items| :: Readable(l, items[i], stack)
    ensures CollectAll(l, c, items, stack).Done? ==>
              Adds(l, c, Leaves(l, items, stack), CollectAll(l, c, items, stack).value)
    decreases stack, 2, |items|
  {
    if items == [] {
      NothingAdds(l, c);
      hide Adds;
    } else {
      EntryAdds(l, c, items[0], stack);
      LeavesSplit(l, items, stack);
      AllReadable(l, items, stack);
      hide Adds, CollectOne, Readable, ImageName, IsUnknown, Leaves;
      if Readable(l, items[0], stack) {
        var c1 := CollectOne(l, c, items[0], stack).value;
        EntriesAdd(l, c1, items[1..], stack);
        if CollectAll(l, c1, items[1..], stack).Done? {
          AddsCompose(l, c, Leaves(l, [items[0]], stack), c1, Leaves(l, items[1..], stack),
                      CollectAll(l, c1, items[1..], stack).value);
        }
      }
    }
  }

  lemma LeavesSplit(l: Layout, items: seq<Value>, stack: nat)
    requires items != []
    ensures Leaves(l, items, stack) == Leaves(l, [items[0]], stack) + Leaves(l, items[1..], stack)
  {
    LeavesOfOne(l, items[0], stack);
    hide ImageName, IsUnknown, Below;
  }

  lemma AllReadable(l: Layout, items: seq<Value>, stack: nat)
    requires items != []
    ensures (forall i | 0 <= i < |items| :: Readable(l, items[i], stack)) <==>
            Readable(l, items[0], stack) && forall i | 0 <= i < |items[1..]| :: Readable(l, items[1..][i], stack)
  {
    hide Readable;
    assert forall i | 1 <= i < |items| :: items[i] == items[1..][i - 1];
  }

  lemma NothingAdds(l: Layout, c: Summary)
    ensures Adds(l, c, [], c)
  {
  }

  // ----- the whole summary

  /** The image has a bill of materials and a provenance. */
  predicate FullyAttested(l: Layout, leaves: seq<Value>, r: string) {
    && (SaidIn(l, leaves, r, "https://spdx.dev/Document") || SaidIn(l, leaves, r, "https://cyclonedx.org/bom"))
    && (|| SaidIn(l, leaves, r, "https://slsa.dev/provenance/v0.2")
        || SaidIn(l, leaves, r, "https://slsa.dev/provenance/v1"))
  }

  /** Both images have a leaf, and exactly those two are attested, fully. */
  ghost predicate Complete(l: Layout, leaves: seq<Value>) {
    var amd64, arm64 := Latest(leaves, "linux/amd64"), Latest(leaves, "linux/arm64");
    && amd64.Some? && arm64.Some?
    && (forall r :: RefersIn(leaves, r) <==> r == amd64.value || r == arm64.value)
    && FullyAttested(l, leaves, amd64.value) && FullyAttested(l, leaves, arm64.value)
  }

  /** The root document only points at one index without a platform. */
  predicate OnlyPoints(root: Fields) {
    && Get(root, "manifests").Arr? && |Get(root, "manifests").items| == 1
    && IndexMedia(Member(Get(root, "manifests").items[0], "mediaType"))
    && Member(Get(root, "manifests").items[0], "platform") == Null
  }

  /** The descriptor whose entries are walked: none where the root's own are. */
  function Pointed(root: Fields): Option<Value> {
    if OnlyPoints(root) then Some(Get(root, "manifests").items[0]) else None
  }

  function Walked(l: Layout, root: Fields): seq<Value> {
    if Pointed(root).Some? then Below(l, Pointed(root).value)
    else if Get(root, "manifests").Arr? then Get(root, "manifests").items else []
  }

  lemma OnlyPointsIs(root: Fields)
    ensures OnlyPoints(root) <==> IsRedirect(root)
    ensures OnlyPoints(root) ==> Get(root, "manifests").items == ChildrenOf(root)
  {
    if |ChildrenOf(root)| == 1 {
      MediaTypesAre(ChildrenOf(root)[0]);
    }
    hide IndexMedia, IsIndexType;
  }

  /** What is collected from nothing is exactly what the leaves say. */
  lemma FindingsAreComplete(l: Layout, leaves: seq<Value>, c: Summary)
    requires Adds(l, EMPTY, leaves, c)
    ensures FindingsOk(c.platforms, c.predicates) && c.manifests.Keys == c.platforms.Values <==> Complete(l, leaves)
  {
    PlatformsAreLinux(l, leaves, c);
    KeysAre(l, leaves, c);
    forall r | r in c.predicates ensures CompletePredicates(c.predicates[r]) <==> FullyAttested(l, leaves, r) {
      PredicatesAre(l, leaves, c, r);
    }
    FindingsOkIs(c.platforms, c.predicates);
    CompleteIs(l, leaves);
    ExactlyThose(c.platforms, "linux/amd64", "linux/arm64", c.predicates.Keys, c.manifests.Keys,
                 r => RefersIn(leaves, r), r => FullyAttested(l, leaves, r));
    hide *;
  }

  /** Two keys with their values, and two sets that hold what is referred to: both keys are there and
      both sets are the values exactly when just the values are referred to. */
  lemma ExactlyThose(m: map<string, string>, a: string, b: string, keys: set<string>, others: set<string>,
                     refers: string -> bool, full: string -> bool)
    requires a != b && forall id | id in m :: id == a || id == b
    requires forall r :: r in keys <==> refers(r)
    requires forall r :: r in others <==> refers(r)
    ensures m.Keys == {a, b} && keys == m.Values && others == m.Values && (forall r | r in keys :: full(r)) <==>
            && Lookup(m, a).Some? && Lookup(m, b).Some?
            && (forall r :: refers(r) <==> r == Lookup(m, a).value || r == Lookup(m, b).value)
            && full(Lookup(m, a).value) && full(Lookup(m, b).value)
  {
    TwoValues(m, a, b);
  }

  lemma TwoValues(m: map<string, string>, a: string, b: string)
    requires forall id | id in m :: id == a || id == b
    ensures m.Keys == {a, b} <==> a in m && b in m
    ensures a in m && b in m ==> forall r :: r in m.Values <==> r == m[a] || r == m[b]
  {
  }

  lemma FindingsOkIs(platforms: map<string, string>, attestations: map<string, set<string>>)
    ensures FindingsOk(platforms, attestations) <==>
            && platforms.Keys == {"linux/amd64", "linux/arm64"}
            && attestations.Keys == platforms.Values
            && forall r | r in attestations :: CompletePredicates(attestations[r])
  {
    hide CompletePredicates;
  }

  lemma CompleteIs(l: Layout, leaves: seq<Value>)
    ensures Complete(l, leaves) <==>
            var amd64, arm64 := Latest(leaves, "linux/amd64"), Latest(leaves, "linux/arm64");
            && amd64.Some? && arm64.Some?
            && (forall r :: RefersIn(leaves, r) <==> r == amd64.value || r == arm64.value)
            && FullyAttested(l, leaves, amd64.value) && FullyAttested(l, leaves, arm64.value)
  {
    hide RefersIn, Latest, FullyAttested;
  }

  lemma KeysAre(l: Layout, leaves: seq<Value>, c: Summary)
    requires Adds(l, EMPTY, leaves, c)
    ensures forall r :: r in c.predicates <==> RefersIn(leaves, r)
    ensures forall r :: r in c.manifests <==> RefersIn(leaves, r)
  {
    hide RefersIn, SaidIn, AttestedIn, AddsImages;
  }

  lemma PlatformsAreLinux(l: Layout, leaves: seq<Value>, c: Summary)
    requires Adds(l, EMPTY, leaves, c)
    ensures forall id | id in c.platforms :: id == "linux/amd64" || id == "linux/arm64"
    ensures Lookup(c.platforms, "linux/amd64") == Latest(leaves, "linux/amd64")
    ensures Lookup(c.platforms, "linux/arm64") == Latest(leaves, "linux/arm64")
  {
    hide Latest;
    forall id | id in c.platforms ensures id == "linux/amd64" || id == "linux/arm64" {
      assert Lookup(c.platforms, id).Some?;
      LatestIsLinux(leaves, id);
    }
  }

  lemma {:induction false} LatestIsLinux(leaves: seq<Value>, id: string)
    requires Latest(leaves, id).Some?
    ensures id == "linux/amd64" || id == "linux/arm64"
  {
    if Latest(leaves[1..], id).Some? {
      LatestIsLinux(leaves[1..], id);
    }
  }

  lemma PredicatesAre(l: Layout, leaves: seq<Value>, c: Summary, r: string)
    requires Adds(l, EMPTY, leaves, c) && r in c.predicates
    ensures CompletePredicates(c.predicates[r]) <==> FullyAttested(l, leaves, r)
  {
    forall p ensures p in c.predicates[r] <==> SaidIn(l, leaves, r, p) {
      assert In(c.predicates, r, p) <==> In(EMPTY.predicates, r, p) || SaidIn(l, leaves, r, p);
      hide SaidIn, AddsImages, AddsKeys, AttestedIn;
    }
    hide Adds, SaidIn;
  }

  /** Main result: the second walk returns exactly when the layout file is right, the root can be read
      and points at entries that can all be read within the stack, and the leaves are complete; it
      then returns what the leaves say, under the digest of the index that was walked. */
  lemma SummarizesExactly(l: Layout, stack: nat)
    ensures Summarize(l, stack).Done? <==>
            && "oci/oci-layout" in l.relaxed
            && l.relaxed["oci/oci-layout"] == map["imageLayoutVersion" := Str("1.0.0")]
            && "oci/index.json" in l.relaxed && "oci/index.json" in l.files
            && var root := l.relaxed["oci/index.json"];
               && (Pointed(root).Some? ==> Holds(l, Pointed(root).value))
               && Walked(l, root) != []
               && (forall i | 0 <= i < |Walked(l, root)| :: Readable(l, Walked(l, root)[i], stack))
               && Complete(l, Leaves(l, Walked(l, root), stack))
    ensures Summarize(l, stack).Done? ==>
              var root := l.relaxed["oci/index.json"];
              && Adds(l, EMPTY, Leaves(l, Walked(l, root), stack), Summarize(l, stack).value.found)
              && Str(Summarize(l, stack).value.digest) ==
                 if Pointed(root).Some? then Member(Pointed(root).value, "digest")
                 else Str("sha256:" + l.files["oci/index.json"].sha256)
  {
    hide Adds, Complete, Readable, Leaves, Below, CollectAll, ReadRelaxed, Holds, FindingsOk, OnlyPoints, IsRedirect,
         DigestOf, Member;
    if "oci/index.json" in l.relaxed {
      var root := l.relaxed["oci/index.json"];
      OnlyPointsIs(root);
      if OnlyPoints(root) {
        HoldsIs(l, Pointed(root).value);
        if Holds(l, Pointed(root).value) {
          HeldIsThere(l, Pointed(root).value);
          BelowIs(l, Pointed(root).value);
        }
      }
      EntriesAdd(l, EMPTY, Walked(l, root), stack);
      if CollectAll(l, EMPTY, Walked(l, root), stack).Done? {
        FindingsAreComplete(l, Leaves(l, Walked(l, root), stack), CollectAll(l, EMPTY, Walked(l, root), stack).value);
      }
    }
  }
}
