/** tools/docs_publication.py's third walk, over the manifests a public registry serves.  It is
    recursive, merges maps instead of filling them, and bounds depth and width differently. */
module PublicRegistry {
  import opened Wrappers
  import opened Json
  import opened OciLayout
  import opened OciVerify
  import opened OciReach
  import opened RegistrySummary
  import opened RegistryAgreement

  /** One registry answer: its bytes by length and SHA-256, and the object they parse to. */
  datatype Fetched = Fetched(sha256: string, size: nat, doc: Option<Fields>)

  /** A registry answers a digest or tag, or the request raises. */
  type Registry = string -> Option<Fetched>

  const MAX_REGISTRY_DEPTH := 4
  const MAX_REGISTRY_ENTRIES := 64

  /** Bytes with the digest of a local file are that file's bytes, so they parse alike. */
  ghost predicate Genuine(l: Layout, reg: Registry) {
    forall reference, p | p in l.files && p in l.strict ::
      reg(reference).Some? && reg(reference).value.sha256 == l.files[p].sha256
      && reg(reference).value.doc.Some? ==>
        reg(reference).value.doc.value == l.strict[p]
  }

  predicate SizeEquals(v: Value, n: nat) {
    match v
    case Int(k) => k == n
    case Bool(flag) => (if flag then 1 else 0) == n
    case Float(r) => r == n as real
    case _ => false
  }

  predicate PublicDigestOk(d: Value) {
    d.Obj? && Get(d.fields, "digest").Str? && IsDigest(DigestOf(d))
  }

  /** The nested index behind a descriptor, when the registry serves exactly those bytes. */
  function Child(reg: Registry, d: Value): Option<Fetched> {
    var child :- reg(DigestOf(d));
    if "sha256:" + child.sha256 == DigestOf(d) && SizeEquals(Get(FieldsOf(d), "size"), child.size)
    then Some(child) else None
  }

  function Merge(m: map<string, string>, nested: map<string, string>): Option<map<string, string>> {
    if m.Keys !! nested.Keys then Some(m + nested) else None
  }

  function PublicOne(reg: Registry, m: map<string, string>, d: Value, depth: nat): Option<map<string, string>>
    requires depth <= MAX_REGISTRY_DEPTH
    decreases MAX_REGISTRY_DEPTH + 1 - depth, 0
  {
    if !PublicDigestOk(d) || Unhashable(PlatformOf(d)) then None
    else if PlatformKey(PlatformOf(d)).Some? then
      var name := PlatformKey(PlatformOf(d)).value;
      if !IsManifestType(MediaOf(d)) || name in m then None else Some(m[name := DigestOf(d)])
    else if IsUnknownPlatform(PlatformOf(d)) then
      if IsManifestType(MediaOf(d)) then Some(m) else None
    else if IsIndexType(MediaOf(d)) then
      var child :- Child(reg, d);
      var nested :- RegistryPlatforms(reg, child.doc, depth + 1);
      Merge(m, nested)
    else None
  }

  function PublicAll(reg: Registry, m: map<string, string>, items: seq<Value>, depth: nat): Option<map<string, string>>
    requires depth <= MAX_REGISTRY_DEPTH
    decreases MAX_REGISTRY_DEPTH + 1 - depth, 1, |items|
  {
    if items == [] then Some(m) else
    var m1 :- PublicOne(reg, m, items[0], depth);
    PublicAll(reg, m1, items[1..], depth)
  }

  /** _registry_platforms */
  function RegistryPlatforms(reg: Registry, doc: Option<Fields>, depth: nat): Option<map<string, string>>
    decreases MAX_REGISTRY_DEPTH + 1 - depth, 2
  {
    if depth > MAX_REGISTRY_DEPTH then None else
    var document :- doc;
    if 0 < |ChildrenOf(document)| <= MAX_REGISTRY_ENTRIES
    then PublicAll(reg, map[], ChildrenOf(document), depth)
    else None
  }

  method ReadPlatforms(reg: Registry, doc: Option<Fields>, depth: nat) returns (r: Option<map<string, string>>)
    ensures r == RegistryPlatforms(reg, doc, depth)
    decreases MAX_REGISTRY_DEPTH + 1 - depth
  {
    hide PublicDigestOk, Unhashable, PlatformKey, IsManifestType, IsIndexType, IsUnknownPlatform, Child, Merge;
    if depth > MAX_REGISTRY_DEPTH || doc.None? {
      return None;
    }
    var items := ChildrenOf(doc.value);
    if !(0 < |items| <= MAX_REGISTRY_ENTRIES) {
      return None;
    }
    var platforms := map[];
    for i := 0 to |items|
      invariant PublicAll(reg, map[], items, depth) == PublicAll(reg, platforms, items[i..], depth)
    {
      var d := items[i];
      assert items[i..][0] == d && items[i..][1..] == items[i + 1..];
      if !PublicDigestOk(d) || Unhashable(PlatformOf(d)) {
        return None;
      }
      var key := PlatformKey(PlatformOf(d));
      if key.Some? {
        if !IsManifestType(MediaOf(d)) || key.value in platforms {
          return None;
        }
        platforms := platforms[key.value := DigestOf(d)];
      } else if IsUnknownPlatform(PlatformOf(d)) {
        if !IsManifestType(MediaOf(d)) {
          return None;
        }
      } else if IsIndexType(MediaOf(d)) {
        var child := Child(reg, d);
        if child.None? {
          return None;
        }
        var nested := ReadPlatforms(reg, child.value.doc, depth + 1);
        var merged := if nested.None? then None else Merge(platforms, nested.value);
        if merged.None? {
          return None;
        }
        platforms := merged.value;
      } else {
        return None;
      }
    }
    r := Some(platforms);
  }

  // ----- agreement with the first walk

  /** The platforms a stretch of the first walk adds. */
  function Added(before: map<string, string>, after: map<string, string>): map<string, string> {
    map id | id in after && id !in before :: after[id]
  }

  /** An image or attestation contributes the same to both walks, when the third accepts it. */
  lemma LeafEntry(l: Layout, reg: Registry, d: Value, m: map<string, string>, depth: nat)
    requires depth <= MAX_REGISTRY_DEPTH
    requires KindOf(l, d).Some? && !KindOf(l, d).value.Nested?
    requires PublicOne(reg, m, d, depth).Some?
    ensures match KindOf(l, d).value
            case Runnable(id) => id !in m && PublicOne(reg, m, d, depth).value == m[id := DigestOf(d)]
            case _ => PublicOne(reg, m, d, depth).value == m
  {
    hide DescriptorOk, HeaderOk, ConfigOk, ConfigPlatform, IsManifestType, IsIndexType, LabelsOk, RunnableLayersOk,
         StatementLayerOk, Child;
    TypesDisjoint(MediaOf(d));
  }

  /** A nested index: the registry serves the local document, and both walks descend into it. */
  lemma NestedPublicEntry(l: Layout, reg: Registry, d: Value, m: map<string, string>, depth: nat)
    requires Genuine(l, reg) && depth <= MAX_REGISTRY_DEPTH
    requires KindOf(l, d).Some? && KindOf(l, d).value.Nested?
    requires exists added :: ClaimOk(PlatformOf(d), added)
    requires PublicOne(reg, m, d, depth).Some?
    ensures depth < MAX_REGISTRY_DEPTH
    ensures var nested := PublicAll(reg, map[], Children(l, d), depth + 1);
            nested.Some? && m.Keys !! nested.value.Keys && PublicOne(reg, m, d, depth).value == m + nested.value
  {
    hide HeaderOk, ManifestKind, IsManifestType, IsIndexType, EmbeddedOk, PublicAll;
    TypesDisjoint(MediaOf(d));
    var child := Child(reg, d).value;
    assert child.sha256 == HexOf(DigestOf(d)) by {
      assert ("sha256:" + child.sha256)[7..] == child.sha256;
    }
    assert l.files[PathOf(d)].sha256 == child.sha256;
  }

  /** Additions compose along the walk, because the walk never forgets a platform. */
  lemma AddedTwice(m: map<string, string>, a: map<string, string>, b: map<string, string>, c: map<string, string>)
    requires a.Keys <= b.Keys && forall id | id in a :: b[id] == a[id]
    requires b.Keys <= c.Keys && forall id | id in b :: c[id] == b[id]
    ensures m + Added(a, b) + Added(b, c) == m + Added(a, c)
  {
  }

  lemma AddedOne(m: map<string, string>, a: map<string, string>, id: string, digest: string)
    ensures id !in a ==> m + Added(a, a[id := digest]) == m[id := digest]
    ensures m + Added(a, a) == m
    ensures map[] + m == m
  {
  }

  lemma {:induction false} PublicLockstep(l: Layout, reg: Registry, w: Walk, items: seq<Value>, depth: nat,
                                          m: map<string, string>, k: nat)
    requires Genuine(l, reg) && k <= MAX_REGISTRY_DEPTH
    requires Nodes(l, w, items, depth).Some? && PublicAll(reg, m, items, k).Some?
    ensures PublicAll(reg, m, items, k).value == m + Added(w.platforms, Nodes(l, w, items, depth).value.platforms)
    decreases MAX_DEPTH + 1 - depth, |items|
  {
    hide Node, Named, Paths, ClaimOk, Children, KindOf, PublicOne, Genuine, Added, AddPredicates;
    if items == [] {
      AddedOne(m, w.platforms, "", "");
    } else {
      var d := items[0];
      var w1, m1 := Node(l, w, d, depth).value, PublicOne(reg, m, d, k).value;
      PublicStep(l, reg, w, d, depth, m, k);
      PublicLockstep(l, reg, w1, items[1..], depth, m1, k);
      KeepsNode(l, w, d, depth);
      Keeps(l, w1, items[1..], depth);
      AddedTwice(m, w.platforms, w1.platforms, Nodes(l, w, items, depth).value.platforms);
    }
  }

  lemma {:induction false} PublicStep(l: Layout, reg: Registry, w: Walk, d: Value, depth: nat,
                                      m: map<string, string>, k: nat)
    requires Genuine(l, reg) && k <= MAX_REGISTRY_DEPTH
    requires Node(l, w, d, depth).Some? && PublicOne(reg, m, d, k).Some?
    ensures PublicOne(reg, m, d, k).value == m + Added(w.platforms, Node(l, w, d, depth).value.platforms)
    decreases MAX_DEPTH + 1 - depth, 0
  {
    hide Node, Nodes, Named, Paths, ClaimOk, Children, KindOf, PublicOne, PublicAll, Genuine, Added, AddPredicates;
    NodeSteps(l, w, d, depth);
    match KindOf(l, d).value {
      case Nested(children) =>
        NestedPublicEntry(l, reg, d, m, k);
        PublicLockstep(l, reg, Entered(l, w, d), children, depth + 1, map[], k + 1);
        AddedOne(Added(w.platforms, Node(l, w, d, depth).value.platforms), map[], "", "");
      case Runnable(id) =>
        LeafEntry(l, reg, d, m, k);
        AddedOne(m, w.platforms, id, DigestOf(d));
      case Attests(_, _) =>
        LeafEntry(l, reg, d, m, k);
        AddedOne(m, w.platforms, "", "");
    }
  }

  /** Main result: what verify_public_ghcr reads from the registry under the published digest or
      tag, when the third walk accepts it, is the platform map of the accepted layout. */
  lemma PublicPlatformsAgree(l: Layout, reg: Registry, stack: nat, reference: string)
    requires OneCodec(l) && Genuine(l, reg)
    requires Verify(l).Some? && Summarize(l, stack).Done?
    requires reg(reference).Some?
    requires "sha256:" + reg(reference).value.sha256 == Summarize(l, stack).value.digest
    requires RegistryPlatforms(reg, reg(reference).value.doc, 0).Some?
    ensures RegistryPlatforms(reg, reg(reference).value.doc, 0).value == Summarize(l, stack).value.found.platforms
  {
    hide Nodes, BlobsPresent, CollectAll, PublicAll, FindingsOk, Verify, Summarize, Genuine, SelectedItems;
    SummarizeUnfolds(l, stack);
    SummaryAgrees(l, stack);
    var w, depth := SelectedWalk(l);
    PublishedDocument(l, reg, stack, reference);
    PublicLockstep(l, reg, w, SelectedItems(l), depth, map[], 0);
    assert Added(map[], Verify(l).value.platforms) == Verify(l).value.platforms;
  }

  /** The bytes under the published digest are the document the second walk started from. */
  lemma PublishedDocument(l: Layout, reg: Registry, stack: nat, reference: string)
    requires OneCodec(l) && Genuine(l, reg)
    requires Verify(l).Some? && Summarize(l, stack).Done?
    requires reg(reference).Some? && reg(reference).value.doc.Some?
    requires "sha256:" + reg(reference).value.sha256 == Summarize(l, stack).value.digest
    ensures ChildrenOf(reg(reference).value.doc.value) == SelectedItems(l)
  {
    hide Nodes, BlobsPresent, CollectAll, FindingsOk, KindOf, Summarize;
    var f := reg(reference).value;
    SummarizeUnfolds(l, stack);
    assert ("sha256:" + f.sha256)[7..] == f.sha256;
    if IsRedirect(l.strict[INDEX_FILE]) {
      RedirectHasChildren(l);
      RedirectIsNested(l);
      var d := Roots(l)[0];
      assert f.sha256 == HexOf(DigestOf(d)) == l.files[PathOf(d)].sha256;
    } else {
      assert ("sha256:" + l.files[INDEX_FILE].sha256)[7..] == l.files[INDEX_FILE].sha256;
    }
  }

  // ----- when the third walk succeeds

  /** What the third walk asks of one entry: an image or attestation states its platform; a nested
      index states none, is served under its digest and parsed, and has no more than 64 entries. */
  predicate Served(l: Layout, reg: Registry, d: Value) {
    && KindOf(l, d).Some?
    && match KindOf(l, d).value
       case Nested(children) =>
         && PlatformOf(d) == Null
         && Child(reg, d).Some? && Child(reg, d).value.doc.Some?
         && |children| <= MAX_REGISTRY_ENTRIES
       case _ => PlatformOf(d) != Null
  }

  /** Every entry below these is served, within so many levels. */
  ghost predicate AllServed(l: Layout, reg: Registry, items: seq<Value>, levels: int) {
    forall r | Route(l, items, r) :: |r| <= levels && Served(l, reg, At(l, items, r))
  }

  /** No platform that this stretch of the first walk adds is in the map yet. */
  ghost predicate Room(m: map<string, string>, before: map<string, string>, after: map<string, string>) {
    forall id | id in m && id in after :: id in before
  }

  /** An image or attestation passes the third walk exactly when it states its platform. */
  lemma LeafPasses(l: Layout, reg: Registry, d: Value, m: map<string, string>, depth: nat)
    requires depth <= MAX_REGISTRY_DEPTH
    requires KindOf(l, d).Some? && !KindOf(l, d).value.Nested?
    ensures PublicOne(reg, m, d, depth).Some? <==>
            Served(l, reg, d) && (KindOf(l, d).value.Runnable? ==> KindOf(l, d).value.identity !in m)
  {
    hide DescriptorOk, HeaderOk, ConfigOk, ConfigPlatform, IsManifestType, IsIndexType, LabelsOk, RunnableLayersOk,
         StatementLayerOk, Child;
    TypesDisjoint(MediaOf(d));
    assert IsDigest(DigestOf(d)) by { DescribedDigest(l, d); }
  }

  lemma DescribedDigest(l: Layout, d: Value)
    requires KindOf(l, d).Some?
    ensures IsDigest(DigestOf(d)) && PublicDigestOk(d)
  {
    hide HeaderOk, ManifestKind;
  }

  /** A nested index passes exactly when it is served and its entries pass one level down. */
  lemma NestedPasses(l: Layout, reg: Registry, d: Value, m: map<string, string>, depth: nat)
    requires Genuine(l, reg) && depth <= MAX_REGISTRY_DEPTH
    requires KindOf(l, d).Some? && KindOf(l, d).value.Nested?
    requires exists added :: ClaimOk(PlatformOf(d), added)
    ensures PublicOne(reg, m, d, depth).Some? ==> depth < MAX_REGISTRY_DEPTH && Served(l, reg, d)
    ensures depth < MAX_REGISTRY_DEPTH && Served(l, reg, d) ==>
              var nested := PublicAll(reg, map[], Children(l, d), depth + 1);
              PublicOne(reg, m, d, depth).Some? <==> nested.Some? && m.Keys !! nested.value.Keys
  {
    hide HeaderOk, ManifestKind, IsManifestType, IsIndexType, EmbeddedOk, PublicAll;
    TypesDisjoint(MediaOf(d));
    if Child(reg, d).Some? {
      var child := Child(reg, d).value;
      assert child.sha256 == HexOf(DigestOf(d)) by {
        assert ("sha256:" + child.sha256)[7..] == child.sha256;
      }
      assert l.files[PathOf(d)].sha256 == child.sha256;
    }
  }

  lemma ServedBelow(l: Layout, reg: Registry, items: seq<Value>, levels: int)
    requires items != [] && AllServed(l, reg, items, levels)
    ensures levels > 0 && Served(l, reg, items[0])
    ensures AllServed(l, reg, items[1..], levels)
    ensures AllServed(l, reg, Children(l, items[0]), levels - 1)
  {
    hide Children, Served;
    assert Route(l, items, [0]) && At(l, items, [0]) == items[0];
    forall r | Route(l, items[1..], r)
      ensures |r| <= levels && Served(l, reg, At(l, items[1..], r))
    {
      RoutePast(l, items, r);
    }
    forall r | Route(l, Children(l, items[0]), r)
      ensures |r| <= levels - 1 && Served(l, reg, At(l, Children(l, items[0]), r))
    {
      RouteInto(l, items, r);
    }
  }

  lemma {:induction false} ServedSuffices(l: Layout, reg: Registry, w: Walk, items: seq<Value>, depth: nat,
                                          m: map<string, string>, k: nat)
    requires Genuine(l, reg) && k <= MAX_REGISTRY_DEPTH
    requires Nodes(l, w, items, depth).Some?
    requires AllServed(l, reg, items, MAX_REGISTRY_DEPTH + 1 - k)
    requires Room(m, w.platforms, Nodes(l, w, items, depth).value.platforms)
    ensures PublicAll(reg, m, items, k).Some?
    decreases MAX_DEPTH + 1 - depth, |items|
  {
    hide Node, Named, Paths, ClaimOk, Children, KindOf, PublicOne, Genuine, Added, AllServed, Served;
    if items != [] {
      var d := items[0];
      var w1 := Node(l, w, d, depth).value;
      var w2 := Nodes(l, w1, items[1..], depth).value;
      ServedBelow(l, reg, items, MAX_REGISTRY_DEPTH + 1 - k);
      KeepsNode(l, w, d, depth);
      Keeps(l, w1, items[1..], depth);
      NodeServed(l, reg, w, d, depth, m, k);
      PublicStep(l, reg, w, d, depth, m, k);
      RoomAfter(m, w.platforms, w1.platforms, w2.platforms);
      ServedSuffices(l, reg, w1, items[1..], depth, PublicOne(reg, m, d, k).value, k);
    }
  }

  lemma RoomAfter(m: map<string, string>, a: map<string, string>, b: map<string, string>, c: map<string, string>)
    requires a.Keys <= b.Keys <= c.Keys && Room(m, a, c)
    ensures Room(m + Added(a, b), b, c)
  {
  }

  lemma {:induction false} NodeServed(l: Layout, reg: Registry, w: Walk, d: Value, depth: nat,
                                      m: map<string, string>, k: nat)
    requires Genuine(l, reg) && k <= MAX_REGISTRY_DEPTH
    requires Node(l, w, d, depth).Some?
    requires Served(l, reg, d) && AllServed(l, reg, Children(l, d), MAX_REGISTRY_DEPTH - k)
    requires Room(m, w.platforms, Node(l, w, d, depth).value.platforms)
    ensures PublicOne(reg, m, d, k).Some?
    decreases MAX_DEPTH + 1 - depth, 0
  {
    hide Node, Nodes, Named, Paths, ClaimOk, Children, KindOf, PublicOne, PublicAll, Genuine, AllServed, Served,
         AddPredicates;
    NodeSteps(l, w, d, depth);
    match KindOf(l, d).value {
      case Nested(children) =>
        NestedIsNotEmpty(l, reg, d, MAX_REGISTRY_DEPTH - k);
        var inner := Nodes(l, Entered(l, w, d), children, depth + 1).value;
        ServedSuffices(l, reg, Entered(l, w, d), children, depth + 1, map[], k + 1);
        PublicLockstep(l, reg, Entered(l, w, d), children, depth + 1, map[], k + 1);
        AddedOne(Added(w.platforms, inner.platforms), map[], "", "");
        NestedPasses(l, reg, d, m, k);
      case _ => LeafPasses(l, reg, d, m, k);
    }
  }

  lemma NestedIsNotEmpty(l: Layout, reg: Registry, d: Value, levels: int)
    requires KindOf(l, d).Some? && KindOf(l, d).value.Nested?
    requires AllServed(l, reg, Children(l, d), levels)
    ensures levels > 0
  {
    assert Children(l, d) != [] by {
      hide DescriptorOk, HeaderOk, ManifestKind, IsManifestType, Served;
    }
    hide KindOf, Served, Children;
    assert Route(l, Children(l, d), [0]);
  }

  lemma {:induction false} ServedIsNeeded(l: Layout, reg: Registry, w: Walk, items: seq<Value>, depth: nat,
                                          m: map<string, string>, k: nat, r: seq<nat>)
    requires Genuine(l, reg) && k <= MAX_REGISTRY_DEPTH
    requires Nodes(l, w, items, depth).Some? && PublicAll(reg, m, items, k).Some?
    requires Route(l, items, r)
    ensures k + |r| <= MAX_REGISTRY_DEPTH + 1 && Served(l, reg, At(l, items, r))
    decreases MAX_DEPTH + 1 - depth, |items|
  {
    hide Node, Named, Paths, ClaimOk, Children, KindOf, PublicOne, Genuine, Served, AddPredicates;
    var d := items[0];
    NodeSteps(l, w, d, depth);
    if r[0] > 0 {
      RouteTail(l, items, r);
      ServedIsNeeded(l, reg, Node(l, w, d, depth).value, items[1..], depth, PublicOne(reg, m, d, k).value, k,
                     [r[0] - 1] + r[1..]);
    } else {
      match KindOf(l, d).value {
        case Nested(children) =>
          NestedPasses(l, reg, d, m, k);
          if |r| > 1 {
            ServedIsNeeded(l, reg, Entered(l, w, d), children, depth + 1, map[], k + 1, r[1..]);
          }
        case _ => LeafPasses(l, reg, d, m, k);
      }
    }
  }

  /** Main result: on a layout both local walks accept, reading the published bytes back from a
      genuine registry succeeds exactly when those bytes parse, no index has more than 64 entries,
      no route from there is longer than five, and the registry serves every nested index it
      meets; the platforms need no further condition. */
  lemma PublicSucceedsExactly(l: Layout, reg: Registry, stack: nat, reference: string)
    requires OneCodec(l) && Genuine(l, reg)
    requires Verify(l).Some? && Summarize(l, stack).Done?
    requires reg(reference).Some?
    requires "sha256:" + reg(reference).value.sha256 == Summarize(l, stack).value.digest
    ensures RegistryPlatforms(reg, reg(reference).value.doc, 0).Some? <==>
            && reg(reference).value.doc.Some?
            && |SelectedItems(l)| <= 64
            && forall r | Route(l, SelectedItems(l), r) ::
                 |r| <= 5 && IndexServed(l, reg, At(l, SelectedItems(l), r))
  {
    hide Nodes, BlobsPresent, CollectAll, PublicAll, FindingsOk, Verify, Summarize, Genuine, SelectedItems, Served,
         KindOf, Explicit, IndexServed;
    var items := SelectedItems(l);
    SummarizeUnfolds(l, stack);
    var w, depth := SelectedWalk(l);
    if reg(reference).value.doc.Some? {
      PublishedDocument(l, reg, stack, reference);
      SelectedNotEmpty(l);
      forall r | Route(l, items, r)
        ensures Served(l, reg, At(l, items, r)) <==> IndexServed(l, reg, At(l, items, r))
      {
        ExplicitIsNeeded(l, w, items, depth, EMPTY, stack, r);
        ExplicitIsServed(l, reg, At(l, items, r));
      }
      if AllServed(l, reg, items, MAX_REGISTRY_DEPTH + 1) {
        ServedSuffices(l, reg, w, items, depth, map[], 0);
      }
      if PublicAll(reg, map[], items, 0).Some? {
        forall r | Route(l, items, r) ensures |r| <= MAX_REGISTRY_DEPTH + 1 && Served(l, reg, At(l, items, r)) {
          ServedIsNeeded(l, reg, w, items, depth, map[], 0, r);
        }
      }
    }
  }

  /** A nested index the registry serves, with no more than 64 entries. */
  predicate IndexServed(l: Layout, reg: Registry, d: Value) {
    KindOf(l, d).Some? && KindOf(l, d).value.Nested? ==>
      && Child(reg, d).Some? && Child(reg, d).value.doc.Some?
      && |KindOf(l, d).value.children| <= 64
  }

  /** What the second walk needs of a descriptor's platform is what the third one needs. */
  lemma ExplicitIsServed(l: Layout, reg: Registry, d: Value)
    requires Explicit(l, d)
    ensures Served(l, reg, d) <==> IndexServed(l, reg, d)
  {
    hide KindOf, Child;
  }

  lemma SelectedNotEmpty(l: Layout)
    requires OneCodec(l) && Verify(l).Some?
    ensures SelectedItems(l) != []
  {
    hide Nodes, BlobsPresent, FindingsOk, KindOf;
    if IsRedirect(l.strict[INDEX_FILE]) {
      RedirectHasChildren(l);
    }
  }
}
