/** When tools/candidate_inventory.py accepts an OCI layout, said of the graph alone: which routes
    there are, what their entries are, how many descriptors they name, and which blobs exist. */
module OciExactly {
  import opened Wrappers
  import opened Json
  import opened OciLayout
  import opened OciVerify
  import opened OciReach
  import opened RegistryAgreement

  /** How many descriptors are named below these entries, within so many levels, a shared node
      counting once for every route to it. */
  function Cost(l: Layout, items: seq<Value>, levels: nat): nat
    decreases levels, |items|
  {
    if items == [] || levels == 0 then 0
    else |Named(l, items[0])| + Cost(l, Children(l, items[0]), levels - 1) + Cost(l, items[1..], levels)
  }

  ghost predicate Reaches(l: Layout, items: seq<Value>, identity: string) {
    exists r | Route(l, items, r) :: KindOf(l, At(l, items, r)) == Some(Runnable(identity))
  }

  predicate Refers(kind: Option<Kind>, reference: string) {
    kind.Some? && kind.value.Attests? && kind.value.reference == reference
  }

  ghost predicate ReachesReference(l: Layout, items: seq<Value>, reference: string) {
    exists r | Route(l, items, r) :: Refers(KindOf(l, At(l, items, r)), reference)
  }

  /** An index claims no platform, or one of the two that is the only one its images run on. */
  ghost predicate ClaimHolds(l: Layout, d: Value) {
    KindOf(l, d).Some? && KindOf(l, d).value.Nested? && PlatformOf(d) != Null ==>
      && PlatformOf(d).Obj?
      && exists architecture | architecture in {"amd64", "arm64"} ::
           && Get(PlatformOf(d).fields, "os") == Str("linux")
           && Get(PlatformOf(d).fields, "architecture") == Str(architecture)
           && forall id :: Reaches(l, Children(l, d), id) <==> id == "linux/" + architecture
  }

  /** What must hold of the entry at the end of one route. */
  ghost predicate EntryFine(l: Layout, w: Walk, items: seq<Value>, depth: nat, r: seq<nat>)
    requires Route(l, items, r)
  {
    var d := At(l, items, r);
    && depth + |r| <= 33
    && KindOf(l, d).Some?
    && Distinct(Trail(l, items, r))
    && (forall i | 0 <= i < |Trail(l, items, r)| :: Trail(l, items, r)[i] !in w.visiting)
    && ClaimHolds(l, d)
    && (KindOf(l, d).value.Runnable? ==> KindOf(l, d).value.identity !in w.platforms)
  }

  /** No platform is reached on two routes. */
  ghost predicate OneRouteEach(l: Layout, items: seq<Value>) {
    forall r, s | Route(l, items, r) && Route(l, items, s) ::
      SameRunnable(KindOf(l, At(l, items, r)), KindOf(l, At(l, items, s))) ==> r == s
  }

  predicate SameRunnable(a: Option<Kind>, b: Option<Kind>) {
    a.Some? && a.value.Runnable? && a == b
  }

  ghost predicate Walkable(l: Layout, w: Walk, items: seq<Value>, depth: nat) {
    && depth <= 33
    && (forall r | Route(l, items, r) :: EntryFine(l, w, items, depth, r))
    && OneRouteEach(l, items)
    && w.descriptors + Cost(l, items, 33 - depth) <= 10000
  }

  // ----- an entry whose steps are fine is accepted

  lemma StepsAreNode(l: Layout, w: Walk, d: Value, depth: nat, w': Walk)
    requires Steps(l, w, d, depth, w')
    ensures Node(l, w, d, depth) == Some(w')
  {
    hide DescriptorOk, ManifestKind, ManifestNames, Paths, IsIndexType, IsManifestType, Nodes, ClaimOk, AddPredicates,
         HeaderOk;
    TypesDisjoint(MediaOf(d));
    var doc := StrictDoc(l, d).value;
    assert w.visiting + {DigestOf(d)} - {DigestOf(d)} == w.visiting;
    ChargeAppend(w, [d], Subject(doc));
    if !IsIndexType(MediaOf(d)) {
      ChargeAppend(w, [d] + Subject(doc), ManifestNames(l, doc));
    } else {
      assert Named(l, d) == [d] + Subject(doc);
    }
    if Charge(w, [d]).Some? && Charge(Charge(w, [d]).value, Subject(doc)).Some? {
      ChargedHeader(l, w, d, doc);
    }
  }

  // ----- what an accepted stretch adds

  lemma {:induction false} CostIs(l: Layout, w: Walk, items: seq<Value>, depth: nat)
    requires Nodes(l, w, items, depth).Some? && depth <= 33
    ensures Nodes(l, w, items, depth).value.descriptors == w.descriptors + Cost(l, items, 33 - depth)
    decreases MAX_DEPTH + 1 - depth, |items|
  {
    hide Node, KindOf, Named, Paths, ClaimOk, Children, AddPredicates;
    if items != [] {
      DeepIndexIsEmpty(l, w, items, depth);
      CostOfNode(l, w, items[0], depth);
      CostIs(l, Node(l, w, items[0], depth).value, items[1..], depth);
    }
  }

  lemma {:induction false} CostOfNode(l: Layout, w: Walk, d: Value, depth: nat)
    requires Node(l, w, d, depth).Some? && depth <= 32
    ensures Node(l, w, d, depth).value.descriptors ==
            w.descriptors + |Named(l, d)| + Cost(l, Children(l, d), 32 - depth)
    decreases MAX_DEPTH + 1 - depth, 0
  {
    hide Node, KindOf, Named, Paths, ClaimOk, Children, AddPredicates, Nodes;
    NodeSteps(l, w, d, depth);
    match KindOf(l, d).value {
      case Nested(children) => CostIs(l, Entered(l, w, d), children, depth + 1);
      case _ =>
    }
  }

  lemma PlatformsAdded(l: Layout, w: Walk, items: seq<Value>, depth: nat, id: string)
    requires Nodes(l, w, items, depth).Some?
    ensures id in Nodes(l, w, items, depth).value.platforms.Keys - w.platforms.Keys <==> Reaches(l, items, id)
  {
    hide Nodes, KindOf, Named, Paths, Children;
    var w' := Nodes(l, w, items, depth).value;
    if id in w'.platforms && id !in w.platforms {
      var r := PlatformRoute(l, w, items, depth, id);
    }
    if Reaches(l, items, id) {
      var r :| Route(l, items, r) && KindOf(l, At(l, items, r)) == Some(Runnable(id));
      RouteAccounted(l, w, items, depth, r);
    }
  }

  lemma {:induction false} ReferenceRoute(l: Layout, w: Walk, items: seq<Value>, depth: nat, reference: string)
    returns (r: seq<nat>)
    requires Nodes(l, w, items, depth).Some?
    requires reference in Nodes(l, w, items, depth).value.attestations && reference !in w.attestations
    ensures Route(l, items, r) && Refers(KindOf(l, At(l, items, r)), reference)
    decreases MAX_DEPTH + 1 - depth, |items|
  {
    hide Node, KindOf, Named, Paths, ClaimOk, Children;
    var d := items[0];
    var w1 := Node(l, w, d, depth).value;
    if reference !in w1.attestations {
      r := ReferenceRoute(l, w1, items[1..], depth, reference);
      RoutePast(l, items, r);
      r := [r[0] + 1] + r[1..];
    } else {
      NodeSteps(l, w, d, depth);
      if KindOf(l, d).value.Nested? {
        r := ReferenceRoute(l, Entered(l, w, d), Children(l, d), depth + 1, reference);
        RouteInto(l, items, r);
        r := [0] + r;
      } else {
        r := [0];
      }
    }
  }

  lemma ClaimMeans(l: Layout, w: Walk, d: Value, depth: nat)
    requires KindOf(l, d).Some? && KindOf(l, d).value.Nested?
    requires Nodes(l, w, Children(l, d), depth).Some?
    ensures ClaimHolds(l, d) <==>
            ClaimOk(PlatformOf(d), Nodes(l, w, Children(l, d), depth).value.platforms.Keys - w.platforms.Keys)
  {
    var added := Nodes(l, w, Children(l, d), depth).value.platforms.Keys - w.platforms.Keys;
    forall id ensures id in added <==> Reaches(l, Children(l, d), id) {
      PlatformsAdded(l, w, Children(l, d), depth, id);
    }
    hide Reaches, Nodes, KindOf, Children;
    if PlatformOf(d).Obj? {
      var os, arch := Get(PlatformOf(d).fields, "os"), Get(PlatformOf(d).fields, "architecture");
      LinuxNameIs(os, arch);
      forall name: string ensures added == {name} <==> forall id :: Reaches(l, Children(l, d), id) <==> id == name {
        OnlyMember(added, name);
        assert (forall id :: id in added <==> id == name) <==>
               (forall id :: Reaches(l, Children(l, d), id) <==> id == name);
      }
    }
    hide LinuxName;
  }

  lemma OnlyMember(s: set<string>, x: string)
    ensures s == {x} <==> forall y :: y in s <==> y == x
  {
  }

  lemma LinuxNameIs(os: Value, architecture: Value)
    ensures LinuxName(os, architecture).Some? <==>
            os == Str("linux") && architecture.Str? && architecture.s in {"amd64", "arm64"}
    ensures LinuxName(os, architecture).Some? ==> LinuxName(os, architecture).value == "linux/" + architecture.s
  {
    LinuxNames();
  }

  lemma LinuxNames()
    ensures "linux/" + "amd64" == AMD64 && "linux/" + "arm64" == ARM64
    ensures LinuxName(Str("linux"), Str("amd64")) == Some(AMD64)
    ensures LinuxName(Str("linux"), Str("arm64")) == Some(ARM64)
  {
    assert "amd64"[1] != "arm64"[1];
  }

  // ----- walkable stretches are accepted

  lemma TrailInto(l: Layout, items: seq<Value>, r: seq<nat>)
    requires items != [] && Route(l, Children(l, items[0]), r)
    requires Route(l, items, [0] + r)
    ensures Trail(l, items, [0] + r) == [DigestOf(items[0])] + Trail(l, Children(l, items[0]), r)
  {
    hide Children;
    assert ([0] + r)[1..] == r;
  }

  lemma TrailPast(l: Layout, items: seq<Value>, r: seq<nat>)
    requires items != [] && Route(l, items[1..], r)
    requires Route(l, items, [r[0] + 1] + r[1..])
    ensures Trail(l, items, [r[0] + 1] + r[1..]) == Trail(l, items[1..], r)
  {
    hide Children;
    var r' := [r[0] + 1] + r[1..];
    assert r'[1..] == r[1..];
    assert items[1..][r[0]] == items[r'[0]];
  }

  lemma DistinctTail(x: string, s: seq<string>)
    requires Distinct([x] + s)
    ensures Distinct(s) && forall i | 0 <= i < |s| :: s[i] != x
  {
    var all := [x] + s;
    assert all[0] == x && forall i | 0 <= i < |s| :: all[i + 1] == s[i];
    forall i, j | 0 <= i < j < |s| ensures s[i] != s[j] {
      assert all[i + 1] != all[j + 1];
    }
    forall i | 0 <= i < |s| ensures s[i] != x {
      assert all[0] != all[i + 1];
    }
  }

  lemma FineInto(l: Layout, w: Walk, items: seq<Value>, depth: nat, r: seq<nat>)
    requires items != [] && Route(l, Children(l, items[0]), r)
    requires Route(l, items, [0] + r) && At(l, items, [0] + r) == At(l, Children(l, items[0]), r)
    requires EntryFine(l, w, items, depth, [0] + r)
    ensures EntryFine(l, Entered(l, w, items[0]), Children(l, items[0]), depth + 1, r)
  {
    hide Children, KindOf, ClaimHolds, Named, Paths, Distinct;
    TrailInto(l, items, r);
    var below := Trail(l, Children(l, items[0]), r);
    DistinctTail(DigestOf(items[0]), below);
    assert forall i | 0 <= i < |below| :: below[i] == Trail(l, items, [0] + r)[i + 1];
  }

  lemma FinePast(l: Layout, w: Walk, items: seq<Value>, depth: nat, r: seq<nat>, w1: Walk)
    requires items != [] && Route(l, items[1..], r)
    requires Route(l, items, [r[0] + 1] + r[1..]) && At(l, items, [r[0] + 1] + r[1..]) == At(l, items[1..], r)
    requires EntryFine(l, w, items, depth, [r[0] + 1] + r[1..])
    requires w1.visiting == w.visiting
    requires var kind := KindOf(l, At(l, items[1..], r));
             kind.Some? && kind.value.Runnable? ==> kind.value.identity !in w1.platforms
    ensures EntryFine(l, w1, items[1..], depth, r)
  {
    hide Children, KindOf, ClaimHolds, Distinct;
    TrailPast(l, items, r);
  }

  lemma WalkableInto(l: Layout, w: Walk, items: seq<Value>, depth: nat)
    requires Walkable(l, w, items, depth) && items != [] && depth <= 32
    ensures Walkable(l, Entered(l, w, items[0]), Children(l, items[0]), depth + 1)
  {
    hide Children, EntryFine, KindOf, Named, Paths, SameRunnable;
    var below := Children(l, items[0]);
    forall r | Route(l, below, r) ensures EntryFine(l, Entered(l, w, items[0]), below, depth + 1, r) {
      RouteInto(l, items, r);
      FineInto(l, w, items, depth, r);
    }
    forall r, s | Route(l, below, r) && Route(l, below, s)
                  && SameRunnable(KindOf(l, At(l, below, r)), KindOf(l, At(l, below, s)))
      ensures r == s
    {
      RouteInto(l, items, r);
      RouteInto(l, items, s);
      assert ([0] + r)[1..] == r && ([0] + s)[1..] == s;
    }
  }

  lemma WalkablePast(l: Layout, w: Walk, items: seq<Value>, depth: nat)
    requires Walkable(l, w, items, depth) && items != [] && depth <= 32
    requires Node(l, w, items[0], depth).Some?
    ensures Walkable(l, Node(l, w, items[0], depth).value, items[1..], depth)
  {
    hide Children, EntryFine, KindOf, Named, Paths, Node, Nodes;
    var w1 := Node(l, w, items[0], depth).value;
    KeepsNode(l, w, items[0], depth);
    CostOfNode(l, w, items[0], depth);
    forall r | Route(l, items[1..], r) ensures EntryFine(l, w1, items[1..], depth, r) {
      RoutePast(l, items, r);
      NotTaken(l, w, items, depth, r);
      FinePast(l, w, items, depth, r, w1);
    }
    forall r, s | Route(l, items[1..], r) && Route(l, items[1..], s)
                  && SameRunnable(KindOf(l, At(l, items[1..], r)), KindOf(l, At(l, items[1..], s)))
      ensures r == s
    {
      RoutePast(l, items, r);
      RoutePast(l, items, s);
      var r', s' := [r[0] + 1] + r[1..], [s[0] + 1] + s[1..];
      assert r' == s';
      assert r[0] == r'[0] - 1 && s[0] == s'[0] - 1 && r[1..] == r'[1..] && s[1..] == s'[1..];
      assert r == [r[0]] + r[1..] && s == [s[0]] + s[1..];
    }
  }

  /** What the head entry adds, no later entry leads to. */
  lemma NotTaken(l: Layout, w: Walk, items: seq<Value>, depth: nat, r: seq<nat>)
    requires Walkable(l, w, items, depth) && items != []
    requires Node(l, w, items[0], depth).Some? && Route(l, items[1..], r)
    ensures var kind := KindOf(l, At(l, items[1..], r));
            kind.Some? && kind.value.Runnable? ==> kind.value.identity !in Node(l, w, items[0], depth).value.platforms
  {
    hide Children, KindOf, Named, Paths, Node;
    var kind := KindOf(l, At(l, items[1..], r));
    var w1 := Node(l, w, items[0], depth).value;
    RoutePast(l, items, r);
    var later := [r[0] + 1] + r[1..];
    assert EntryFine(l, w, items, depth, later);
    if kind.Some? && kind.value.Runnable? && kind.value.identity in w1.platforms {
      var head := [items[0]];
      assert head[1..] == [] && Nodes(l, w, head, depth) == Some(w1);
      var s := PlatformRoute(l, w, head, depth, kind.value.identity);
      HeadRoute(l, items, s);
    }
  }

  /** A route from a list's head alone is a route of the list. */
  lemma HeadRoute(l: Layout, items: seq<Value>, s: seq<nat>)
    requires items != [] && Route(l, [items[0]], s)
    ensures Route(l, items, s) && At(l, items, s) == At(l, [items[0]], s) && s[0] == 0
  {
    hide Children;
  }

  lemma {:induction false} WalkableIsAccepted(l: Layout, w: Walk, items: seq<Value>, depth: nat)
    requires Walkable(l, w, items, depth)
    ensures Nodes(l, w, items, depth).Some?
    decreases MAX_DEPTH + 1 - depth, |items|, 1
  {
    hide Children, EntryFine, KindOf, Named, Paths, Node, Walkable;
    if items != [] {
      HeadIsFine(l, w, items, depth);
      HeadIsAccepted(l, w, items, depth);
      WalkablePast(l, w, items, depth);
      WalkableIsAccepted(l, Node(l, w, items[0], depth).value, items[1..], depth);
    }
  }

  lemma HeadIsFine(l: Layout, w: Walk, items: seq<Value>, depth: nat)
    requires Walkable(l, w, items, depth) && items != []
    ensures depth <= 32 && KindOf(l, items[0]).Some? && DigestOf(items[0]) !in w.visiting && ClaimHolds(l, items[0])
    ensures w.descriptors + |Named(l, items[0])| <= 10000
    ensures KindOf(l, items[0]).value.Runnable? ==> KindOf(l, items[0]).value.identity !in w.platforms
  {
    hide Children, KindOf, Named, Paths, ClaimHolds;
    assert Route(l, items, [0]) && At(l, items, [0]) == items[0] && Trail(l, items, [0]) == [DigestOf(items[0])] + [];
    assert EntryFine(l, w, items, depth, [0]);
    assert Trail(l, items, [0])[0] !in w.visiting;
  }

  lemma {:induction false} HeadIsAccepted(l: Layout, w: Walk, items: seq<Value>, depth: nat)
    requires Walkable(l, w, items, depth) && items != [] && depth <= 32
    ensures Node(l, w, items[0], depth).Some?
    decreases MAX_DEPTH + 1 - depth, |items|, 0
  {
    hide Children, EntryFine, KindOf, Named, Paths, Node, Nodes, ClaimOk, AddPredicates, Walkable;
    var d := items[0];
    HeadIsFine(l, w, items, depth);
    KindHasChildren(l, d);
    match KindOf(l, d).value {
      case Nested(children) =>
        WalkableInto(l, w, items, depth);
        WalkableIsAccepted(l, Entered(l, w, d), children, depth + 1);
        ClaimMeans(l, Entered(l, w, d), d, depth + 1);
        var inner := Nodes(l, Entered(l, w, d), children, depth + 1).value;
        StepsAreNode(l, w, d, depth, inner.(visiting := inner.visiting - {DigestOf(d)}));
      case kind =>
        var recorded := Record(Entered(l, w, d), kind, DigestOf(d)).value;
        StepsAreNode(l, w, d, depth, recorded.(visiting := w.visiting));
    }
  }

  lemma KindHasChildren(l: Layout, d: Value)
    requires KindOf(l, d).Some?
    ensures Children(l, d) == match KindOf(l, d).value case Nested(children) => children case _ => []
  {
    hide DescriptorOk, HeaderOk, ManifestKind, IsIndexType, IsManifestType;
    TypesDisjoint(MediaOf(d));
  }

  // ----- accepted stretches are walkable

  lemma {:induction false} AcceptedIsFine(l: Layout, w: Walk, items: seq<Value>, depth: nat, r: seq<nat>)
    requires Nodes(l, w, items, depth).Some? && Route(l, items, r)
    ensures EntryFine(l, w, items, depth, r)
  {
    hide Nodes, KindOf, Named, Paths, Children, ClaimHolds, Distinct, Node;
    RouteAccounted(l, w, items, depth, r);
    TrailFresh(l, w, items, depth, r);
    VisitingIsThePath(l, w, items, depth, r);
    AcceptedClaim(l, Before(l, w, items, depth, r).value, At(l, items, r), depth + |r| - 1);
  }

  lemma AcceptedClaim(l: Layout, w: Walk, d: Value, depth: nat)
    requires Node(l, w, d, depth).Some?
    ensures ClaimHolds(l, d)
  {
    NodeSteps(l, w, d, depth);
    if KindOf(l, d).value.Nested? {
      ClaimMeans(l, Entered(l, w, d), d, depth + 1);
      hide ClaimHolds, ClaimOk, Nodes, Node, KindOf, Named, Paths, Children;
    }
  }

  // ----- the whole layout

  /** The two fixed files: the layout marker, and a root index with at least one entry. */
  predicate RootSays(l: Layout) {
    && "oci/oci-layout" in l.strict
    && l.strict["oci/oci-layout"] == map["imageLayoutVersion" := Str("1.0.0")]
    && "oci/index.json" in l.strict && "oci/index.json" in l.files
    && var index := l.strict["oci/index.json"];
       && Get(index, "schemaVersion") == Int(2)
       && ("mediaType" in index ==>
             || index["mediaType"] == Str("application/vnd.oci.image.index.v1+json")
             || index["mediaType"] == Str("application/vnd.docker.distribution.manifest.list.v2+json"))
       && Get(index, "manifests").Arr? && Get(index, "manifests").items != []
  }

  lemma RootSaysIsOk(l: Layout)
    ensures RootSays(l) <==> RootOk(l)
  {
  }

  /** Every route is short, repeats nothing and ends at an entry that is fine by itself; no platform
      is met twice; and the descriptors met fit the budget. */
  ghost predicate GraphOk(l: Layout) {
    && (forall r | Route(l, Roots(l), r) :: RouteOk(l, r))
    && OneRouteEach(l, Roots(l))
    && Cost(l, Roots(l), 33) <= 10000
  }

  ghost predicate RouteOk(l: Layout, r: seq<nat>)
    requires Route(l, Roots(l), r)
  {
    && |r| <= 33
    && KindOf(l, At(l, Roots(l), r)).Some?
    && Distinct(Trail(l, Roots(l), r))
    && ClaimHolds(l, At(l, Roots(l), r))
  }

  ghost predicate ReachesDigest(l: Layout, digest: string) {
    exists id :: ReachesRunnable(l, Roots(l), id, digest)
  }

  /** Both platforms are there; the attestations reference exactly their manifests; and each has an
      SBOM and a provenance. */
  ghost predicate ImagesOk(l: Layout) {
    && Reaches(l, Roots(l), "linux/amd64") && Reaches(l, Roots(l), "linux/arm64")
    && (forall digest :: ReachesReference(l, Roots(l), digest) <==> ReachesDigest(l, digest))
    && (forall digest | ReachesDigest(l, digest) ::
          && (|| ReachesPredicate(l, Roots(l), digest, "https://spdx.dev/Document")
              || ReachesPredicate(l, Roots(l), digest, "https://cyclonedx.org/bom"))
          && (|| ReachesPredicate(l, Roots(l), digest, "https://slsa.dev/provenance/v0.2")
              || ReachesPredicate(l, Roots(l), digest, "https://slsa.dev/provenance/v1")))
  }

  ghost predicate BlobsOk(l: Layout) {
    forall p :: (p in l.files && |p| >= 10 && p[..10] == "oci/blobs/") <==> Reached(l, Roots(l), p)
  }

  lemma StartIsWalkable(l: Layout)
    ensures GraphOk(l) <==> Walkable(l, START, Roots(l), 0)
  {
    hide Route, Children, KindOf, ClaimHolds, Distinct, Roots, OneRouteEach;
    if GraphOk(l) {
      forall r | Route(l, Roots(l), r) ensures EntryFine(l, START, Roots(l), 0, r) {
        assert RouteOk(l, r);
      }
    }
    if Walkable(l, START, Roots(l), 0) {
      forall r | Route(l, Roots(l), r) ensures RouteOk(l, r) {
        assert EntryFine(l, START, Roots(l), 0, r);
      }
    }
  }

  lemma AcceptedIsWalkable(l: Layout)
    requires Nodes(l, START, Roots(l), 0).Some?
    ensures Walkable(l, START, Roots(l), 0)
  {
    hide Nodes, KindOf, Named, Paths, Children, EntryFine, Roots;
    var items := Roots(l);
    forall r | Route(l, items, r) ensures EntryFine(l, START, items, 0, r) {
      AcceptedIsFine(l, START, items, 0, r);
    }
    forall r, s | Route(l, items, r) && Route(l, items, s)
                  && SameRunnable(KindOf(l, At(l, items, r)), KindOf(l, At(l, items, s)))
      ensures r == s
    {
      OneRoute(l, START, items, 0, r, s, KindOf(l, At(l, items, r)).value.identity);
    }
    CostIs(l, START, items, 0);
    Keeps(l, START, items, 0);
  }

  /** What the findings of an accepted walk are, in terms of routes. */
  lemma FindingsAre(l: Layout, w: Walk)
    requires Nodes(l, START, Roots(l), 0) == Some(w)
    ensures forall id, digest ::
              (id in w.platforms && w.platforms[id] == digest) <==> ReachesRunnable(l, Roots(l), id, digest)
    ensures forall digest :: digest in w.platforms.Values <==> ReachesDigest(l, digest)
    ensures forall id :: id in w.platforms <==> Reaches(l, Roots(l), id)
    ensures forall reference :: reference in w.attestations <==> ReachesReference(l, Roots(l), reference)
    ensures forall reference, p ::
              (reference in w.attestations && p in w.attestations[reference]) <==>
              ReachesPredicate(l, Roots(l), reference, p)
    ensures forall p :: p in w.used <==> Reached(l, Roots(l), p)
  {
    hide Nodes, KindOf, Named, Paths, Children, Roots, Reaches;
    var items := Roots(l);
    forall id ensures id in w.platforms <==> Reaches(l, items, id) {
      PlatformsAdded(l, START, items, 0, id);
    }
    forall id, digest
      ensures (id in w.platforms && w.platforms[id] == digest) <==> ReachesRunnable(l, items, id, digest)
    {
      if id in w.platforms {
        var r := PlatformRoute(l, START, items, 0, id);
        RouteAccounted(l, START, items, 0, r);
      }
      if ReachesRunnable(l, items, id, digest) {
        var r :| Route(l, items, r) && KindOf(l, At(l, items, r)) == Some(Runnable(id))
                 && DigestOf(At(l, items, r)) == digest;
        RouteAccounted(l, START, items, 0, r);
      }
    }
    forall digest ensures digest in w.platforms.Values <==> ReachesDigest(l, digest) {
      if digest in w.platforms.Values {
        var id :| id in w.platforms && w.platforms[id] == digest;
        assert ReachesRunnable(l, items, id, digest);
      }
    }
    forall reference ensures reference in w.attestations <==> ReachesReference(l, items, reference) {
      if reference in w.attestations {
        var r := ReferenceRoute(l, START, items, 0, reference);
      }
      if ReachesReference(l, items, reference) {
        var r :| Route(l, items, r) && Refers(KindOf(l, At(l, items, r)), reference);
        RouteAccounted(l, START, items, 0, r);
      }
    }
    forall reference, p
      ensures (reference in w.attestations && p in w.attestations[reference]) <==>
              ReachesPredicate(l, items, reference, p)
    {
      if reference in w.attestations && p in w.attestations[reference] {
        var r := PredicateRoute(l, START, items, 0, reference, p);
      }
      if ReachesPredicate(l, items, reference, p) {
        var r :| Route(l, items, r) && AttestsTo(KindOf(l, At(l, items, r)), reference, p);
        RouteAccounted(l, START, items, 0, r);
      }
    }
    forall p ensures p in w.used <==> Reached(l, items, p) {
      if p in w.used {
        var r := UsedRoute(l, START, items, 0, p);
      }
      if Reached(l, items, p) {
        var r :| Route(l, items, r) && p in Paths(Named(l, At(l, items, r)));
        RouteAccounted(l, START, items, 0, r);
      }
    }
  }

  /** A manifest runs on nothing but the two platforms. */
  lemma RunsOn(l: Layout, d: Value, id: string)
    requires KindOf(l, d) == Some(Runnable(id))
    ensures id == "linux/amd64" || id == "linux/arm64"
  {
    hide DescriptorOk, HeaderOk, ConfigOk, ConfigPlatform, IsManifestType, IsIndexType, LabelsOk, RunnableLayersOk,
         AttestationKind;
  }

  lemma OnlyTwoPlatforms(l: Layout, w: Walk)
    requires Nodes(l, START, Roots(l), 0) == Some(w)
    ensures forall id | id in w.platforms :: id == AMD64 || id == ARM64
  {
    hide Nodes, KindOf, Roots;
    FindingsAre(l, w);
    forall id | id in w.platforms ensures id == AMD64 || id == ARM64 {
      assert Reaches(l, Roots(l), id);
      var r :| Route(l, Roots(l), r) && KindOf(l, At(l, Roots(l), r)) == Some(Runnable(id));
      RunsOn(l, At(l, Roots(l), r), id);
    }
  }

  lemma ImagesAreFindings(l: Layout, w: Walk)
    requires Nodes(l, START, Roots(l), 0) == Some(w)
    ensures ImagesOk(l) <==> FindingsOk(w.platforms, w.attestations)
  {
    hide Nodes, KindOf, Roots, Reaches, ReachesReference, ReachesRunnable, ReachesDigest, ReachesPredicate;
    FindingsAre(l, w);
    OnlyTwoPlatforms(l, w);
    assert w.platforms.Keys == {AMD64, ARM64} <==>
           Reaches(l, Roots(l), "linux/amd64") && Reaches(l, Roots(l), "linux/arm64") by {
      assert w.platforms.Keys <= {AMD64, ARM64};
      assert AMD64 in w.platforms <==> Reaches(l, Roots(l), "linux/amd64");
      assert ARM64 in w.platforms <==> Reaches(l, Roots(l), "linux/arm64");
    }
    hide Reaches;
    assert w.attestations.Keys == w.platforms.Values <==>
           forall digest :: ReachesReference(l, Roots(l), digest) <==> ReachesDigest(l, digest) by {
      ReferencesAreDigests(l, w);
    }
    forall digest | digest in w.attestations
      ensures CompletePredicates(w.attestations[digest]) <==>
              && (ReachesPredicate(l, Roots(l), digest, SPDX) || ReachesPredicate(l, Roots(l), digest, CYCLONEDX))
              && (ReachesPredicate(l, Roots(l), digest, SLSA_V02) || ReachesPredicate(l, Roots(l), digest, SLSA_V1))
    {
    }
    hide CompletePredicates;
  }

  lemma ReferencesAreDigests(l: Layout, w: Walk)
    requires forall digest :: digest in w.platforms.Values <==> ReachesDigest(l, digest)
    requires forall reference :: reference in w.attestations <==> ReachesReference(l, Roots(l), reference)
    ensures w.attestations.Keys == w.platforms.Values <==>
            forall digest :: ReachesReference(l, Roots(l), digest) <==> ReachesDigest(l, digest)
  {
    hide ReachesReference, ReachesDigest, Roots;
    if forall digest :: ReachesReference(l, Roots(l), digest) <==> ReachesDigest(l, digest) {
      forall digest ensures digest in w.attestations.Keys <==> digest in w.platforms.Values {
        assert ReachesReference(l, Roots(l), digest) <==> ReachesDigest(l, digest);
      }
    }
    if w.attestations.Keys == w.platforms.Values {
      forall digest ensures ReachesReference(l, Roots(l), digest) <==> ReachesDigest(l, digest) {
        assert digest in w.attestations.Keys <==> digest in w.platforms.Values;
      }
    }
  }

  /** Main result: a layout is accepted exactly when its root is a root index, its graph is bounded,
      acyclic and within budget, its images and attestations are complete, and its blobs are exactly
      the ones the graph names. */
  lemma VerifyAcceptsExactly(l: Layout)
    ensures Verify(l).Some? <==> RootSays(l) && GraphOk(l) && ImagesOk(l) && BlobsOk(l)
  {
    hide Nodes, KindOf, Roots, RootOk, RootSays, FindingsOk, ImagesOk, GraphOk, Walkable, Reached, Route;
    RootSaysIsOk(l);
    StartIsWalkable(l);
    if Walkable(l, START, Roots(l), 0) {
      WalkableIsAccepted(l, START, Roots(l), 0);
    }
    if Nodes(l, START, Roots(l), 0).Some? {
      var w := Nodes(l, START, Roots(l), 0).value;
      AcceptedIsWalkable(l);
      FindingsAre(l, w);
      ImagesAreFindings(l, w);
      assert BlobsOk(l) <==> w.used == BlobsPresent(l);
    }
  }
}
