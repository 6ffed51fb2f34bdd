/** What the accumulators of an accepted walk mean, in terms of the routes through the graph:
    a route is the list of positions that leads from oci/index.json to one entry. */
module OciReach {
  import opened Wrappers
  import opened Json
  import opened OciLayout
  import opened OciVerify

  /** The entries below an index; nothing is below any other descriptor. */
  function Children(l: Layout, d: Value): seq<Value> {
    if IsIndexType(MediaOf(d)) && StrictDoc(l, d).Some? then ChildrenOf(StrictDoc(l, d).value) else []
  }

  predicate Route(l: Layout, items: seq<Value>, r: seq<nat>)
    decreases |r|
  {
    && r != []
    && r[0] < |items|
    && (|r| > 1 ==> Route(l, Children(l, items[r[0]]), r[1..]))
  }

  function At(l: Layout, items: seq<Value>, r: seq<nat>): Value
    requires Route(l, items, r)
    decreases |r|
  {
    if |r| == 1 then items[r[0]] else At(l, Children(l, items[r[0]]), r[1..])
  }

  /** The digests met along a route. */
  function Trail(l: Layout, items: seq<Value>, r: seq<nat>): seq<string>
    requires Route(l, items, r)
    decreases |r|
  {
    [DigestOf(items[r[0]])] + if |r| == 1 then [] else Trail(l, Children(l, items[r[0]]), r[1..])
  }

  /** Some entry the walk meets names a descriptor for this path. */
  ghost predicate Reached(l: Layout, items: seq<Value>, path: string) {
    exists r | Route(l, items, r) :: path in Paths(Named(l, At(l, items, r)))
  }

  ghost predicate ReachesRunnable(l: Layout, items: seq<Value>, identity: string, digest: string) {
    exists r | Route(l, items, r) ::
      KindOf(l, At(l, items, r)) == Some(Runnable(identity)) && DigestOf(At(l, items, r)) == digest
  }

  predicate AttestsTo(kind: Option<Kind>, reference: string, predicateType: string) {
    kind.Some? && kind.value.Attests? && kind.value.reference == reference && predicateType in kind.value.predicates
  }

  ghost predicate ReachesPredicate(l: Layout, items: seq<Value>, reference: string, predicateType: string) {
    exists r | Route(l, items, r) :: AttestsTo(KindOf(l, At(l, items, r)), reference, predicateType)
  }

  // ----- one step of the walk

  /** The accumulators just after an entry and the descriptors it names are accounted for. */
  function Entered(l: Layout, w: Walk, d: Value): Walk {
    Walk(w.used + Paths(Named(l, d)), w.visiting + {DigestOf(d)}, w.platforms, w.attestations,
         w.descriptors + |Named(l, d)|)
  }

  ghost predicate Steps(l: Layout, w: Walk, d: Value, depth: nat, w': Walk) {
    && KindOf(l, d).Some?
    && depth <= MAX_DEPTH
    && DigestOf(d) !in w.visiting
    && Entered(l, w, d).descriptors <= MAX_DESCRIPTORS
    && match KindOf(l, d).value
       case Nested(children) =>
         && children == Children(l, d)
         && var inner := Nodes(l, Entered(l, w, d), children, depth + 1);
            && inner.Some?
            && ClaimOk(PlatformOf(d), inner.value.platforms.Keys - w.platforms.Keys)
            && w' == inner.value.(visiting := inner.value.visiting - {DigestOf(d)})
       case kind =>
         && Children(l, d) == []
         && var recorded := Record(Entered(l, w, d), kind, DigestOf(d));
            recorded.Some? && w' == recorded.value.(visiting := w.visiting)
  }

  lemma ChargedHeader(l: Layout, w: Walk, d: Value, doc: Fields)
    requires Charge(w, [d]).Some?
    requires Charge(Charge(w, [d]).value.(visiting := w.visiting + {DigestOf(d)}), Subject(doc)).Some?
    ensures Charge(Charge(w, [d]).value.(visiting := w.visiting + {DigestOf(d)}), Subject(doc)).value ==
            Charge(w, [d] + Subject(doc)).value.(visiting := w.visiting + {DigestOf(d)})
  {
    hide Paths;
    ChargeAppend(w, [d], Subject(doc));
  }

  /** An accepted entry, without the order in which its descriptors were checked. */
  lemma NodeSteps(l: Layout, w: Walk, d: Value, depth: nat)
    requires Node(l, w, d, depth).Some?
    ensures Steps(l, w, d, depth, Node(l, w, d, depth).value)
  {
    hide DescriptorOk, ManifestKind, ManifestNames, Paths, IsIndexType, IsManifestType, Nodes, ClaimOk, AddPredicates,
         HeaderOk;
    TypesDisjoint(MediaOf(d));
    var doc := StrictDoc(l, d).value;
    assert w.visiting + {DigestOf(d)} - {DigestOf(d)} == w.visiting;
    ChargedHeader(l, w, d, doc);
    if !IsIndexType(MediaOf(d)) {
      ChargeAppend(w, [d] + Subject(doc), ManifestNames(l, doc));
    } else {
      assert Named(l, d) == [d] + Subject(doc);
    }
  }

  // ----- induction over the walk

  /** What every accepted stretch of the walk keeps: `visiting` is again the path it started
      from, nothing is forgotten or overwritten, and the descriptor budget is respected. */
  lemma {:induction false} Keeps(l: Layout, w: Walk, items: seq<Value>, depth: nat)
    requires Nodes(l, w, items, depth).Some?
    ensures var w' := Nodes(l, w, items, depth).value;
            && w'.visiting == w.visiting
            && w.used <= w'.used
            && w.platforms.Keys <= w'.platforms.Keys
            && (forall id | id in w.platforms :: w'.platforms[id] == w.platforms[id])
            && w.attestations.Keys <= w'.attestations.Keys
            && (forall s | s in w.attestations :: w.attestations[s] <= w'.attestations[s])
            && w.descriptors <= w'.descriptors
            && (w.descriptors <= MAX_DESCRIPTORS ==> w'.descriptors <= MAX_DESCRIPTORS)
    decreases MAX_DEPTH + 1 - depth, |items|
  {
    hide Node, KindOf, Named, Paths, ClaimOk, Children;
    if items != [] {
      KeepsNode(l, w, items[0], depth);
      Keeps(l, Node(l, w, items[0], depth).value, items[1..], depth);
    }
  }

  lemma {:induction false} KeepsNode(l: Layout, w: Walk, d: Value, depth: nat)
    requires Node(l, w, d, depth).Some?
    ensures var w' := Node(l, w, d, depth).value;
            && w'.visiting == w.visiting
            && w.used + Paths(Named(l, d)) <= w'.used
            && w.platforms.Keys <= w'.platforms.Keys
            && (forall id | id in w.platforms :: w'.platforms[id] == w.platforms[id])
            && w.attestations.Keys <= w'.attestations.Keys
            && (forall s | s in w.attestations :: w.attestations[s] <= w'.attestations[s])
            && w.descriptors <= w'.descriptors <= MAX_DESCRIPTORS
    decreases MAX_DEPTH + 1 - depth, 0
  {
    hide Node, KindOf, Named, Paths, ClaimOk, Children, Nodes;
    NodeSteps(l, w, d, depth);
    match KindOf(l, d).value {
      case Nested(children) =>
        Keeps(l, Entered(l, w, d), children, depth + 1);
        assert w.visiting + {DigestOf(d)} - {DigestOf(d)} == w.visiting;
      case _ =>
    }
  }

  /** Splits a route at the entry list: its head entry, and either nothing or a route below. */
  lemma {:induction false} RouteTail(l: Layout, items: seq<Value>, r: seq<nat>)
    requires Route(l, items, r) && r[0] > 0
    ensures Route(l, items[1..], [r[0] - 1] + r[1..])
    ensures At(l, items[1..], [r[0] - 1] + r[1..]) == At(l, items, r)
    ensures Trail(l, items[1..], [r[0] - 1] + r[1..]) == Trail(l, items, r)
  {
    hide Children;
    var r' := [r[0] - 1] + r[1..];
    assert r'[1..] == r[1..];
    assert items[1..][r'[0]] == items[r[0]];
  }

  /** The bookkeeping at the end of every route of an accepted walk. */
  ghost predicate Accounted(w: Walk, kind: Option<Kind>, digest: string, w': Walk) {
    && kind.Some?
    && match kind.value
       case Nested(_) => true
       case Runnable(id) => id !in w.platforms && id in w'.platforms && w'.platforms[id] == digest
       case Attests(reference, predicates) =>
         reference in w'.attestations && predicates <= w'.attestations[reference]
  }

  lemma {:induction false} RouteAccounted(l: Layout, w: Walk, items: seq<Value>, depth: nat, r: seq<nat>)
    requires Nodes(l, w, items, depth).Some?
    requires Route(l, items, r)
    ensures Paths(Named(l, At(l, items, r))) <= Nodes(l, w, items, depth).value.used
    ensures Accounted(w, KindOf(l, At(l, items, r)), DigestOf(At(l, items, r)), Nodes(l, w, items, depth).value)
    ensures depth + |r| <= MAX_DEPTH + 1
    decreases MAX_DEPTH + 1 - depth, |items|
  {
    hide Node, KindOf, Named, Paths, ClaimOk, Children;
    var d := items[0];
    var w1 := Node(l, w, d, depth).value;
    KeepsNode(l, w, d, depth);
    Keeps(l, w1, items[1..], depth);
    if r[0] > 0 {
      RouteTail(l, items, r);
      RouteAccounted(l, w1, items[1..], depth, [r[0] - 1] + r[1..]);
    } else {
      NodeSteps(l, w, d, depth);
      if |r| > 1 {
        RouteAccounted(l, Entered(l, w, d), Children(l, d), depth + 1, r[1..]);
      }
    }
  }

  ghost predicate Distinct(s: seq<string>) {
    forall i, j | 0 <= i < j < |s| :: s[i] != s[j]
  }

  /** Along a route no digest repeats, and none is on the path that led to its start. */
  lemma {:induction false} TrailFresh(l: Layout, w: Walk, items: seq<Value>, depth: nat, r: seq<nat>)
    requires Nodes(l, w, items, depth).Some?
    requires Route(l, items, r)
    ensures Distinct(Trail(l, items, r))
    ensures forall i | 0 <= i < |Trail(l, items, r)| :: Trail(l, items, r)[i] !in w.visiting
    decreases MAX_DEPTH + 1 - depth, |items|
  {
    hide Node, KindOf, Named, Paths, ClaimOk, Children;
    KeepsNode(l, w, items[0], depth);
    if r[0] > 0 {
      RouteTail(l, items, r);
      TrailFresh(l, Node(l, w, items[0], depth).value, items[1..], depth, [r[0] - 1] + r[1..]);
    } else {
      NodeSteps(l, w, items[0], depth);
      if |r| > 1 {
        TrailFresh(l, Entered(l, w, items[0]), Children(l, items[0]), depth + 1, r[1..]);
      }
    }
  }

  // ----- the path

  /** The accumulators at the moment the walk comes to the entry at the end of a route. */
  function Before(l: Layout, w: Walk, items: seq<Value>, depth: nat, r: seq<nat>): Option<Walk>
    requires Route(l, items, r)
    decreases |r|, r[0]
  {
    if r[0] > 0 then
      var w1 :- Node(l, w, items[0], depth);
      RouteTail(l, items, r);
      Before(l, w1, items[1..], depth, [r[0] - 1] + r[1..])
    else if |r| == 1 then Some(w)
    else Before(l, Entered(l, w, items[0]), Children(l, items[0]), depth + 1, r[1..])
  }

  function Elements(s: seq<string>): set<string> {
    set i | 0 <= i < |s| :: s[i]
  }

  lemma ElementsCons(x: string, s: seq<string>)
    ensures Elements([x] + s) == {x} + Elements(s)
  {
    assert forall i | 0 <= i < |s| :: ([x] + s)[i + 1] == s[i];
    assert ([x] + s)[0] == x;
  }

  /** Whenever an accepted walk comes to an entry, `visiting` holds exactly the digests on the
      route to it, and the entry is then accepted at the depth the route's length says. */
  lemma {:induction false} VisitingIsThePath(l: Layout, w: Walk, items: seq<Value>, depth: nat, r: seq<nat>)
    requires Nodes(l, w, items, depth).Some?
    requires Route(l, items, r)
    ensures |Trail(l, items, r)| == |r|
    ensures Before(l, w, items, depth, r).Some?
    ensures var here := Before(l, w, items, depth, r).value;
            && here.visiting == w.visiting + Elements(Trail(l, items, r)[..|r| - 1])
            && Node(l, here, At(l, items, r), depth + |r| - 1).Some?
    decreases MAX_DEPTH + 1 - depth, |items|
  {
    hide Node, KindOf, Named, Paths, ClaimOk, Children, Elements;
    var d := items[0];
    if r[0] > 0 {
      KeepsNode(l, w, d, depth);
      RouteTail(l, items, r);
      VisitingIsThePath(l, Node(l, w, d, depth).value, items[1..], depth, [r[0] - 1] + r[1..]);
    } else if |r| > 1 {
      NodeSteps(l, w, d, depth);
      VisitingIsThePath(l, Entered(l, w, d), Children(l, d), depth + 1, r[1..]);
      var below := Trail(l, Children(l, d), r[1..]);
      ElementsCons(DigestOf(d), below[..|r| - 2]);
      assert Trail(l, items, r)[..|r| - 1] == [DigestOf(d)] + below[..|r| - 2];
    } else {
      NoElements();
    }
  }

  lemma NoElements()
    ensures Elements([]) == {}
  {
  }

  /** Prefixing a route with an entry's position, at the head of the list or further on. */
  lemma {:induction false} RouteInto(l: Layout, items: seq<Value>, r: seq<nat>)
    requires items != [] && Route(l, Children(l, items[0]), r)
    ensures Route(l, items, [0] + r) && At(l, items, [0] + r) == At(l, Children(l, items[0]), r)
  {
    hide Children;
    assert ([0] + r)[1..] == r;
  }

  lemma {:induction false} RoutePast(l: Layout, items: seq<Value>, r: seq<nat>)
    requires items != [] && Route(l, items[1..], r)
    ensures Route(l, items, [r[0] + 1] + r[1..]) && At(l, items, [r[0] + 1] + r[1..]) == At(l, items[1..], r)
  {
    hide Children;
    var r' := [r[0] + 1] + r[1..];
    assert r'[1..] == r[1..];
    assert items[1..][r[0]] == items[r'[0]];
  }

  /** Every path the walk marked as used is named at the end of a route. */
  lemma {:induction false} UsedRoute(l: Layout, w: Walk, items: seq<Value>, depth: nat, path: string)
    returns (r: seq<nat>)
    requires Nodes(l, w, items, depth).Some?
    requires path in Nodes(l, w, items, depth).value.used && path !in w.used
    ensures Route(l, items, r) && path in Paths(Named(l, At(l, items, r)))
    decreases MAX_DEPTH + 1 - depth, |items|
  {
    hide Node, KindOf, Named, Paths, ClaimOk, Children;
    var d := items[0];
    var w1 := Node(l, w, d, depth).value;
    if path !in w1.used {
      r := UsedRoute(l, w1, items[1..], depth, path);
      RoutePast(l, items, r);
      r := [r[0] + 1] + r[1..];
    } else if path in Paths(Named(l, d)) {
      r := [0];
    } else {
      NodeSteps(l, w, d, depth);
      r := UsedRoute(l, Entered(l, w, d), Children(l, d), depth + 1, path);
      RouteInto(l, items, r);
      r := [0] + r;
    }
  }

  /** Every platform the walk recorded comes from a runnable manifest at the end of a route. */
  lemma {:induction false} PlatformRoute(l: Layout, w: Walk, items: seq<Value>, depth: nat, id: string)
    returns (r: seq<nat>)
    requires Nodes(l, w, items, depth).Some?
    requires id in Nodes(l, w, items, depth).value.platforms && id !in w.platforms
    ensures Route(l, items, r) && KindOf(l, At(l, items, r)) == Some(Runnable(id))
    decreases MAX_DEPTH + 1 - depth, |items|
  {
    hide Node, KindOf, Named, Paths, ClaimOk, Children;
    var d := items[0];
    var w1 := Node(l, w, d, depth).value;
    if id !in w1.platforms {
      r := PlatformRoute(l, w1, items[1..], depth, id);
      RoutePast(l, items, r);
      r := [r[0] + 1] + r[1..];
    } else {
      NodeSteps(l, w, d, depth);
      if KindOf(l, d).value.Nested? {
        r := PlatformRoute(l, Entered(l, w, d), Children(l, d), depth + 1, id);
        RouteInto(l, items, r);
        r := [0] + r;
      } else {
        r := [0];
      }
    }
  }

  /** Every predicate the walk collected comes from an attestation at the end of a route. */
  lemma {:induction false} PredicateRoute(l: Layout, w: Walk, items: seq<Value>, depth: nat, reference: string,
                                          p: string)
    returns (r: seq<nat>)
    requires Nodes(l, w, items, depth).Some?
    requires reference in Nodes(l, w, items, depth).value.attestations
    requires p in Nodes(l, w, items, depth).value.attestations[reference]
    requires reference in w.attestations ==> p !in w.attestations[reference]
    ensures Route(l, items, r) && AttestsTo(KindOf(l, At(l, items, r)), reference, p)
    decreases MAX_DEPTH + 1 - depth, |items|
  {
    hide Node, KindOf, Named, Paths, ClaimOk, Children;
    var d := items[0];
    var w1 := Node(l, w, d, depth).value;
    if reference in w1.attestations ==> p !in w1.attestations[reference] {
      r := PredicateRoute(l, w1, items[1..], depth, reference, p);
      RoutePast(l, items, r);
      r := [r[0] + 1] + r[1..];
    } else {
      NodeSteps(l, w, d, depth);
      if KindOf(l, d).value.Nested? {
        r := PredicateRoute(l, Entered(l, w, d), Children(l, d), depth + 1, reference, p);
        RouteInto(l, items, r);
        r := [0] + r;
      } else {
        r := [0];
      }
    }
  }

  /** Two routes to runnable manifests of one platform are the same route. */
  lemma {:induction false} OneRoute(l: Layout, w: Walk, items: seq<Value>, depth: nat, r: seq<nat>, s: seq<nat>,
                                    id: string)
    requires Nodes(l, w, items, depth).Some?
    requires Route(l, items, r) && KindOf(l, At(l, items, r)) == Some(Runnable(id))
    requires Route(l, items, s) && KindOf(l, At(l, items, s)) == Some(Runnable(id))
    ensures r == s
    decreases MAX_DEPTH + 1 - depth, |items|, |r| + |s|
  {
    hide Node, KindOf, Named, Paths, ClaimOk, Children;
    var w1 := Node(l, w, items[0], depth).value;
    if r[0] > 0 && s[0] > 0 {
      RouteTail(l, items, r);
      RouteTail(l, items, s);
      var r', s' := [r[0] - 1] + r[1..], [s[0] - 1] + s[1..];
      OneRoute(l, w1, items[1..], depth, r', s', id);
      assert r[1..] == r'[1..] && s[1..] == s'[1..];
    } else if r[0] > 0 {
      HeadThenLater(l, w, items, depth, s, r, id);
    } else if s[0] > 0 {
      HeadThenLater(l, w, items, depth, r, s, id);
    } else {
      NodeSteps(l, w, items[0], depth);
      if |r| > 1 && |s| > 1 {
        OneRoute(l, Entered(l, w, items[0]), Children(l, items[0]), depth + 1, r[1..], s[1..], id);
      }
    }
    assert r == [r[0]] + r[1..] && s == [s[0]] + s[1..];
  }

  /** Once a platform is taken by the head entry, no later entry leads to it again. */
  lemma {:induction false} HeadThenLater(l: Layout, w: Walk, items: seq<Value>, depth: nat, r: seq<nat>, s: seq<nat>,
                                         id: string)
    requires Nodes(l, w, items, depth).Some?
    requires Route(l, items, r) && KindOf(l, At(l, items, r)) == Some(Runnable(id)) && r[0] == 0
    requires Route(l, items, s) && s[0] > 0
    ensures KindOf(l, At(l, items, s)) != Some(Runnable(id))
  {
    hide Node, KindOf, Named, Paths, ClaimOk, Children;
    var w1 := Node(l, w, items[0], depth).value;
    assert [items[0]][1..] == [] && Nodes(l, w, [items[0]], depth) == Some(w1);
    RouteAccounted(l, w, [items[0]], depth, r);
    RouteTail(l, items, s);
    RouteAccounted(l, w1, items[1..], depth, [s[0] - 1] + s[1..]);
  }

  /** Which platform a manifest is runnable on is decided by its digest alone. */
  lemma DigestDecidesPlatform(l: Layout, d: Value, e: Value, a: string, b: string)
    requires KindOf(l, d) == Some(Runnable(a)) && KindOf(l, e) == Some(Runnable(b))
    requires DigestOf(d) == DigestOf(e)
    ensures a == b
  {
    hide DescriptorOk, HeaderOk, ConfigOk, AttestationKind, RunnableLayersOk, LabelsOk, IsManifestType, IsIndexType,
         ConfigPlatform;
  }

  // ----- the accepted layout

  /** An accepted layout has no unreferenced and no missing blob: the files below oci/blobs/
      are exactly the blobs some descriptor met from oci/index.json names. */
  lemma BlobsAreReached(l: Layout)
    requires Verify(l).Some?
    ensures forall p :: p in BlobsPresent(l) <==> Reached(l, Roots(l), p)
    ensures Verify(l).value.used == BlobsPresent(l)
  {
    hide Nodes, Named, Paths, Children, KindOf, BlobsPresent, FindingsOk, RootOk, Roots;
    forall p ensures p in BlobsPresent(l) <==> Reached(l, Roots(l), p) {
      if p in BlobsPresent(l) {
        var r := UsedRoute(l, START, Roots(l), 0, p);
      }
      if Reached(l, Roots(l), p) {
        var r :| Route(l, Roots(l), r) && p in Paths(Named(l, At(l, Roots(l), r)));
        RouteAccounted(l, START, Roots(l), 0, r);
      }
    }
  }

  /** Below an accepted index every route has at most 33 entries and meets no digest twice. */
  lemma RoutesAreBounded(l: Layout, r: seq<nat>)
    requires Verify(l).Some? && Route(l, Roots(l), r)
    ensures |r| <= 33
    ensures Distinct(Trail(l, Roots(l), r))
  {
    hide Nodes, Named, Paths, Children, KindOf, BlobsPresent, FindingsOk, RootOk, Roots;
    RouteAccounted(l, START, Roots(l), 0, r);
    TrailFresh(l, START, Roots(l), 0, r);
  }

  /** The platform map is exactly what the runnable manifests say, and the two manifests differ. */
  lemma PlatformsAreReached(l: Layout)
    requires Verify(l).Some?
    ensures var platforms := Verify(l).value.platforms;
            && platforms.Keys == {AMD64, ARM64}
            && platforms[AMD64] != platforms[ARM64]
            && forall id, digest ::
                 (id in platforms && platforms[id] == digest) <==> ReachesRunnable(l, Roots(l), id, digest)
  {
    hide Nodes, Named, Paths, Children, KindOf, BlobsPresent, RootOk, Roots;
    var w := Verify(l).value;
    forall id, digest
      ensures (id in w.platforms && w.platforms[id] == digest) <==> ReachesRunnable(l, Roots(l), id, digest)
    {
      if id in w.platforms {
        var r := PlatformRoute(l, START, Roots(l), 0, id);
        RouteAccounted(l, START, Roots(l), 0, r);
      }
      if ReachesRunnable(l, Roots(l), id, digest) {
        var r :| Route(l, Roots(l), r) && KindOf(l, At(l, Roots(l), r)) == Some(Runnable(id))
                 && DigestOf(At(l, Roots(l), r)) == digest;
        RouteAccounted(l, START, Roots(l), 0, r);
      }
    }
    assert AMD64 != ARM64 by {
      assert AMD64[7] != ARM64[7];
    }
    var r := PlatformRoute(l, START, Roots(l), 0, AMD64);
    var s := PlatformRoute(l, START, Roots(l), 0, ARM64);
    RouteAccounted(l, START, Roots(l), 0, r);
    RouteAccounted(l, START, Roots(l), 0, s);
    if w.platforms[AMD64] == w.platforms[ARM64] {
      DigestDecidesPlatform(l, At(l, Roots(l), r), At(l, Roots(l), s), AMD64, ARM64);
    }
  }

  /** Each runnable manifest is visited once: its platform is met on a single route. */
  lemma RunnablesAreVisitedOnce(l: Layout, r: seq<nat>, s: seq<nat>, id: string)
    requires Verify(l).Some?
    requires Route(l, Roots(l), r) && KindOf(l, At(l, Roots(l), r)) == Some(Runnable(id))
    requires Route(l, Roots(l), s) && KindOf(l, At(l, Roots(l), s)) == Some(Runnable(id))
    ensures r == s
  {
    hide Nodes, Named, Paths, Children, KindOf, BlobsPresent, FindingsOk, RootOk, Roots;
    OneRoute(l, START, Roots(l), 0, r, s, id);
  }

  /** The predicates held against a manifest are exactly those its attestations carry. */
  lemma PredicatesAreReached(l: Layout)
    requires Verify(l).Some?
    ensures var attestations := Verify(l).value.attestations;
            forall reference, p ::
              (reference in attestations && p in attestations[reference]) <==>
              ReachesPredicate(l, Roots(l), reference, p)
  {
    hide Nodes, Named, Paths, Children, KindOf, BlobsPresent, FindingsOk, RootOk, Roots;
    var m := Verify(l).value.attestations;
    forall reference, p
      ensures (reference in m && p in m[reference]) <==> ReachesPredicate(l, Roots(l), reference, p)
    {
      if reference in m && p in m[reference] {
        var r := PredicateRoute(l, START, Roots(l), 0, reference, p);
      }
      if ReachesPredicate(l, Roots(l), reference, p) {
        var r :| Route(l, Roots(l), r) && AttestsTo(KindOf(l, At(l, Roots(l), r)), reference, p);
        RouteAccounted(l, START, Roots(l), 0, r);
      }
    }
  }
}
