/** The two walks over one layout agree: tools/ghcr_publish.py's summary never contradicts the
    inventory that tools/candidate_inventory.py accepted, and the module says exactly when the
    second walk goes through at all. */
module RegistryAgreement {
  import opened Wrappers
  import opened Json
  import opened OciLayout
  import opened OciVerify
  import opened OciReach
  import opened RegistrySummary

  /** Both walks hold the same findings. */
  ghost predicate Same(w: Walk, c: Summary) {
    && w.platforms == c.platforms
    && w.attestations == c.predicates
    && c.manifests.Keys == c.predicates.Keys
  }

  /** The second reader returns an object for this descriptor's blob. */
  predicate Readable(l: Layout, d: Value) {
    PathOf(d) in l.relaxed
  }

  /** The descriptor says outright what the first walk works out from the blob's content:
      an image or attestation states its platform, a nested index states none. */
  predicate Explicit(l: Layout, d: Value) {
    && Readable(l, d)
    && KindOf(l, d).Some?
    && match KindOf(l, d).value
       case Nested(_) => PlatformOf(d) == Null
       case Runnable(_) => PlatformOf(d) != Null
       case Attests(_, _) =>
         && PlatformOf(d) != Null
         && forall i | 0 <= i < |LayersOf(l.relaxed[PathOf(d)])| :: Readable(l, LayersOf(l.relaxed[PathOf(d)])[i])
  }

  /** Every entry the walk meets below these is explicit. */
  ghost predicate AllExplicit(l: Layout, items: seq<Value>) {
    forall r | Route(l, items, r) :: Explicit(l, At(l, items, r))
  }

  lemma CheckedBlobMatches(l: Layout, d: Value)
    requires DescriptorOk(l, d)
    ensures BlobMatches(l, d)
  {
  }

  // ----- one entry

  /** A nested index without a platform is read and descended into by both walks. */
  lemma NestedEntry(l: Layout, d: Value, c: Summary, stack: nat)
    requires OneCodec(l)
    requires KindOf(l, d).Some? && KindOf(l, d).value.Nested?
    ensures PlatformOf(d) == Null && Readable(l, d) ==>
              CollectOne(l, c, d, stack) ==
              (if stack == 0 then Overflow else CollectAll(l, c, Children(l, d), stack - 1))
    ensures PlatformOf(d) == Null && !Readable(l, d) ==> CollectOne(l, c, d, stack) == Raised
    ensures Children(l, d) != []
  {
    hide DescriptorOk, HeaderOk, ManifestKind, IsManifestType, IsIndexType, BlobMatches;
    CheckedBlobMatches(l, d);
  }

  /** An image: the platform its descriptor states is the one its config states. */
  lemma RunnableEntry(l: Layout, d: Value, c: Summary, stack: nat)
    requires OneCodec(l)
    requires KindOf(l, d).Some? && KindOf(l, d).value.Runnable?
    ensures Explicit(l, d) ==>
              CollectOne(l, c, d, stack) ==
              Done(c.(platforms := c.platforms[KindOf(l, d).value.identity := DigestOf(d)]))
    ensures !Explicit(l, d) ==> CollectOne(l, c, d, stack) == Raised
  {
    hide DescriptorOk, HeaderOk, ConfigOk, ConfigPlatform, IsManifestType, IsIndexType, BlobMatches, LabelsOk,
         RunnableLayersOk, AttestationKind;
    CheckedBlobMatches(l, d);
    TypesDisjoint(MediaOf(d));
  }

  /** Every layer of an accepted attestation is a readable, typed statement to the first walk. */
  lemma AttestationStatements(l: Layout, d: Value, i: nat)
    requires KindOf(l, d).Some? && KindOf(l, d).value.Attests?
    requires StrictDoc(l, d).Some? && i < |LayersOf(StrictDoc(l, d).value)|
    ensures var layer := LayersOf(StrictDoc(l, d).value)[i];
            && DescriptorOk(l, layer) && StrictDoc(l, layer).Some?
            && Get(StrictDoc(l, layer).value, "predicateType").Str?
  {
    hide HeaderOk, ConfigOk, ConfigPlatform, IsManifestType, IsIndexType, DescriptorOk, PredicateOk, Binds,
         IsStatementLayerType;
    var doc := StrictDoc(l, d).value;
    assert StatementLayerOk(l, LayersOf(doc)[i], ReferenceOf(d).s, Get(doc, "subject") == Null);
  }

  lemma AttestationLayers(l: Layout, d: Value)
    requires OneCodec(l)
    requires KindOf(l, d).Some? && KindOf(l, d).value.Attests? && Readable(l, d)
    ensures StrictDoc(l, d) == Some(l.relaxed[PathOf(d)])
    ensures var layers := LayersOf(l.relaxed[PathOf(d)]);
            && layers != []
            && (forall i | 0 <= i < |layers| :: Readable(l, layers[i]) <==> RelaxedLayerOk(l, layers[i]))
            && ((forall i | 0 <= i < |layers| :: Readable(l, layers[i])) ==>
                  RelaxedTypes(l, layers) == KindOf(l, d).value.predicates)
  {
    hide HeaderOk, ConfigOk, ConfigPlatform, IsManifestType, IsIndexType, BlobMatches, DescriptorOk, StatementLayerOk;
    var layers := LayersOf(l.relaxed[PathOf(d)]);
    forall i | 0 <= i < |layers| ensures Readable(l, layers[i]) <==> RelaxedLayerOk(l, layers[i]) {
      AttestationStatements(l, d, i);
      CheckedBlobMatches(l, layers[i]);
    }
    if forall i | 0 <= i < |layers| :: Readable(l, layers[i]) {
      forall i | 0 <= i < |layers| ensures RelaxedType(l, layers[i]) == PredicateTypeOf(l, layers[i]) {
        AttestationStatements(l, d, i);
      }
    }
  }

  lemma AttestationHeader(l: Layout, d: Value)
    requires KindOf(l, d).Some? && KindOf(l, d).value.Attests?
    ensures AttestationHeaderOk(d) && ReferenceOf(d) == Str(KindOf(l, d).value.reference)
    ensures BlobMatches(l, d)
    ensures PlatformOf(d) == Null || IsUnknownPlatform(PlatformOf(d))
    ensures !IsIndexType(MediaOf(d))
  {
    hide HeaderOk, ConfigOk, IsIndexType, StatementLayerOk;
    TypesDisjoint(MediaOf(d));
    CheckedBlobMatches(l, d);
    assert IsDigest(DigestOf(d)) && DigestOf(d)[..7] == "sha256:";
  }

  /** An attestation: both walks take the reference from the annotation and the same types
      from the same layers. */
  lemma AttestationEntry(l: Layout, d: Value, c: Summary, stack: nat)
    requires OneCodec(l)
    requires KindOf(l, d).Some? && KindOf(l, d).value.Attests?
    ensures Explicit(l, d) ==>
              CollectOne(l, c, d, stack) ==
              Done(c.(manifests := AddPredicates(c.manifests, KindOf(l, d).value.reference, {DigestOf(d)}),
                      predicates :=
                        AddPredicates(c.predicates, KindOf(l, d).value.reference, KindOf(l, d).value.predicates)))
    ensures !Explicit(l, d) ==> CollectOne(l, c, d, stack) == Raised
  {
    hide KindOf, AttestationHeaderOk, BlobMatches, RelaxedTypes, RelaxedLayerOk, IsIndexType;
    AttestationHeader(l, d);
    if Readable(l, d) {
      AttestationLayers(l, d);
    }
  }

  // ----- the whole walk

  /** The second walk cannot run out of stack below an accepted index. */
  lemma {:induction false} NoOverflow(l: Layout, w: Walk, items: seq<Value>, depth: nat, c: Summary, stack: nat)
    requires OneCodec(l) && Nodes(l, w, items, depth).Some? && depth + stack >= MAX_DEPTH
    ensures CollectAll(l, c, items, stack) != Overflow
    decreases MAX_DEPTH + 1 - depth, |items|
  {
    hide Node, KindOf, Named, Paths, ClaimOk, Children, CollectOne, Explicit, BlobMatches, IsIndexType, IsManifestType,
         AddPredicates, CollectAttestation;
    if items != [] {
      var d := items[0];
      NodeSteps(l, w, d, depth);
      assert CollectOne(l, c, d, stack) != Overflow by {
        match KindOf(l, d).value {
          case Runnable(_) => RunnableEntry(l, d, c, stack);
          case Attests(_, _) => AttestationEntry(l, d, c, stack);
          case Nested(children) =>
            NestedEntry(l, d, c, stack);
            NoOverflow(l, Entered(l, w, d), children, depth + 1, c, if stack == 0 then 0 else stack - 1);
            ClaimedIndexIsRaised(l, d, c, stack);
            DeepIndexIsEmpty(l, Entered(l, w, d), children, depth + 1);
        }
      }
      if CollectOne(l, c, d, stack).Done? {
        NoOverflow(l, Node(l, w, d, depth).value, items[1..], depth, CollectOne(l, c, d, stack).value, stack);
      }
    }
  }

  lemma DeepIndexIsEmpty(l: Layout, w: Walk, items: seq<Value>, depth: nat)
    requires Nodes(l, w, items, depth).Some?
    ensures depth > MAX_DEPTH ==> items == []
  {
  }

  /** An index that claims a platform the first walk accepts is one the second walk rejects. */
  lemma ClaimedIndexIsRaised(l: Layout, d: Value, c: Summary, stack: nat)
    requires KindOf(l, d).Some? && KindOf(l, d).value.Nested?
    requires exists added :: ClaimOk(PlatformOf(d), added)
    ensures PlatformOf(d) != Null ==> CollectOne(l, c, d, stack) == Raised
  {
    hide DescriptorOk, HeaderOk, ManifestKind, IsManifestType, IsIndexType, BlobMatches;
    TypesDisjoint(MediaOf(d));
  }

  /** Where both walks succeed they end with the same findings. */
  lemma {:induction false} Lockstep(l: Layout, w: Walk, items: seq<Value>, depth: nat, c: Summary, stack: nat)
    requires OneCodec(l) && Nodes(l, w, items, depth).Some? && CollectAll(l, c, items, stack).Done?
    requires Same(w, c)
    ensures Same(Nodes(l, w, items, depth).value, CollectAll(l, c, items, stack).value)
    decreases MAX_DEPTH + 1 - depth, |items|
  {
    hide Node, KindOf, Named, Paths, ClaimOk, Children, CollectOne, Explicit, BlobMatches, IsIndexType, IsManifestType,
         CollectAttestation;
    if items != [] {
      var d := items[0];
      var w1, c1 := Node(l, w, d, depth).value, CollectOne(l, c, d, stack).value;
      NodeSteps(l, w, d, depth);
      assert Same(w1, c1) by {
        match KindOf(l, d).value {
          case Runnable(_) => RunnableEntry(l, d, c, stack);
          case Attests(_, _) => AttestationEntry(l, d, c, stack);
          case Nested(children) =>
            NestedEntry(l, d, c, stack);
            ClaimedIndexIsRaised(l, d, c, stack);
            Lockstep(l, Entered(l, w, d), children, depth + 1, c, stack - 1);
        }
      }
      Lockstep(l, w1, items[1..], depth, c1, stack);
    }
  }

  /** With enough stack, explicit descriptors are all the second walk needs. */
  lemma {:induction false} ExplicitSuffices(l: Layout, w: Walk, items: seq<Value>, depth: nat, c: Summary, stack: nat)
    requires OneCodec(l) && Nodes(l, w, items, depth).Some? && depth + stack >= MAX_DEPTH
    requires AllExplicit(l, items)
    ensures CollectAll(l, c, items, stack).Done?
    decreases MAX_DEPTH + 1 - depth, |items|
  {
    hide Node, Named, Paths, ClaimOk, Children, CollectOne, KindOf, BlobMatches, IsIndexType, IsManifestType,
         AddPredicates, CollectAttestation;
    if items != [] {
      var d := items[0];
      assert Route(l, items, [0]) && At(l, items, [0]) == d;
      assert Explicit(l, d);
      NodeSteps(l, w, d, depth);
      assert CollectOne(l, c, d, stack).Done? by {
        match KindOf(l, d).value {
          case Runnable(_) => RunnableEntry(l, d, c, stack);
          case Attests(_, _) => AttestationEntry(l, d, c, stack);
          case Nested(children) =>
            NestedEntry(l, d, c, stack);
            DeepIndexIsEmpty(l, Entered(l, w, d), children, depth + 1);
            forall r | Route(l, children, r) ensures Explicit(l, At(l, children, r)) {
              RouteInto(l, items, r);
            }
            ExplicitSuffices(l, Entered(l, w, d), children, depth + 1, c, stack - 1);
        }
      }
      forall r | Route(l, items[1..], r) ensures Explicit(l, At(l, items[1..], r)) {
        RoutePast(l, items, r);
      }
      ExplicitSuffices(l, Node(l, w, d, depth).value, items[1..], depth, CollectOne(l, c, d, stack).value, stack);
    }
  }

  /** And the second walk gets through only if every descriptor on every route is explicit. */
  lemma {:induction false} ExplicitIsNeeded(l: Layout, w: Walk, items: seq<Value>, depth: nat, c: Summary, stack: nat,
                                            r: seq<nat>)
    requires OneCodec(l) && Nodes(l, w, items, depth).Some? && CollectAll(l, c, items, stack).Done?
    requires Route(l, items, r)
    ensures Explicit(l, At(l, items, r))
    decreases MAX_DEPTH + 1 - depth, |items|
  {
    hide Node, Named, Paths, ClaimOk, Children, CollectOne, KindOf, BlobMatches, IsIndexType, IsManifestType,
         AddPredicates, CollectAttestation;
    var d := items[0];
    NodeSteps(l, w, d, depth);
    if r[0] > 0 {
      RouteTail(l, items, r);
      ExplicitIsNeeded(l, Node(l, w, d, depth).value, items[1..], depth, CollectOne(l, c, d, stack).value, stack,
                       [r[0] - 1] + r[1..]);
    } else {
      match KindOf(l, d).value {
        case Runnable(_) => RunnableEntry(l, d, c, stack);
        case Attests(_, _) => AttestationEntry(l, d, c, stack);
        case Nested(children) =>
          NestedEntry(l, d, c, stack);
          ClaimedIndexIsRaised(l, d, c, stack);
          if |r| > 1 {
            ExplicitIsNeeded(l, Entered(l, w, d), children, depth + 1, c, stack - 1, r[1..]);
          }
      }
    }
  }

  // ----- the two verdicts

  /** The entries summarize_oci_layout starts from. */
  function SelectedItems(l: Layout): seq<Value> {
    if INDEX_FILE in l.strict && IsRedirect(l.strict[INDEX_FILE]) then Children(l, Roots(l)[0]) else Roots(l)
  }

  /** What the second walk reads before it looks at any entry. */
  predicate RootReadable(l: Layout) {
    && LAYOUT_FILE in l.relaxed
    && INDEX_FILE in l.relaxed
    && (IsRedirect(l.relaxed[INDEX_FILE]) ==> Readable(l, ChildrenOf(l.relaxed[INDEX_FILE])[0]))
  }

  lemma RedirectIsNested(l: Layout)
    requires Verify(l).Some? && IsRedirect(l.strict[INDEX_FILE])
    ensures Steps(l, START, Roots(l)[0], 0, Nodes(l, START, Roots(l), 0).value)
    ensures KindOf(l, Roots(l)[0]) == Some(Nested(Children(l, Roots(l)[0])))
    ensures BlobMatches(l, Roots(l)[0])
  {
    hide Node, HeaderOk, ManifestKind, Named, Paths, ClaimOk, BlobMatches, DescriptorOk, IsIndexType, BlobsPresent,
         FindingsOk;
    var d := Roots(l)[0];
    assert Roots(l) == [d] && [d][1..] == [];
    assert Nodes(l, START, [d], 0) == Node(l, START, d, 0);
    NodeSteps(l, START, d, 0);
    CheckedBlobMatches(l, d);
    TypesDisjoint(MediaOf(d));
  }

  /** The first walk, seen from where the second one starts. */
  lemma SelectedWalk(l: Layout) returns (w: Walk, depth: nat)
    requires OneCodec(l) && Verify(l).Some?
    ensures depth <= 1 && Same(w, EMPTY)
    ensures Nodes(l, w, SelectedItems(l), depth).Some?
    ensures Nodes(l, w, SelectedItems(l), depth).value.platforms == Verify(l).value.platforms
    ensures Nodes(l, w, SelectedItems(l), depth).value.attestations == Verify(l).value.attestations
  {
    hide Node, KindOf, Named, Paths, ClaimOk, BlobMatches, Children, Nodes, BlobsPresent, FindingsOk;
    if IsRedirect(l.strict[INDEX_FILE]) {
      RedirectIsNested(l);
      w, depth := Entered(l, START, Roots(l)[0]), 1;
    } else {
      w, depth := START, 0;
    }
  }

  /** Reading the root does not change which descriptors have to be explicit. */
  lemma SelectedRoutes(l: Layout)
    requires OneCodec(l) && Verify(l).Some? && RootReadable(l)
    ensures AllExplicit(l, SelectedItems(l)) <==> AllExplicit(l, Roots(l))
  {
    hide KindOf, Children, Nodes, BlobsPresent, FindingsOk;
    if IsRedirect(l.strict[INDEX_FILE]) {
      RedirectIsNested(l);
      var d := Roots(l)[0];
      if AllExplicit(l, SelectedItems(l)) {
        forall r | Route(l, Roots(l), r) ensures Explicit(l, At(l, Roots(l), r)) {
          if |r| > 1 {
            assert Explicit(l, At(l, SelectedItems(l), r[1..]));
          } else {
            assert Explicit(l, d);
          }
        }
      }
      if AllExplicit(l, Roots(l)) {
        forall r | Route(l, SelectedItems(l), r) ensures Explicit(l, At(l, SelectedItems(l), r)) {
          RouteInto(l, Roots(l), r);
        }
      }
    }
  }

  /** On an accepted layout the second walk is its entry walk followed by its own closing checks. */
  lemma SummarizeUnfolds(l: Layout, stack: nat)
    requires OneCodec(l) && Verify(l).Some?
    ensures !RootReadable(l) ==> Summarize(l, stack) == Raised
    ensures RootReadable(l) ==>
              var c := CollectAll(l, EMPTY, SelectedItems(l), stack);
              Summarize(l, stack) ==
              (if !c.Done? then c.PropagateFailure()
               else if FindingsOk(c.value.platforms, c.value.predicates)
                       && c.value.manifests.Keys == c.value.platforms.Values
               then Done(Published(PublishDigest(l, l.strict[INDEX_FILE]), c.value))
               else Raised)
  {
    hide KindOf, BlobMatches, Nodes, BlobsPresent, FindingsOk, CollectAll, PublishDigest, SchemaOk;
    if IsRedirect(l.strict[INDEX_FILE]) {
      RedirectIsNested(l);
      RedirectHasChildren(l);
    }
  }

  lemma RedirectHasChildren(l: Layout)
    requires Verify(l).Some? && IsRedirect(l.strict[INDEX_FILE])
    ensures Children(l, Roots(l)[0]) != []
    ensures StrictDoc(l, Roots(l)[0]).Some? && Children(l, Roots(l)[0]) == ChildrenOf(StrictDoc(l, Roots(l)[0]).value)
  {
    hide Nodes, BlobsPresent, FindingsOk, DescriptorOk, HeaderOk, ManifestKind, Verify, Steps;
    RedirectIsNested(l);
  }

  /** Main result: whenever the first walk accepts a layout and the second one also returns,
      they hold the same platform map and the same predicate set for every manifest, so
      prepare_oci_candidate's comparison with the inventory cannot fail. */
  lemma SummaryAgrees(l: Layout, stack: nat)
    requires OneCodec(l) && Verify(l).Some? && Summarize(l, stack).Done?
    ensures Summarize(l, stack).value.found.platforms == Verify(l).value.platforms
    ensures Summarize(l, stack).value.found.predicates == Verify(l).value.attestations
    ensures Summarize(l, stack).value.found.manifests.Keys == Verify(l).value.platforms.Values
  {
    hide Nodes, BlobsPresent, SelectedItems, Verify, Summarize, CollectAll;
    SummarizeUnfolds(l, stack);
    var w, depth := SelectedWalk(l);
    Lockstep(l, w, SelectedItems(l), depth, EMPTY, stack);
  }

  /** Main result: on an accepted layout the unguarded second walk never exhausts a stack of 32
      further frames, and it succeeds exactly when every descriptor on every route is explicit
      and readable; its own closing checks then cannot fail. */
  lemma SummarySucceedsExactly(l: Layout, stack: nat)
    requires OneCodec(l) && Verify(l).Some? && stack >= MAX_DEPTH
    ensures Summarize(l, stack) != Overflow
    ensures Summarize(l, stack).Done? <==>
            RootReadable(l) && AllExplicit(l, Roots(l))
  {
    hide Nodes, BlobsPresent, SelectedItems, CollectAll, Explicit, Children, RootReadable, Summarize, RootOk, Roots;
    SummarizeUnfolds(l, stack);
    if RootReadable(l) {
      SelectedRoutes(l);
      var items := SelectedItems(l);
      var w, depth := SelectedWalk(l);
      NoOverflow(l, w, items, depth, EMPTY, stack);
      if AllExplicit(l, items) {
        ExplicitSuffices(l, w, items, depth, EMPTY, stack);
      }
      if CollectAll(l, EMPTY, items, stack).Done? {
        forall r | Route(l, items, r) ensures Explicit(l, At(l, items, r)) {
          ExplicitIsNeeded(l, w, items, depth, EMPTY, stack, r);
        }
        Lockstep(l, w, items, depth, EMPTY, stack);
      }
    }
  }
}
