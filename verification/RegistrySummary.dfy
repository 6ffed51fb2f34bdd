/** tools/ghcr_publish.py's second walk over the same layout.  It fills caller-supplied
    dictionaries, trusts the platform a descriptor claims, and guards neither depth nor cycles. */
module RegistrySummary {
  import opened Wrappers
  import opened Json
  import opened OciLayout
  import opened OciVerify

  /** The result of code that can also exhaust the interpreter's stack. */
  datatype Outcome<+T> = Done(value: T) | Raised | Overflow {
    predicate IsFailure() {
      !Done?
    }

    function PropagateFailure<U>(): Outcome<U>
      requires !Done?
    {
      if Raised? then Raised else Overflow
    }

    function Extract(): T
      requires Done?
    {
      value
    }
  }

  function Lift<T>(o: Option<T>): Outcome<T> {
    if o.Some? then Done(o.value) else Raised
  }

  datatype Summary = Summary(
    platforms: map<string, string>,
    predicates: map<string, set<string>>,
    manifests: map<string, set<string>>)

  const EMPTY := Summary(map[], map[], map[])

  /** A JSON number as Python compares it: true is 1 and false is 0. */
  function IntOf(v: Value): Option<int> {
    match v
    case Int(n) => Some(n)
    case Bool(flag) => Some(if flag then 1 else 0)
    case _ => None
  }

  predicate HasDigestPrefix(v: Value) {
    v.Str? && |v.s| >= 7 && v.s[..7] == "sha256:"
  }

  /** _descriptor_path */
  predicate BlobMatches(l: Layout, d: Value) {
    && d.Obj?
    && HasDigestPrefix(Get(d.fields, "digest"))
    && PathOf(d) in l.files
    && IntOf(Get(d.fields, "size")) == Some(l.files[PathOf(d)].size)
    && l.files[PathOf(d)].sha256 == HexOf(DigestOf(d))
  }

  /** _read_descriptor */
  function ReadRelaxed(l: Layout, d: Value): Option<Fields> {
    if BlobMatches(l, d) && PathOf(d) in l.relaxed then Some(l.relaxed[PathOf(d)]) else None
  }

  /** _platform_key, for an architecture that can be looked up in a set. */
  function PlatformKey(platform: Value): Option<string> {
    LinuxName(Get(FieldsOf(platform), "os"), Get(FieldsOf(platform), "architecture"))
  }

  /** Looking up a list or an object in a set raises. */
  predicate Unhashable(platform: Value) {
    && Get(FieldsOf(platform), "os") == Str("linux")
    && var architecture := Get(FieldsOf(platform), "architecture");
       architecture.Arr? || architecture.Obj?
  }

  predicate RelaxedLayerOk(l: Layout, layer: Value) {
    ReadRelaxed(l, layer).Some? && Get(ReadRelaxed(l, layer).value, "predicateType").Str?
  }

  function RelaxedType(l: Layout, layer: Value): string {
    if PathOf(layer) in l.relaxed then Text(Get(l.relaxed[PathOf(layer)], "predicateType")) else ""
  }

  function RelaxedTypes(l: Layout, layers: seq<Value>): set<string> {
    set i | 0 <= i < |layers| :: RelaxedType(l, layers[i])
  }

  predicate AttestationHeaderOk(d: Value) {
    IsManifestType(MediaOf(d)) && HasDigestPrefix(ReferenceOf(d)) && HasDigestPrefix(Get(FieldsOf(d), "digest"))
  }

  /** _collect_attestation */
  function CollectAttestation(l: Layout, c: Summary, d: Value): Option<Summary> {
    if !AttestationHeaderOk(d) then None else
    var manifest :- ReadRelaxed(l, d);
    var layers := LayersOf(manifest);
    if layers == [] || exists i | 0 <= i < |layers| :: !RelaxedLayerOk(l, layers[i]) then None
    else Some(c.(manifests := AddPredicates(c.manifests, ReferenceOf(d).s, {DigestOf(d)}),
                 predicates := AddPredicates(c.predicates, ReferenceOf(d).s, RelaxedTypes(l, layers))))
  }

  /** The body of _collect_index's loop; `stack` is how many more frames the interpreter allows. */
  function CollectOne(l: Layout, c: Summary, d: Value, stack: nat): Outcome<Summary>
    decreases stack, 0
  {
    if !d.Obj? || Unhashable(PlatformOf(d)) then Raised
    else if PlatformKey(PlatformOf(d)).Some? then
      if !IsManifestType(MediaOf(d)) || ReadRelaxed(l, d).None? then Raised
      else Done(c.(platforms := c.platforms[PlatformKey(PlatformOf(d)).value := DigestOf(d)]))
    else if IsUnknownPlatform(PlatformOf(d)) then Lift(CollectAttestation(l, c, d))
    else if IsIndexType(MediaOf(d)) then
      var doc :- Lift(ReadRelaxed(l, d));
      if stack == 0 then Overflow else Collect(l, c, doc, stack - 1)
    else Raised
  }

  function CollectAll(l: Layout, c: Summary, items: seq<Value>, stack: nat): Outcome<Summary>
    decreases stack, 1, |items|
  {
    if items == [] then Done(c) else
    var c1 :- CollectOne(l, c, items[0], stack);
    CollectAll(l, c1, items[1..], stack)
  }

  /** _collect_index */
  function Collect(l: Layout, c: Summary, doc: Fields, stack: nat): Outcome<Summary>
    decreases stack, 2
  {
    if ChildrenOf(doc) == [] then Raised else CollectAll(l, c, ChildrenOf(doc), stack)
  }

  /** The root document is skipped when it only points at one index without a platform. */
  predicate IsRedirect(root: Fields) {
    && |ChildrenOf(root)| == 1
    && IsIndexType(MediaOf(ChildrenOf(root)[0]))
    && PlatformOf(ChildrenOf(root)[0]) == Null
  }

  datatype Published = Published(digest: string, found: Summary)

  /** summarize_oci_layout */
  function Summarize(l: Layout, stack: nat): Outcome<Published> {
    if LAYOUT_FILE !in l.relaxed || l.relaxed[LAYOUT_FILE] != map["imageLayoutVersion" := Str("1.0.0")]
       || INDEX_FILE !in l.relaxed || INDEX_FILE !in l.files then Raised else
    var root := l.relaxed[INDEX_FILE];
    var selected :- if IsRedirect(root) then Lift(ReadRelaxed(l, ChildrenOf(root)[0])) else Done(root);
    var c :- Collect(l, EMPTY, selected, stack);
    if FindingsOk(c.platforms, c.predicates) && c.manifests.Keys == c.platforms.Values
    then Done(Published(PublishDigest(l, root), c))
    else Raised
  }

  function PublishDigest(l: Layout, root: Fields): string
    requires INDEX_FILE in l.files
  {
    if IsRedirect(root) then DigestOf(ChildrenOf(root)[0]) else "sha256:" + l.files[INDEX_FILE].sha256
  }

  // ----- the walk as the code performs it

  class Collector {
    const l: Layout
    var platforms: map<string, string>
    var predicates: map<string, set<string>>
    var manifests: map<string, set<string>>

    constructor (l: Layout)
      ensures this.l == l && State() == EMPTY
    {
      this.l := l;
      platforms, predicates, manifests := map[], map[], map[];
    }

    ghost function State(): Summary
      reads this
    {
      Summary(platforms, predicates, manifests)
    }

    method CollectIndex(document: Fields, stack: nat) returns (outcome: Outcome<()>)
      modifies this
      ensures Collect(l, old(State()), document, stack) == Finish(outcome, State())
      decreases stack
    {
      hide ReadRelaxed, PlatformKey, Unhashable, IsManifestType, IsIndexType, IsUnknownPlatform, CollectAttestation;
      var items := ChildrenOf(document);
      if items == [] {
        return Raised;
      }
      for i := 0 to |items|
        invariant CollectAll(l, old(State()), items, stack) == CollectAll(l, State(), items[i..], stack)
      {
        var d := items[i];
        assert items[i..][0] == d && items[i..][1..] == items[i + 1..];
        if !d.Obj? || Unhashable(PlatformOf(d)) {
          return Raised;
        }
        var key := PlatformKey(PlatformOf(d));
        if key.Some? {
          if !IsManifestType(MediaOf(d)) {
            return Raised;
          }
          platforms := platforms[key.value := DigestOf(d)];
          if ReadRelaxed(l, d).None? {
            return Raised;
          }
        } else if IsUnknownPlatform(PlatformOf(d)) {
          var ok := CollectStatements(d);
          if !ok {
            return Raised;
          }
        } else if IsIndexType(MediaOf(d)) {
          var document' := ReadRelaxed(l, d);
          if document'.None? {
            return Raised;
          }
          if stack == 0 {
            return Overflow;
          }
          outcome := CollectIndex(document'.value, stack - 1);
          if !outcome.Done? {
            return;
          }
        } else {
          return Raised;
        }
      }
      outcome := Done(());
    }

    /** _collect_attestation */
    method CollectStatements(d: Value) returns (ok: bool)
      modifies this
      ensures ok <==> CollectAttestation(l, old(State()), d).Some?
      ensures ok ==> State() == CollectAttestation(l, old(State()), d).value
    {
      hide ReadRelaxed, RelaxedTypes, RelaxedType;
      if !AttestationHeaderOk(d) {
        return false;
      }
      var manifest := ReadRelaxed(l, d);
      if manifest.None? || LayersOf(manifest.value) == [] {
        return false;
      }
      var layers := LayersOf(manifest.value);
      var reference := ReferenceOf(d).s;
      manifests := AddPredicates(manifests, reference, {DigestOf(d)});
      predicates := AddPredicates(predicates, reference, {});
      NoRelaxedTypes(l);
      for i := 0 to |layers|
        invariant platforms == old(platforms)
        invariant manifests == AddPredicates(old(manifests), reference, {DigestOf(d)})
        invariant predicates == AddPredicates(old(predicates), reference, RelaxedTypes(l, layers[..i]))
        invariant forall j | 0 <= j < i :: RelaxedLayerOk(l, layers[j])
      {
        if !RelaxedLayerOk(l, layers[i]) {
          return false;
        }
        assert layers[..i + 1] == layers[..i] + [layers[i]];
        RelaxedTypesAppend(l, layers[..i], layers[i]);
        AddPredicatesTwice(old(predicates), reference, RelaxedTypes(l, layers[..i]), {RelaxedType(l, layers[i])});
        predicates := AddPredicates(predicates, reference, {RelaxedType(l, layers[i])});
      }
      assert layers[..|layers|] == layers;
      ok := true;
    }
  }

  ghost function Finish(outcome: Outcome<()>, c: Summary): Outcome<Summary> {
    match outcome
    case Done(_) => Done(c)
    case Raised => Raised
    case Overflow => Overflow
  }

  lemma NoRelaxedTypes(l: Layout)
    ensures RelaxedTypes(l, []) == {}
  {
  }

  lemma RelaxedTypesAppend(l: Layout, layers: seq<Value>, layer: Value)
    ensures RelaxedTypes(l, layers + [layer]) == RelaxedTypes(l, layers) + {RelaxedType(l, layer)}
  {
    var more := layers + [layer];
    assert more[|layers|] == layer;
    forall p | p in RelaxedTypes(l, layers) ensures p in RelaxedTypes(l, more) {
      var i :| 0 <= i < |layers| && RelaxedType(l, layers[i]) == p;
      assert more[i] == layers[i];
    }
  }
}
