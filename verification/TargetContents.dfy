/** What tools/render_contracts.py and tools/render_settings.py write into a registered file, and when
    they refuse it. */
module TargetContents {
  import opened Wrappers
  import opened ByteStrings
  import opened MarkerLines
  import opened RegionSplicer
  import opened RenderTargets
  import opened RegionBodies

  /** The text stands at one position of the document and nowhere else. */
  ghost predicate Unique(d: Bytes, text: Bytes) {
    exists p: nat :: OnceAt(d, text, p)
  }

  /** These are the markers of a region, each with its one place in the document. */
  ghost predicate Marks(syn: Syntax, d: Bytes, opening: Bytes, closing: Bytes, name: Bytes) {
    && opening == syn.begin + [32] + name + syn.tail && closing == syn.end + [32] + name + syn.tail
    && Unique(d, opening) && Unique(d, closing)
  }

  /** The document's marker lines are those of the regions, in order. */
  ghost predicate Ready(syn: Syntax, d: Bytes, regions: seq<Region>)
    requires SyntaxOk(syn)
  {
    var markers := Markers(syn, Lines(d));
    && |markers| == 2 * |regions|
    && forall k | 0 <= k < |regions| :: Marks(syn, d, markers[2 * k], markers[2 * k + 1], regions[k].name)
  }

  lemma ExpectedAre(syn: Syntax, names: seq<Bytes>, markers: seq<Bytes>)
    ensures markers == Expected(syn, names) <==>
            && |markers| == 2 * |names|
            && forall k | 0 <= k < |names| ::
                 markers[2 * k] == Opening(syn, names[k]) && markers[2 * k + 1] == Closing(syn, names[k])
  {
    hide Opening, Closing, Expected;
    ExpectedLength(syn, names);
    forall k | 0 <= k < |names|
      ensures Expected(syn, names)[2 * k] == Opening(syn, names[k])
      ensures Expected(syn, names)[2 * k + 1] == Closing(syn, names[k])
    {
      ExpectedAt(syn, names, k);
    }
    if |markers| == 2 * |names| {
      PairByPair(markers, Expected(syn, names), |names|);
    }
  }

  lemma PairByPair(a: seq<Bytes>, b: seq<Bytes>, n: nat)
    requires |a| == |b| == 2 * n
    ensures a == b <==> forall k | 0 <= k < n :: a[2 * k] == b[2 * k] && a[2 * k + 1] == b[2 * k + 1]
  {
    if forall k | 0 <= k < n :: a[2 * k] == b[2 * k] && a[2 * k + 1] == b[2 * k + 1] {
      forall i | 0 <= i < |a| ensures a[i] == b[i] {
        var k := i / 2;
        assert a[2 * k] == b[2 * k] && a[2 * k + 1] == b[2 * k + 1];
      }
    }
  }

  lemma {:induction false} ExpectedAt(syn: Syntax, names: seq<Bytes>, k: nat)
    requires k < |names|
    ensures |Expected(syn, names)| == 2 * |names|
    ensures Expected(syn, names)[2 * k] == Opening(syn, names[k])
    ensures Expected(syn, names)[2 * k + 1] == Closing(syn, names[k])
  {
    hide Opening, Closing;
    ExpectedLength(syn, names);
    if k > 0 {
      ExpectedAt(syn, names[1..], k - 1);
    }
  }

  lemma AcceptsExactly(syn: Syntax, d: Bytes, generated: map<Bytes, Bytes>, regions: seq<Region>)
    requires SyntaxOk(syn)
    ensures Accepts(syn, d, generated, NamesOf(regions)) <==>
            Ready(syn, d, regions) && KeysMatch(NamesOf(regions), generated)
  {
    var names := NamesOf(regions);
    var markers := Markers(syn, Lines(d));
    ExpectedAre(syn, names, markers);
    hide Markers, Lines, Count, Expected, SyntaxOk, KeysMatch, Marks, Unique, Opening, Closing;
    if |markers| == 2 * |names| {
      forall k | 0 <= k < |names|
        ensures Marks(syn, d, markers[2 * k], markers[2 * k + 1], names[k]) <==>
                && markers[2 * k] == Opening(syn, names[k]) && markers[2 * k + 1] == Closing(syn, names[k])
                && Count(d, Opening(syn, names[k])) == 1 && Count(d, Closing(syn, names[k])) == 1
      {
        MarksAre(syn, d, markers[2 * k], markers[2 * k + 1], names[k]);
      }
    }
  }

  lemma MarksAre(syn: Syntax, d: Bytes, opening: Bytes, closing: Bytes, name: Bytes)
    requires SyntaxOk(syn)
    ensures Marks(syn, d, opening, closing, name) <==>
            && opening == Opening(syn, name) && closing == Closing(syn, name)
            && Count(d, Opening(syn, name)) == 1 && Count(d, Closing(syn, name)) == 1
  {
    CountIsOne(d, Opening(syn, name));
    CountIsOne(d, Closing(syn, name));
    hide Count, OnceAt, SyntaxOk;
  }

  /** Only a dictionary with just the regions' names is accepted. */
  lemma KeysAre(names: seq<Bytes>, generated: map<Bytes, Bytes>)
    ensures KeysMatch(names, generated) <==>
            forall name :: name in generated <==> exists k | 0 <= k < |names| :: name == names[k]
  {
  }

  /** The dictionary of renderings exists when none raises, and holds each name's last rendering. */
  lemma {:induction false} GeneratesExactly(regions: seq<Region>)
    ensures Generate(regions).Some? <==> forall i | 0 <= i < |regions| :: regions[i].rendering.Some?
    ensures Generate(regions).Some? ==>
              forall i | 0 <= i < |regions| && LastOf(regions, i) ::
                regions[i].name in Generate(regions).value &&
                Generate(regions).value[regions[i].name] == regions[i].rendering.value
  {
    if regions != [] {
      var n := |regions| - 1;
      var before := regions[..n];
      GeneratesExactly(before);
      assert forall i | 0 <= i < n :: before[i] == regions[i];
      if Generate(regions).Some? {
        forall i | 0 <= i < |regions| && LastOf(regions, i)
          ensures regions[i].name in Generate(regions).value
          ensures Generate(regions).value[regions[i].name] == regions[i].rendering.value
        {
          if i < n {
            assert regions[n].name != regions[i].name && LastOf(before, i);
          }
        }
      }
    }
  }

  /** No later region has the name. */
  predicate LastOf(regions: seq<Region>, i: nat)
    requires i < |regions|
  {
    forall j | i < j < |regions| :: regions[j].name != regions[i].name
  }

  /** Main result: a file has a wanted content exactly when it can be read, every renderer returns, and
      the file is ready for the regions. */
  lemma WantedExactly(syn: Syntax, files: map<string, Bytes>, t: Target)
    requires SyntaxOk(syn)
    ensures Wanted(syn, files, t).Some? <==>
            && t.path in files && (forall i | 0 <= i < |t.regions| :: t.regions[i].rendering.Some?)
            && Ready(syn, files[t.path], t.regions)
  {
    hide Accepts, Ready, SyntaxOk, Generate, KeysMatch, NamesOf;
    GeneratesExactly(t.regions);
    GenerateKeys(t.regions);
    if t.path in files && Generate(t.regions).Some? {
      var g := Generate(t.regions).value;
      AcceptsExactly(syn, files[t.path], g, t.regions);
      ReplaceAccepts(syn, files[t.path], g, NamesOf(t.regions));
      hide Replace;
    }
  }

  /** Main result: where the renderings are clean, the k-th region of the wanted content is the k-th
      rendering, trimmed and closed by a line feed. */
  lemma WantedHolds(syn: Syntax, files: map<string, Bytes>, t: Target, k: nat)
    requires SyntaxOk(syn) && Wanted(syn, files, t).Some? && k < |t.regions| && LastOf(t.regions, k)
    requires Generate(t.regions).Some?
    requires var g := Generate(t.regions).value;
             && (forall i | 0 <= i < |NamesOf(t.regions)| :: NamesOf(t.regions)[i] in g)
             && CleanBodies(syn, NamesOf(t.regions), g)
    ensures var bodies := Bodies(syn, Lines(Wanted(syn, files, t).value), false);
            && |bodies| == |t.regions| && t.regions[k].rendering.Some?
            && exists text :: Trimmed(t.regions[k].rendering.value, text) && Flat(bodies[k]) == text + [10]
  {
    hide Accepts, SyntaxOk, Generate, Replace, CleanBodies, Lines, Bodies, Flat, Trimmed;
    GeneratesExactly(t.regions);
    var g := Generate(t.regions).value;
    ReplaceAccepts(syn, files[t.path], g, NamesOf(t.regions));
    ReplacedBodiesAreGenerated(syn, files[t.path], g, NamesOf(t.regions), k);
  }
}
