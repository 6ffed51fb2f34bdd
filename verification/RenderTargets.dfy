/** Laws of replaced documents, and the render_all drivers of tools/render_contracts.py and
    tools/render_settings.py, which check or rewrite every registered file. */
module RenderTargets {
  import opened Wrappers
  import opened ByteStrings
  import opened MarkerLines
  import opened RegionSplicer

  // ----- laws of replacement

  lemma {:induction false} BodiesOf(names: seq<Bytes>, generated: map<Bytes, Bytes>)
    requires forall i | 0 <= i < |names| :: names[i] in generated
    ensures |NewBodies(names, generated)| == |names| && BodiesTerminated(NewBodies(names, generated))
  {
    hide Lines, AllTerminated;
    if names != [] {
      LinesAreLines(Normalized(generated[names[0]]));
      BodiesOf(names[1..], generated);
    }
  }

  lemma {:induction false} ExpectedLength(syn: Syntax, names: seq<Bytes>)
    ensures |Expected(syn, names)| == 2 * |names|
    ensures forall i | 0 <= i < |names| ::
              Opening(syn, names[i]) in Expected(syn, names) && Closing(syn, names[i]) in Expected(syn, names)
  {
    hide Opening, Closing;
    if names != [] {
      ExpectedLength(syn, names[1..]);
      assert Expected(syn, names)[0] == Opening(syn, names[0]) && Expected(syn, names)[1] == Closing(syn, names[0]);
      forall i | 0 < i < |names|
        ensures Opening(syn, names[i]) in Expected(syn, names) && Closing(syn, names[i]) in Expected(syn, names)
      {
        assert names[1..][i - 1] == names[i];
      }
    }
  }

  lemma {:induction false} MarkersArePlain(syn: Syntax, ls: seq<Line>, m: Bytes)
    requires m in Markers(syn, ls)
    ensures Plain(m)
  {
    hide Bare;
    if m !in Markers(syn, ls[1..]) {
      assert m == Bare(ls[0]);
    } else {
      MarkersArePlain(syn, ls[1..], m);
    }
  }

  /** Generated bodies that bring no marker line and no marker text of their own. */
  ghost predicate CleanBodies(syn: Syntax, names: seq<Bytes>, generated: map<Bytes, Bytes>)
    requires forall i | 0 <= i < |names| :: names[i] in generated
  {
    var bodies := NewBodies(names, generated);
    && Unmarked(syn, bodies)
    && forall i | 0 <= i < |names| :: Free(bodies, Opening(syn, names[i])) && Free(bodies, Closing(syn, names[i]))
  }

  /** Every byte outside the bodies is preserved: a document and its replacement are the same
      frame, marker lines and their line ends included, woven with the old and the new bodies. */
  lemma ReplacementKeepsFrame(syn: Syntax, d: Bytes, generated: map<Bytes, Bytes>, names: seq<Bytes>)
    requires SyntaxOk(syn) && Accepts(syn, d, generated, names)
    ensures forall i | 0 <= i < |names| :: names[i] in generated
    ensures var frame := Frame(syn, Lines(d), false);
            && d == Flat(Weave(frame, Bodies(syn, Lines(d), false)))
            && Replace(syn, d, generated, names) == Some(Flat(Weave(frame, NewBodies(names, generated))))
            && |frame| == |names| + 1
  {
    hide Lines, Markers, Frame, Weave, Bodies, Splice;
    KeysCover(names, generated);
    LinesAreLines(d);
    SpliceIsWoven(syn, Lines(d), NewBodies(names, generated), false);
    DocumentIsWoven(syn, Lines(d), false);
    ExpectedLength(syn, names);
    FrameLength(syn, Lines(d), |names|, false);
  }

  /** The lines of a replaced document. */
  lemma ReplacedLines(syn: Syntax, d: Bytes, generated: map<Bytes, Bytes>, names: seq<Bytes>)
    requires SyntaxOk(syn) && Accepts(syn, d, generated, names)
    ensures forall i | 0 <= i < |names| :: names[i] in generated
    ensures var bodies := NewBodies(names, generated);
            && |bodies| == |names|
            && Paired(syn, Lines(d), bodies, false)
            && AreLines(Splice(syn, Lines(d), bodies, false))
            && Replace(syn, d, generated, names).Some?
            && Lines(Replace(syn, d, generated, names).value) == Splice(syn, Lines(d), bodies, false)
  {
    hide Lines, Markers, Splice, NewBodies;
    KeysCover(names, generated);
    BodiesOf(names, generated);
    ExpectedLength(syn, names);
    LinesAreLines(d);
    SpliceAreLines(syn, Lines(d), NewBodies(names, generated), false);
    LinesOfFlat(Splice(syn, Lines(d), NewBodies(names, generated), false));
  }

  lemma MarkerCountAfter(syn: Syntax, d: Bytes, generated: map<Bytes, Bytes>, names: seq<Bytes>, m: Bytes)
    requires SyntaxOk(syn) && Accepts(syn, d, generated, names) && m != []
    requires m in Expected(syn, names) && Count(d, m) == 1
    requires forall i | 0 <= i < |names| :: names[i] in generated
    ensures Count(Replace(syn, d, generated, names).value, m) == 1 <==> Free(NewBodies(names, generated), m)
  {
    hide Lines, Markers, Splice, NewBodies, Count, Flat, CountLines, Free;
    var bodies := NewBodies(names, generated);
    ReplacedLines(syn, d, generated, names);
    MarkersArePlain(syn, Lines(d), m);
    LinesAreLines(d);
    CountOfFlat(Lines(d), m);
    CountOfFlat(Splice(syn, Lines(d), bodies, false), m);
    CountOfSplice(syn, Lines(d), bodies, false, m);
  }

  /** A replaced document can be replaced again exactly when the first bodies were clean. */
  lemma SecondWriteAccepted(syn: Syntax, d: Bytes, first: map<Bytes, Bytes>, second: map<Bytes, Bytes>,
                            names: seq<Bytes>)
    requires SyntaxOk(syn) && Accepts(syn, d, first, names) && KeysMatch(names, second)
    ensures forall i | 0 <= i < |names| :: names[i] in first
    ensures Accepts(syn, Replace(syn, d, first, names).value, second, names) <==> CleanBodies(syn, names, first)
  {
    hide Lines, Markers, Splice, NewBodies, Count, Opening, Closing, Expected, Replace, Unmarked, Free, KeysMatch,
         SyntaxOk;
    KeysCover(names, first);
    ReplacedLines(syn, d, first, names);
    MarkersOfSplice(syn, Lines(d), NewBodies(names, first), false);
    UnmarkedTotal(syn, NewBodies(names, first));
    if Unmarked(syn, NewBodies(names, first)) {
      CleanSpliceKeepsMarkers(syn, Lines(d), NewBodies(names, first), false);
    }
    ExpectedLength(syn, names);
    var d' := Replace(syn, d, first, names).value;
    forall i | 0 <= i < |names|
      ensures Count(d', Opening(syn, names[i])) == 1 <==> Free(NewBodies(names, first), Opening(syn, names[i]))
      ensures Count(d', Closing(syn, names[i])) == 1 <==> Free(NewBodies(names, first), Closing(syn, names[i]))
    {
      MarkerCountAfter(syn, d, first, names, Opening(syn, names[i]));
      MarkerCountAfter(syn, d, first, names, Closing(syn, names[i]));
    }
  }

  /** Main result: after clean bodies the second write wins.  With the same bodies twice this is
      idempotence, so checking what was just written finds no drift. */
  lemma LastWriteWins(syn: Syntax, d: Bytes, first: map<Bytes, Bytes>, second: map<Bytes, Bytes>, names: seq<Bytes>)
    requires SyntaxOk(syn) && Accepts(syn, d, first, names) && KeysMatch(names, second)
    requires forall i | 0 <= i < |names| :: names[i] in first
    requires CleanBodies(syn, names, first)
    ensures Replace(syn, d, second, names).Some?
    ensures Replace(syn, Replace(syn, d, first, names).value, second, names) == Replace(syn, d, second, names)
  {
    hide Lines, Markers, Splice, NewBodies, Count, Opening, Closing, Expected, Free, KeysMatch, SyntaxOk;
    KeysCover(names, second);
    SecondWriteAccepted(syn, d, first, second, names);
    ReplacedLines(syn, d, first, names);
    ReplacedLines(syn, d, second, names);
    SpliceTwice(syn, Lines(d), NewBodies(names, first), NewBodies(names, second), false);
  }

  // ----- the drivers

  /** A registered region; the rendering is None where its renderer raises. */
  datatype Region = Region(name: Bytes, rendering: Option<Bytes>)

  datatype Target = Target(path: string, regions: seq<Region>)

  function NamesOf(regions: seq<Region>): seq<Bytes> {
    seq(|regions|, i requires 0 <= i < |regions| => regions[i].name)
  }

  /** The dictionary comprehension over the renderers: a repeated name keeps the last rendering. */
  function Generate(regions: seq<Region>): Option<map<Bytes, Bytes>> {
    if regions == [] then Some(map[]) else
    var before :- Generate(regions[..|regions| - 1]);
    var last := regions[|regions| - 1];
    var rendering :- last.rendering;
    Some(before[last.name := rendering])
  }

  /** render_target */
  function RenderTarget(syn: Syntax, t: Target, document: Bytes): Option<Bytes>
    requires SyntaxOk(syn)
  {
    var generated :- Generate(t.regions);
    Replace(syn, document, generated, NamesOf(t.regions))
  }

  /** What a target's file should hold, or None where reading, rendering or validation fails. */
  function Wanted(syn: Syntax, files: map<string, Bytes>, t: Target): Option<Bytes>
    requires SyntaxOk(syn)
  {
    if t.path in files then RenderTarget(syn, t, files[t.path]) else None
  }

  predicate AllValid(syn: Syntax, files: map<string, Bytes>, targets: seq<Target>)
    requires SyntaxOk(syn)
  {
    forall i | 0 <= i < |targets| :: Wanted(syn, files, targets[i]).Some?
  }

  predicate Drifted(syn: Syntax, files: map<string, Bytes>, t: Target)
    requires SyntaxOk(syn)
  {
    Wanted(syn, files, t) != (if t.path in files then Some(files[t.path]) else None)
  }

  /** The files after writing every target that drifted from the files as they were read. */
  function Written(syn: Syntax, files: map<string, Bytes>, targets: seq<Target>): map<string, Bytes>
    requires SyntaxOk(syn) && AllValid(syn, files, targets)
  {
    if targets == [] then files else
    var last := targets[|targets| - 1];
    var before := targets[..|targets| - 1];
    assert forall i | 0 <= i < |before| :: before[i] == targets[i];
    if Drifted(syn, files, last)
    then Written(syn, files, before)[last.path := Wanted(syn, files, last).value]
    else Written(syn, files, before)
  }

  /** The first target that drifted and cannot be opened for writing, or the number of targets. */
  function FirstRefused(syn: Syntax, files: map<string, Bytes>, refused: set<string>, targets: seq<Target>): (k: nat)
    requires SyntaxOk(syn)
    ensures k <= |targets|
  {
    if targets == [] then 0 else
    var before := FirstRefused(syn, files, refused, targets[..|targets| - 1]);
    if before < |targets| - 1 then before
    else if Drifted(syn, files, targets[|targets| - 1]) && targets[|targets| - 1].path in refused then before
    else |targets|
  }

  predicate DistinctPaths(targets: seq<Target>) {
    forall i, j | 0 <= i < j < |targets| :: targets[i].path != targets[j].path
  }

  class Checkout {
    var files: map<string, Bytes>

    constructor (files: map<string, Bytes>)
      ensures this.files == files
    {
      this.files := files;
    }

    /** render_all: 2 when any target fails validation, and then nothing is written; otherwise
        checking reports 1 exactly when some file drifted.  Writing touches only files that
        drifted, and leaves every target with its wanted content; where a file refuses to be
        opened for writing it raises, with the targets before that one written. */
    method RenderAll(syn: Syntax, targets: seq<Target>, check: bool, refused: set<string>) returns (code: Option<int>)
      requires SyntaxOk(syn)
      modifies this`files
      ensures code == Some(2) <==> !AllValid(syn, old(files), targets)
      ensures code == Some(2) || check ==> files == old(files)
      ensures check ==> code.Some?
      ensures code != Some(2) && check ==>
                (code == Some(1) <==> exists i | 0 <= i < |targets| :: Drifted(syn, files, targets[i]))
      ensures code != Some(2) && !check ==>
                var k := FirstRefused(syn, old(files), refused, targets);
                && AllValid(syn, old(files), targets[..k])
                && files == Written(syn, old(files), targets[..k])
                && code == (if k < |targets| then None else Some(0))
      ensures code in {None, Some(0), Some(1), Some(2)}
    {
      hide RenderTarget, SyntaxOk;
      var rendered: seq<(Bytes, Bytes)> := [];
      for i := 0 to |targets|
        invariant |rendered| == i
        invariant forall j | 0 <= j < i ::
                    && targets[j].path in files && files[targets[j].path] == rendered[j].0
                    && Wanted(syn, files, targets[j]) == Some(rendered[j].1)
      {
        if targets[i].path !in files {
          return Some(2);
        }
        var current := files[targets[i].path];
        var expected := RenderTarget(syn, targets[i], current);
        if expected.None? {
          return Some(2);
        }
        rendered := rendered + [(current, expected.value)];
      }
      var drifted := false;
      assert targets[..0] == [];
      for i := 0 to |targets|
        invariant AllValid(syn, old(files), targets[..i])
        invariant check ==> files == old(files)
        invariant !check ==> !drifted && files == Written(syn, old(files), targets[..i])
        invariant !check ==> FirstRefused(syn, old(files), refused, targets[..i]) == i
        invariant check ==> (drifted <==> exists j | 0 <= j < i :: Drifted(syn, files, targets[j]))
      {
        assert targets[..i + 1][..i] == targets[..i] && targets[..i + 1][i] == targets[i];
        var (current, expected) := rendered[i];
        if current != expected {
          if check {
            drifted := true;
          } else {
            if targets[i].path in refused {
              RefusedAt(syn, old(files), refused, targets, i);
              return None;
            }
            files := files[targets[i].path := expected];
          }
        }
      }
      assert targets[..|targets|] == targets;
      code := Some(if check && drifted then 1 else 0);
    }
  }

  /** Nothing after the first refusal matters. */
  lemma {:induction false} RefusedAt(syn: Syntax, files: map<string, Bytes>, refused: set<string>,
                                     targets: seq<Target>, i: nat)
    requires SyntaxOk(syn) && i < |targets|
    requires FirstRefused(syn, files, refused, targets[..i]) == i
    requires Drifted(syn, files, targets[i]) && targets[i].path in refused
    ensures FirstRefused(syn, files, refused, targets) == i
  {
    hide Drifted, SyntaxOk;
    var n := |targets| - 1;
    if i < n {
      assert targets[..n][..i] == targets[..i];
      RefusedAt(syn, files, refused, targets[..n], i);
    }
  }

  lemma {:induction false} GenerateKeys(regions: seq<Region>)
    ensures Generate(regions).Some? ==> KeysMatch(NamesOf(regions), Generate(regions).value)
  {
    if regions != [] && Generate(regions).Some? {
      var n := |regions| - 1;
      GenerateKeys(regions[..n]);
      assert NamesOf(regions) == NamesOf(regions[..n]) + [regions[n].name];
      var names := NamesOf(regions);
      forall k | k in Generate(regions).value ensures k in set i | 0 <= i < |names| :: names[i] {
        if k == regions[n].name {
          assert names[n] == k;
        } else {
          var i :| 0 <= i < n && NamesOf(regions[..n])[i] == k;
          assert names[i] == k;
        }
      }
      forall i | 0 <= i < |names| ensures names[i] in Generate(regions).value {
        assert i < n ==> names[i] == NamesOf(regions[..n])[i];
      }
    }
  }

  /** A file that no drifted target stands for stays as it is. */
  lemma {:induction false} WrittenElsewhere(syn: Syntax, files: map<string, Bytes>, targets: seq<Target>, path: string)
    requires SyntaxOk(syn) && AllValid(syn, files, targets)
    requires forall i | 0 <= i < |targets| :: targets[i].path == path ==> !Drifted(syn, files, targets[i])
    ensures path in Written(syn, files, targets) <==> path in files
    ensures path in files ==> Written(syn, files, targets)[path] == files[path]
  {
    hide Wanted, SyntaxOk, Drifted;
    if targets != [] {
      var before := targets[..|targets| - 1];
      assert forall j | 0 <= j < |before| :: before[j] == targets[j];
      WrittenElsewhere(syn, files, before, path);
    }
  }

  /** With distinct paths every target ends with its wanted content. */
  lemma {:induction false} WrittenAt(syn: Syntax, files: map<string, Bytes>, targets: seq<Target>, i: nat)
    requires SyntaxOk(syn) && AllValid(syn, files, targets) && DistinctPaths(targets) && i < |targets|
    ensures targets[i].path in Written(syn, files, targets)
    ensures Written(syn, files, targets)[targets[i].path] == Wanted(syn, files, targets[i]).value
  {
    hide Wanted, SyntaxOk;
    var n := |targets| - 1;
    var before := targets[..n];
    assert forall j | 0 <= j < n :: before[j] == targets[j];
    if i < n {
      WrittenAt(syn, files, before, i);
    } else {
      WrittenElsewhere(syn, files, before, targets[n].path);
    }
  }

  /** Write, then check: when the renderings are clean, no target reports drift. */
  lemma NoDriftAfterWrite(syn: Syntax, files: map<string, Bytes>, targets: seq<Target>, i: nat)
    requires SyntaxOk(syn) && AllValid(syn, files, targets) && DistinctPaths(targets) && i < |targets|
    requires Generate(targets[i].regions).Some?
    requires var g := Generate(targets[i].regions).value;
             && (forall k | 0 <= k < |NamesOf(targets[i].regions)| :: NamesOf(targets[i].regions)[k] in g)
             && CleanBodies(syn, NamesOf(targets[i].regions), g)
    ensures !Drifted(syn, Written(syn, files, targets), targets[i])
  {
    hide Replace, CleanBodies, SyntaxOk;
    var t := targets[i];
    WrittenAt(syn, files, targets, i);
    GenerateKeys(t.regions);
    ReplaceAccepts(syn, files[t.path], Generate(t.regions).value, NamesOf(t.regions));
    LastWriteWins(syn, files[t.path], Generate(t.regions).value, Generate(t.regions).value, NamesOf(t.regions));
  }

  lemma ReplaceAccepts(syn: Syntax, d: Bytes, generated: map<Bytes, Bytes>, names: seq<Bytes>)
    requires SyntaxOk(syn)
    ensures Replace(syn, d, generated, names).Some? <==> Accepts(syn, d, generated, names)
  {
  }

  /** The two tools' marker spellings are well formed. */
  lemma SyntaxesAreOk()
    ensures SyntaxOk(CONTRACTS) && SyntaxOk(SETTINGS)
  {
  }
}
