/** What a replaced document holds, in the bytes a reader sees: each region's text, trimmed at its
    end and closed by one line feed, between the marker lines as they were. */
module RegionBodies {
  import opened Wrappers
  import opened ByteStrings
  import opened MarkerLines
  import opened RegionSplicer
  import opened RenderTargets

  /** The text without the carriage returns and line feeds at its end. */
  predicate Trimmed(text: Bytes, t: Bytes) {
    && t <= text
    && (forall i | |t| <= i < |text| :: text[i] == 13 || text[i] == 10)
    && (t != [] ==> t[|t| - 1] != 13 && t[|t| - 1] != 10)
  }

  lemma NormalizedIs(text: Bytes)
    ensures exists t :: Trimmed(text, t) && Normalized(text) == t + [10]
  {
    assert Trimmed(text, RStrip(text, {CR, LF}));
  }

  lemma TrimmedOnce(text: Bytes, s: Bytes, t: Bytes)
    requires Trimmed(text, s) && Trimmed(text, t)
    ensures s == t
  {
    assert s == text[..|s|] && t == text[..|t|];
  }

  // ----- the bodies of a replaced document

  lemma {:induction false} BodiesSkip(syn: Syntax, a: seq<Line>, rest: seq<Line>)
    requires Markers(syn, a) == []
    ensures var b := Bodies(syn, rest, true);
            Bodies(syn, a + rest, true) == [a + b[0]] + b[1..]
  {
    hide IsMarkerLine;
    var b := Bodies(syn, rest, true);
    if a == [] {
      assert a + rest == rest && [] + b[0] == b[0] && b == [b[0]] + b[1..];
    } else {
      assert (a + rest)[1..] == a[1..] + rest;
      BodiesSkip(syn, a[1..], rest);
      var more := [a[1..] + b[0]] + b[1..];
      assert more[0] == a[1..] + b[0] && more[1..] == b[1..];
      assert [a[0]] + (a[1..] + b[0]) == a + b[0];
    }
  }

  /** Replacing unmarked bodies makes them the document's bodies. */
  lemma {:induction false} BodiesOfSplice(syn: Syntax, ls: seq<Line>, bodies: seq<seq<Line>>, inside: bool)
    requires Paired(syn, ls, bodies, inside) && Unmarked(syn, bodies)
    ensures Bodies(syn, Splice(syn, ls, bodies, inside), inside) == (if inside then [[]] else []) + bodies
  {
    hide IsMarkerLine;
    if ls != [] {
      if IsMarkerLine(syn, ls[0]) && !inside {
        OneRegionFewer(syn, ls, bodies);
        BodiesOfSplice(syn, ls[1..], bodies[1..], true);
        BodiesOfOpening(syn, ls, bodies);
      } else if IsMarkerLine(syn, ls[0]) {
        BodiesOfSplice(syn, ls[1..], bodies, false);
        BodiesOfClosing(syn, ls[0], Splice(syn, ls[1..], bodies, false));
      } else {
        OneMore(ls[0], Splice(syn, ls[1..], bodies, inside));
        BodiesOfSplice(syn, ls[1..], bodies, inside);
      }
    }
  }

  lemma OneRegionFewer(syn: Syntax, ls: seq<Line>, bodies: seq<seq<Line>>)
    requires Paired(syn, ls, bodies, false) && Unmarked(syn, bodies) && ls != [] && IsMarkerLine(syn, ls[0])
    ensures bodies != [] && Paired(syn, ls[1..], bodies[1..], true) && Unmarked(syn, bodies[1..])
    ensures Markers(syn, bodies[0]) == []
  {
    hide IsMarkerLine;
  }

  lemma BodiesOfOpening(syn: Syntax, ls: seq<Line>, bodies: seq<seq<Line>>)
    requires ls != [] && IsMarkerLine(syn, ls[0]) && bodies != [] && Markers(syn, bodies[0]) == []
    requires Bodies(syn, Splice(syn, ls[1..], bodies[1..], true), true) == [[]] + bodies[1..]
    ensures Bodies(syn, Splice(syn, ls, bodies, false), false) == bodies
  {
    hide IsMarkerLine, Bodies;
    BodiesOfRegion(syn, ls[0], bodies[0], Splice(syn, ls[1..], bodies[1..], true), bodies[1..]);
    assert bodies == [bodies[0]] + bodies[1..];
  }

  lemma BodiesOfRegion(syn: Syntax, l: Line, body: seq<Line>, rest: seq<Line>, bodies: seq<seq<Line>>)
    requires IsMarkerLine(syn, l) && Markers(syn, body) == [] && Bodies(syn, rest, true) == [[]] + bodies
    ensures Bodies(syn, [l] + body + rest, false) == [body] + bodies
  {
    hide IsMarkerLine;
    BodiesSkip(syn, body, rest);
    assert ([l] + body + rest)[1..] == body + rest;
    assert body + [] == body && ([[]] + bodies)[1..] == bodies;
  }

  lemma BodiesOfClosing(syn: Syntax, l: Line, rest: seq<Line>)
    requires IsMarkerLine(syn, l)
    ensures Bodies(syn, [l] + rest, true) == [[]] + Bodies(syn, rest, false)
  {
    hide IsMarkerLine;
    assert ([l] + rest)[1..] == rest;
  }

  lemma {:induction false} NewBodyAt(names: seq<Bytes>, generated: map<Bytes, Bytes>, k: nat)
    requires k < |names| && forall i | 0 <= i < |names| :: names[i] in generated
    ensures |NewBodies(names, generated)| == |names|
    ensures NewBodies(names, generated)[k] == Lines(Normalized(generated[names[k]]))
  {
    hide Normalized, Lines;
    if k == 0 {
      BodiesOf(names, generated);
    } else {
      NewBodyAt(names[1..], generated, k - 1);
    }
  }

  /** Main result: after replacing with clean bodies, the k-th body of the document is the text
      generated for the k-th region, trimmed and closed by a line feed. */
  lemma ReplacedBodiesAreGenerated(syn: Syntax, d: Bytes, generated: map<Bytes, Bytes>, names: seq<Bytes>, k: nat)
    requires SyntaxOk(syn) && Accepts(syn, d, generated, names) && k < |names|
    requires forall i | 0 <= i < |names| :: names[i] in generated
    requires CleanBodies(syn, names, generated)
    ensures Replace(syn, d, generated, names).Some?
    ensures var bodies := Bodies(syn, Lines(Replace(syn, d, generated, names).value), false);
            |bodies| == |names| && exists t :: Trimmed(generated[names[k]], t) && Flat(bodies[k]) == t + [10]
  {
    hide Lines, Markers, Splice, Bodies, Count, Normalized, Trimmed, Expected, CountedOnce, SyntaxOk;
    ReplacedLines(syn, d, generated, names);
    BodiesOfSplice(syn, Lines(d), NewBodies(names, generated), false);
    NewBodyAt(names, generated, k);
    NormalizedIs(generated[names[k]]);
    LinesAreLines(Normalized(generated[names[k]]));
  }

  // ----- markers, as text

  predicate LineEnd(eol: Bytes) {
    eol == [] || eol == [13] || eol == [10] || eol == [13, 10]
  }

  /** A line that is an opening or closing marker: its fixed start, any text, its fixed end, and at
      most one carriage return and one line feed. */
  ghost predicate ReadsAsMarker(begin: Bytes, end: Bytes, tail: Bytes, l: Line) {
    exists text, eol, prefix ::
      && (prefix == begin || prefix == end)
      && LineEnd(eol) && 13 !in text && 10 !in text
      && l == prefix + text + tail + eol
  }

  lemma EndOf(p: Bytes, eol: Bytes)
    requires Plain(p) && LineEnd(eol)
    ensures Bare(p + eol) == p
  {
    var l := p + eol;
    if eol == [13, 10] {
      assert l[..|l| - 1] == p + [13];
      assert (p + [13])[..|p|] == p;
    } else if eol == [10] || eol == [13] {
      assert l[..|l| - 1] == p;
    } else {
      assert l == p;
    }
    assert p != [] ==> p[|p| - 1] in p;
  }

  lemma EndsSomehow(l: Line) returns (eol: Bytes)
    ensures LineEnd(eol) && l == Bare(l) + eol
  {
    var a := DropLast(l, LF);
    eol := (if |Bare(l)| < |a| then [13] else []) + (if |a| < |l| then [10] else []);
    assert a == Bare(l) + if |Bare(l)| < |a| then [13] else [];
    assert l == a + if |a| < |l| then [10] else [];
    assert [13] + [10] == [13, 10];
  }

  lemma FencedText(prefix: Bytes, tail: Bytes, p: Bytes)
    requires Fenced(prefix, tail, p)
    ensures p == prefix + p[|prefix|..|p| - |tail|] + tail
  {
    assert p == p[..|prefix|] + p[|prefix|..|p| - |tail|] + p[|p| - |tail|..];
  }

  lemma FencedByText(prefix: Bytes, text: Bytes, tail: Bytes)
    ensures Fenced(prefix, tail, prefix + text + tail)
  {
    var p := prefix + text + tail;
    assert p[..|prefix|] == prefix && p[|p| - |tail|..] == tail;
  }

  /** The lines the splicer takes for markers are exactly those. */
  lemma MarkerLineIs(syn: Syntax, l: Line)
    requires SyntaxOk(syn)
    ensures IsMarkerLine(syn, l) <==> ReadsAsMarker(syn.begin, syn.end, syn.tail, l)
  {
    hide Bare, DropLast, Fenced, LineEnd;
    if IsMarkerLine(syn, l) {
      var eol := EndsSomehow(l);
      var p := Bare(l);
      var prefix := if Fenced(syn.begin, syn.tail, p) then syn.begin else syn.end;
      FencedText(prefix, syn.tail, p);
      var text := p[|prefix|..|p| - |syn.tail|];
      assert forall i | 0 <= i < |text| :: text[i] in p;
      assert l == prefix + text + syn.tail + eol;
      assert ReadsAsMarker(syn.begin, syn.end, syn.tail, l);
    }
    if ReadsAsMarker(syn.begin, syn.end, syn.tail, l) {
      var text, eol, prefix :|
        && (prefix == syn.begin || prefix == syn.end)
        && LineEnd(eol) && 13 !in text && 10 !in text
        && l == prefix + text + syn.tail + eol;
      PlainParts(prefix, text, syn.tail);
      EndOf(prefix + text + syn.tail, eol);
      FencedByText(prefix, text, syn.tail);
    }
  }

  lemma PlainParts(a: Bytes, b: Bytes, c: Bytes)
    requires Plain(a) && Plain(b) && Plain(c)
    ensures Plain(a + b + c)
  {
  }

  /** The first occurrence is here, and there is none after its end. */
  predicate OnceAt(d: Bytes, pat: Bytes, o: nat) {
    && o <= |d| && OccursAt(d, pat, o)
    && (forall i | 0 <= i < o :: !OccursAt(d, pat, i))
    && (forall i | o + |pat| <= i <= |d| :: !OccursAt(d, pat, i))
  }

  lemma OccursLater(d: Bytes, pat: Bytes, k: nat, i: nat)
    requires k <= i && k <= |d|
    ensures OccursAt(d, pat, i) <==> OccursAt(d[k..], pat, i - k)
  {
    if i <= |d| {
      assert d[k..][i - k..] == d[i..];
    }
  }

  lemma OnceAtStart(d: Bytes, pat: Bytes)
    requires pat != [] && StartsWith(d, pat)
    ensures (forall i :: !OccursAt(d[|pat|..], pat, i)) <==> OnceAt(d, pat, 0)
    ensures forall o: nat | OnceAt(d, pat, o) :: o == 0
  {
    assert |pat| <= |d|;
    hide StartsWith;
    assert d[0..] == d && OccursAt(d, pat, 0);
    var rest := d[|pat|..];
    forall i: nat | |pat| <= i ensures OccursAt(d, pat, i) <==> OccursAt(rest, pat, i - |pat|) {
      OccursLater(d, pat, |pat|, i);
    }
    if OnceAt(d, pat, 0) {
      forall i ensures !OccursAt(rest, pat, i) {
        if 0 <= i <= |rest| {
          assert !OccursAt(d, pat, i + |pat|);
        }
      }
    }
  }

  lemma OnceLater(d: Bytes, pat: Bytes, o: nat)
    requires d != [] && !StartsWith(d, pat)
    ensures OnceAt(d, pat, o) <==> o > 0 && OnceAt(d[1..], pat, o - 1)
  {
    hide StartsWith;
    var rest := d[1..];
    assert d[0..] == d && !OccursAt(d, pat, 0);
    forall i: nat ensures OccursAt(d, pat, i + 1) <==> OccursAt(rest, pat, i) {
      OccursLater(d, pat, 1, i + 1);
    }
    hide OccursAt;
    if o > 0 && OnceAt(rest, pat, o - 1) {
      forall i | 0 < i <= |d| ensures OccursAt(d, pat, i) <==> OccursAt(rest, pat, i - 1) {
        assert OccursAt(d, pat, (i - 1) + 1) <==> OccursAt(rest, pat, i - 1);
      }
    }
    if OnceAt(d, pat, o) {
      assert OccursAt(d, pat, (o - 1) + 1);
      forall i | 0 <= i < o - 1 ensures !OccursAt(rest, pat, i) {
        assert !OccursAt(d, pat, i + 1);
      }
      forall i | o - 1 + |pat| <= i <= |rest| ensures !OccursAt(rest, pat, i) {
        assert !OccursAt(d, pat, i + 1);
      }
    }
  }

  /** Counting a text once means that it has a first occurrence and no other after that one's end. */
  lemma {:induction false} CountIsOne(d: Bytes, pat: Bytes)
    requires pat != []
    ensures Count(d, pat) == 1 <==> exists o: nat :: OnceAt(d, pat, o)
    decreases |d|
  {
    hide Count, StartsWith, OnceAt, OccursAt;
    CountSteps(d, pat);
    if |d| < |pat| {
      forall o: nat ensures !OnceAt(d, pat, o) {
        TooShort(d, pat, o);
      }
    } else if StartsWith(d, pat) {
      OnceAtStart(d, pat);
      NoneCounted(d[|pat|..], pat);
    } else {
      CountIsOne(d[1..], pat);
      if o: nat :| OnceAt(d[1..], pat, o) {
        OnceLater(d, pat, o + 1);
      }
      if o: nat :| OnceAt(d, pat, o) {
        OnceLater(d, pat, o);
      }
    }
  }

  lemma TooShort(d: Bytes, pat: Bytes, o: nat)
    requires |d| < |pat|
    ensures !OnceAt(d, pat, o)
  {
  }

  lemma NoneCounted(d: Bytes, pat: Bytes)
    requires pat != []
    ensures Count(d, pat) == 0 <==> forall i :: !OccursAt(d, pat, i)
  {
    hide Count;
    if Count(d, pat) == 0 {
      CountZero(d, pat);
    }
    if forall i :: !OccursAt(d, pat, i) {
      SomeCounted(d, pat);
    }
  }

  lemma {:induction false} SomeCounted(d: Bytes, pat: Bytes)
    requires pat != []
    ensures Count(d, pat) > 0 ==> exists i :: OccursAt(d, pat, i)
    decreases |d|
  {
    hide Count;
    CountSteps(d, pat);
    if |d| >= |pat| {
      if StartsWith(d, pat) {
        assert d[0..] == d && OccursAt(d, pat, 0);
      } else {
        SomeCounted(d[1..], pat);
        if i :| OccursAt(d[1..], pat, i) {
          OccursLater(d, pat, 1, i + 1);
        }
      }
    }
  }

  lemma CountSteps(d: Bytes, pat: Bytes)
    requires pat != []
    ensures |d| < |pat| ==> Count(d, pat) == 0
    ensures StartsWith(d, pat) ==> Count(d, pat) == 1 + Count(d[|pat|..], pat)
    ensures |d| >= |pat| && !StartsWith(d, pat) ==> Count(d, pat) == Count(d[1..], pat)
  {
  }

  // ----- one region, by hand

  /** A region's marker as tools/render_contracts.py writes it. */
  function ContractMarker(opening: bool, name: Bytes): Bytes {
    (if opening then Ascii("<!-- BEGIN GENERATED:") else Ascii("<!-- END GENERATED:")) + [32] + name + Ascii(" -->")
  }

  /** A region's marker as tools/render_settings.py writes it. */
  function SettingsMarker(opening: bool, name: Bytes): Bytes {
    (if opening then Ascii("# BEGIN GENERATED:") else Ascii("# END GENERATED:")) + [32] + name
  }

  lemma MarkersRead(name: Bytes)
    ensures Opening(CONTRACTS, name) == ContractMarker(true, name)
    ensures Closing(CONTRACTS, name) == ContractMarker(false, name)
    ensures Opening(SETTINGS, name) == SettingsMarker(true, name)
    ensures Closing(SETTINGS, name) == SettingsMarker(false, name)
  {
    hide Ascii;
    var o, c := SETTINGS.begin + [32] + name, SETTINGS.end + [32] + name;
    assert o + [] == o && c + [] == c;
  }

  /** No line of these is a marker of the tool. */
  ghost predicate NoMarkers(syn: Syntax, ls: seq<Line>) {
    forall i | 0 <= i < |ls| :: !ReadsAsMarker(syn.begin, syn.end, syn.tail, ls[i])
  }

  lemma {:induction false} NoMarkersMeans(syn: Syntax, ls: seq<Line>)
    requires SyntaxOk(syn) && NoMarkers(syn, ls)
    ensures Markers(syn, ls) == []
  {
    hide IsMarkerLine, ReadsAsMarker, SyntaxOk;
    if ls != [] {
      MarkerLineIs(syn, ls[0]);
      NoMarkersMeans(syn, ls[1..]);
    }
  }

  /** Main result: a document with one region, its markers alone on their lines and nowhere else,
      is accepted, and exactly the lines between them become the generated text. */
  lemma OneRegionIsReplaced(syn: Syntax, before: seq<Line>, o: Bytes, oEnd: Bytes, mid: seq<Line>, c: Bytes,
                            cEnd: Bytes, after: seq<Line>, name: Bytes, generated: Bytes, t: Bytes)
    requires SyntaxOk(syn) && 13 !in name && 10 !in name
    requires o == Opening(syn, name) && c == Closing(syn, name) && LineEnd(oEnd) && LineEnd(cEnd)
    requires AreLines(before + [o + oEnd] + mid + [c + cEnd] + after)
    requires NoMarkers(syn, before) && NoMarkers(syn, mid) && NoMarkers(syn, after)
    requires var d := Flat(before + [o + oEnd] + mid + [c + cEnd] + after);
             (exists k: nat :: OnceAt(d, o, k)) && (exists k: nat :: OnceAt(d, c, k))
    requires Trimmed(generated, t)
    ensures Replace(syn, Flat(before + [o + oEnd] + mid + [c + cEnd] + after), map[name := generated], [name]) ==
            Some(Flat(before) + o + oEnd + t + [10] + c + cEnd + Flat(after))
  {
    hide Lines, Markers, Splice, Flat, Count, IsMarkerLine, Trimmed, Normalized, OnceAt, NoMarkers, Opening, Closing,
         LineEnd, AreLines, SyntaxOk, Expected, IsMarker, Bare, KeysMatch, NewBodies, Plain;
    var x, y := o + oEnd, c + cEnd;
    var ls := before + [x] + mid + [y] + after;
    var d := Flat(ls);
    LinesOfFlat(ls);
    CountIsOne(d, o);
    CountIsOne(d, c);
    NameIsPlain(syn, name);
    MarkerOnLine(syn, o, oEnd);
    MarkerOnLine(syn, c, cEnd);
    NoMarkersMeans(syn, before);
    NoMarkersMeans(syn, mid);
    NoMarkersMeans(syn, after);
    RegionMarkers(syn, before, x, mid, y, after);
    OneExpected(syn, name);
    KeysMatchOne(name, generated);
    NormalizedIs(generated);
    var t' :| Trimmed(generated, t') && Normalized(generated) == t' + [10];
    TrimmedOnce(generated, t, t');
    var body := Lines(Normalized(generated));
    RegionSpliced(syn, before, x, mid, y, after, body);
    LinesAreLines(Normalized(generated));
    FlatFive(before, x, body, y, after);
    OneBody(name, generated);
    assert Flat(before) + x + (t + [10]) + y + Flat(after) ==
           Flat(before) + o + oEnd + t + [10] + c + cEnd + Flat(after);
  }

  lemma FencedMarker(prefix: Bytes, name: Bytes, tail: Bytes)
    requires Plain(prefix) && Plain(name) && Plain(tail)
    ensures var p := prefix + [32] + name + tail; Plain(p) && Fenced(prefix, tail, p)
  {
    PlainParts(prefix, [32] + name, tail);
    FencedByText(prefix, [32] + name, tail);
    assert prefix + ([32] + name) + tail == prefix + [32] + name + tail;
  }

  lemma NameIsPlain(syn: Syntax, name: Bytes)
    requires SyntaxOk(syn) && 13 !in name && 10 !in name
    ensures Plain(Opening(syn, name)) && Plain(Closing(syn, name))
    ensures IsMarker(syn, Opening(syn, name)) && IsMarker(syn, Closing(syn, name))
  {
    assert Plain(name);
    hide Plain, Fenced;
    FencedMarker(syn.begin, name, syn.tail);
    FencedMarker(syn.end, name, syn.tail);
  }

  lemma MarkerOnLine(syn: Syntax, p: Bytes, eol: Bytes)
    requires IsMarker(syn, p) && LineEnd(eol)
    ensures Bare(p + eol) == p && IsMarkerLine(syn, p + eol)
  {
    EndOf(p, eol);
  }

  lemma RegionMarkers(syn: Syntax, before: seq<Line>, x: Line, mid: seq<Line>, y: Line, after: seq<Line>)
    requires Markers(syn, before) == [] && Markers(syn, mid) == [] && Markers(syn, after) == []
    requires IsMarkerLine(syn, x) && IsMarkerLine(syn, y)
    ensures Markers(syn, before + [x] + mid + [y] + after) == [Bare(x), Bare(y)]
  {
    hide IsMarkerLine, Bare;
    MarkersAppend(syn, before + [x] + mid + [y], after);
    MarkersAppend(syn, before + [x] + mid, [y]);
    MarkersAppend(syn, before + [x], mid);
    MarkersAppend(syn, before, [x]);
    MarkersOfCons(syn, x, []);
    MarkersOfCons(syn, y, []);
    assert [x] + [] == [x] && [y] + [] == [y];
  }

  lemma OneExpected(syn: Syntax, name: Bytes)
    ensures Expected(syn, [name]) == [Opening(syn, name), Closing(syn, name)]
  {
    assert [name][1..] == [];
  }

  lemma KeysMatchOne(name: Bytes, generated: Bytes)
    ensures KeysMatch([name], map[name := generated])
  {
    assert [name][0] == name;
  }

  lemma OneBody(name: Bytes, generated: Bytes)
    ensures NewBodies([name], map[name := generated]) == [Lines(Normalized(generated))]
  {
    assert [name][1..] == [];
  }

  lemma RegionSpliced(syn: Syntax, before: seq<Line>, x: Line, mid: seq<Line>, y: Line, after: seq<Line>,
                      body: seq<Line>)
    requires Markers(syn, before) == [] && Markers(syn, mid) == [] && Markers(syn, after) == []
    requires IsMarkerLine(syn, x) && IsMarkerLine(syn, y)
    ensures Splice(syn, before + [x] + mid + [y] + after, [body], false) == before + [x] + body + [y] + after
  {
    hide IsMarkerLine, Splice;
    SpliceSkip(syn, before, [x] + (mid + ([y] + after)), [body], false);
    assert before + [x] + mid + [y] + after == before + ([x] + (mid + ([y] + after)));
    SpliceCons(syn, x, mid + ([y] + after), [body], false);
    assert [body][1..] == [];
    TailSpliced(syn, mid, y, after);
    assert before + ([x] + body + ([y] + after)) == before + [x] + body + [y] + after;
  }

  lemma TailSpliced(syn: Syntax, mid: seq<Line>, y: Line, after: seq<Line>)
    requires Markers(syn, mid) == [] && Markers(syn, after) == [] && IsMarkerLine(syn, y)
    ensures Splice(syn, mid + ([y] + after), [], true) == [y] + after
  {
    hide IsMarkerLine, Splice;
    SpliceSkip(syn, mid, [y] + after, [], true);
    SpliceCons(syn, y, after, [], true);
    SpliceSkip(syn, after, [], [], false);
    EmptySplice(syn);
    assert after + [] == after;
  }

  lemma FlatFive(a: seq<Line>, x: Line, b: seq<Line>, y: Line, c: seq<Line>)
    ensures Flat(a + [x] + b + [y] + c) == Flat(a) + x + Flat(b) + y + Flat(c)
  {
    hide Flat;
    FlatAppend(a + [x] + b + [y], c);
    FlatAppend(a + [x] + b, [y]);
    FlatAppend(a + [x], b);
    FlatAppend(a, [x]);
    FlatCons(x, []);
    FlatCons(y, []);
    EmptyFlat();
    assert [x] + [] == [x] && [y] + [] == [y];
  }
}
