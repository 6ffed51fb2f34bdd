/** tools/render_contracts.py's replace_generated_regions: byte-index surgery with a cursor,
    proved to be the line-by-line replacement of MarkerLines.  tools/render_settings.py's
    one-region form is the same replacement with its own marker syntax. */
module RegionSplicer {
  import opened Wrappers
  import opened ByteStrings
  import opened MarkerLines

  const CONTRACTS := Syntax(Ascii("<!-- BEGIN GENERATED:"), Ascii("<!-- END GENERATED:"), Ascii(" -->"))
  const SETTINGS := Syntax(Ascii("# BEGIN GENERATED:"), Ascii("# END GENERATED:"), [])

  function Opening(syn: Syntax, name: Bytes): (marker: Bytes)
    ensures marker != []
  {
    syn.begin + [32] + name + syn.tail
  }

  function Closing(syn: Syntax, name: Bytes): (marker: Bytes)
    ensures marker != []
  {
    syn.end + [32] + name + syn.tail
  }

  /** The marker list a document must have: one ordered pair for every region. */
  function Expected(syn: Syntax, names: seq<Bytes>): seq<Bytes> {
    if names == [] then [] else [Opening(syn, names[0]), Closing(syn, names[0])] + Expected(syn, names[1..])
  }

  function Normalized(generated: Bytes): Bytes {
    RStrip(generated, {CR, LF}) + [LF]
  }

  function NewBodies(names: seq<Bytes>, generated: map<Bytes, Bytes>): seq<seq<Line>>
    requires forall i | 0 <= i < |names| :: names[i] in generated
  {
    if names == [] then []
    else [Lines(Normalized(generated[names[0]]))] + NewBodies(names[1..], generated)
  }

  /** Each region's two markers are counted once in the whole document. */
  predicate CountedOnce(syn: Syntax, d: Bytes, names: seq<Bytes>)
    requires SyntaxOk(syn)
  {
    forall i | 0 <= i < |names| ::
      Count(d, Opening(syn, names[i])) == 1 && Count(d, Closing(syn, names[i])) == 1
  }

  predicate KeysMatch(names: seq<Bytes>, generated: map<Bytes, Bytes>) {
    generated.Keys == set i | 0 <= i < |names| :: names[i]
  }

  predicate Accepts(syn: Syntax, d: Bytes, generated: map<Bytes, Bytes>, names: seq<Bytes>)
    requires SyntaxOk(syn)
  {
    && Markers(syn, Lines(d)) == Expected(syn, names)
    && KeysMatch(names, generated)
    && CountedOnce(syn, d, names)
  }

  /** What replacement means. */
  function Replace(syn: Syntax, d: Bytes, generated: map<Bytes, Bytes>, names: seq<Bytes>): Option<Bytes>
    requires SyntaxOk(syn)
  {
    if Accepts(syn, d, generated, names)
    then Some(Flat(Splice(syn, Lines(d), NewBodies(names, generated), false)))
    else None
  }

  /** How both tools find a region with byte searches: where the opening marker's line ends and
      where the closing marker's line starts, or the check that fails. */
  function Edges(document: Bytes, cursor: nat, opening: Bytes, closing: Bytes): (r: Option<(nat, nat)>)
    requires opening != [] && closing != []
    ensures r.Some? ==> r.value.0 < |document| && r.value.1 <= |document|
  {
    if Count(document, opening) != 1 || Count(document, closing) != 1 then None else
    var start :- Find(document, opening, 0);
    var end :- Find(document, closing, 0);
    if start < cursor || start >= end then None else
    var startLineEnd :- Find(document, [LF], start);
    if startLineEnd > end || RStrip(document[start..startLineEnd], {CR}) != opening then None else
    var before := RFindByte(document, LF, end);
    var endLineStart := if before.Some? then before.value + 1 else 0;
    var after := Find(document, [LF], end);
    if RStrip(document[endLineStart..if after.Some? then after.value else |document|], {CR}) != closing then None
    else Some((startLineEnd, endLineStart))
  }

  // ----- one region, in bytes

  lemma {:induction false} SplitAtMarker(syn: Syntax, ls: seq<Line>) returns (a: seq<Line>, x: Line, b: seq<Line>)
    requires Markers(syn, ls) != []
    ensures ls == a + [x] + b
    ensures Markers(syn, a) == [] && IsMarkerLine(syn, x)
    ensures Markers(syn, ls) == [Bare(x)] + Markers(syn, b)
  {
    hide IsMarkerLine;
    if IsMarkerLine(syn, ls[0]) {
      a, x, b := [], ls[0], ls[1..];
    } else {
      a, x, b := SplitAtMarker(syn, ls[1..]);
      a := [ls[0]] + a;
      assert a[1..] + [x] + b == ls[1..];
      assert ls == [ls[0]] + ls[1..];
    }
  }

  lemma {:induction false} FlatEnds(a: seq<Line>)
    requires AllTerminated(a) && a != []
    ensures Terminated(Flat(a))
  {
    if |a| == 1 {
      assert Flat(a) == a[0] + Flat([]) && Flat(a) == a[0];
    } else {
      FlatEnds(a[1..]);
    }
  }

  /** Byte positions of a stretch of lines inside a document. */
  lemma StretchOffsets(d: Bytes, cursor: nat, a: seq<Line>, b: seq<Line>)
    requires cursor <= |d| && AtLineStart(d, cursor)
    requires AreLines(a + b) && b != [] && d[cursor..] == Flat(a + b)
    ensures var s := cursor + |Flat(a)|;
            && s <= |d| && AtLineStart(d, s) && d[s..] == Flat(b) && d[cursor..s] == Flat(a)
            && (a != [] ==> s > cursor && d[s - 1] == LF)
  {
    hide Flat;
    FlatAppend(a, b);
    var s := cursor + |Flat(a)|;
    assert d[cursor..][|Flat(a)|..] == d[s..];
    assert d[cursor..][..|Flat(a)|] == d[cursor..s];
    assert Flat([]) == [] by { EmptyFlat(); }
    if a != [] {
      assert forall i | 0 <= i < |a| :: (a + b)[i] == a[i];
      FlatEnds(a);
      assert d[s - 1] == d[cursor..s][|Flat(a)| - 1];
    }
  }

  lemma EmptyFlat()
    ensures Flat([]) == []
  {
  }

  lemma FindLineEnd(d: Bytes, s: nat, x: Line)
    requires IsLine(x) && s + |x| <= |d| && d[s..s + |x|] == x
    requires !Terminated(x) ==> s + |x| == |d|
    ensures Find(d, [LF], s) == if Terminated(x) then Some(s + |x| - 1) else None
  {
    hide Find;
    forall i | s <= i < s + |x| ensures OccursAt(d, [LF], i) <==> x[i - s] == LF {
      assert d[i..][..1] == [d[i]] && d[i] == d[s..s + |x|][i - s];
    }
    assert Terminated(x) ==> OccursAt(d, [LF], s + |x| - 1);
    assert !OccursAt(d, [LF], |d|);
  }

  lemma StripCarriageReturn(t: Bytes, p: Bytes)
    requires DropLast(t, CR) == p && Plain(p)
    ensures RStrip(t, {CR}) == p
  {
    if t != [] && t[|t| - 1] == CR {
      assert p != [] ==> p[|p| - 1] in p;
    } else {
      assert t == p;
    }
  }

  /** A marker line found at the start of a line: the line-feed search ends the line, and the
      text up to there is the marker. */
  lemma MarkerLineBytes(syn: Syntax, d: Bytes, s: nat, x: Line, rest: seq<Line>)
    requires SyntaxOk(syn) && IsMarkerLine(syn, x)
    requires s <= |d| && AreLines([x] + rest) && d[s..] == x + Flat(rest)
    ensures OccursAt(d, Bare(x), s) && Bare(x) != [] && OneLine(Bare(x))
    ensures rest != [] ==> Terminated(x)
    ensures Find(d, [LF], s) == if Terminated(x) then Some(s + |x| - 1) else None
    ensures var stop := if Terminated(x) then s + |x| - 1 else |d|; RStrip(d[s..stop], {CR}) == Bare(x)
  {
    hide Find, Flat;
    assert ([x] + rest)[0] == x;
    EmptyFlat();
    var text := DropLast(x, LF);
    assert Bare(x) <= text <= x;
    assert d[s..][..|x|] == d[s..s + |x|] == x;
    FindLineEnd(d, s, x);
    var stop := if Terminated(x) then s + |x| - 1 else |d|;
    assert d[s..stop] == text;
    StripCarriageReturn(text, Bare(x));
  }

  /** The lines still to be scanned: the previous region's closing marker line first, if it is
      pending, and then these markers. */
  predicate Awaits(syn: Syntax, ls: seq<Line>, pending: bool, want: seq<Bytes>) {
    if pending then ls != [] && IsMarkerLine(syn, ls[0]) && Markers(syn, ls)[1..] == want
    else Markers(syn, ls) == want
  }

  lemma SkipPending(syn: Syntax, ls: seq<Line>, pending: bool, want: seq<Bytes>)
    returns (head: seq<Line>, tail: seq<Line>)
    requires Awaits(syn, ls, pending, want)
    ensures ls == head + tail && Markers(syn, tail) == want
    ensures pending ==> head == [ls[0]]
    ensures !pending ==> head == []
  {
    hide IsMarkerLine;
    if pending {
      head, tail := [ls[0]], ls[1..];
    } else {
      head, tail := [], ls;
    }
  }

  lemma SuffixAreLines(a: seq<Line>, b: seq<Line>)
    requires AreLines(a + b)
    ensures AreLines(b)
  {
    forall i | 0 <= i < |b| ensures IsLine(b[i]) && (i < |b| - 1 ==> Terminated(b[i])) {
      assert (a + b)[|a| + i] == b[i];
    }
  }

  lemma MarkersCons(syn: Syntax, y: Line, z: seq<Line>)
    requires IsMarkerLine(syn, y)
    ensures Markers(syn, [y] + z) == [Bare(y)] + Markers(syn, z)
  {
    assert ([y] + z)[1..] == z;
  }

  lemma SpliceCons(syn: Syntax, x: Line, rest: seq<Line>, bodies: seq<seq<Line>>, inside: bool)
    requires IsMarkerLine(syn, x)
    ensures inside ==> Splice(syn, [x] + rest, bodies, true) == [x] + Splice(syn, rest, bodies, false)
    ensures !inside && bodies != [] ==>
              Splice(syn, [x] + rest, bodies, false) == [x] + bodies[0] + Splice(syn, rest, bodies[1..], true)
  {
    assert ([x] + rest)[1..] == rest;
  }

  /** One region of the line-by-line replacement. */
  lemma SpliceRegion(syn: Syntax, head: seq<Line>, a: seq<Line>, x: Line, b: seq<Line>, tail: seq<Line>,
                     body: seq<Line>, bodies: seq<seq<Line>>, pending: bool)
    requires if pending then |head| == 1 && IsMarkerLine(syn, head[0]) else head == []
    requires Markers(syn, a) == [] && Markers(syn, b) == [] && IsMarkerLine(syn, x)
    ensures Splice(syn, head + (a + ([x] + (b + tail))), [body] + bodies, pending) ==
            head + (a + ([x] + body + Splice(syn, tail, bodies, true)))
  {
    hide IsMarkerLine, Splice;
    var more := [body] + bodies;
    assert more[1..] == bodies;
    SpliceSkip(syn, b, tail, bodies, true);
    SpliceCons(syn, x, b + tail, more, false);
    SpliceSkip(syn, a, [x] + (b + tail), more, false);
    if pending {
      assert head == [head[0]];
      SpliceCons(syn, head[0], a + ([x] + (b + tail)), more, true);
    } else {
      var line := a + ([x] + (b + tail));
      assert head + line == line;
    }
  }

  lemma FlatRegion(d: Bytes, cursor: nat, front: seq<Line>, x: Line, s: nat, body: seq<Line>, after: seq<Line>)
    requires cursor <= s <= s + |x| <= |d| && d[cursor..s] == Flat(front) && d[s..s + |x|] == x
    ensures Flat(front + [x] + body + after) == d[cursor..s + |x|] + Flat(body) + Flat(after)
  {
    FlatAppend(front, [x]);
    assert Flat([x]) == x + Flat([]);
    FlatAppend(front + [x], body);
    FlatAppend(front + [x] + body, after);
    assert d[cursor..s + |x|] == d[cursor..s] + d[s..s + |x|];
  }

  /** The next region, in lines: what precedes it, its opening line, its body, its closing line
      and what follows. */
  lemma LocateRegion(syn: Syntax, ls: seq<Line>, pending: bool, o: Bytes, c: Bytes, more: seq<Bytes>,
                     body: seq<Line>, bodies: seq<seq<Line>>)
    returns (front: seq<Line>, x: Line, b: seq<Line>, y: Line, z: seq<Line>)
    requires Awaits(syn, ls, pending, [o, c] + more)
    ensures ls == front + ([x] + (b + ([y] + z)))
    ensures IsMarkerLine(syn, x) && Bare(x) == o && IsMarkerLine(syn, y) && Bare(y) == c
    ensures Awaits(syn, [y] + z, true, more)
    ensures Splice(syn, ls, [body] + bodies, pending) == front + [x] + body + Splice(syn, [y] + z, bodies, true)
  {
    hide IsMarkerLine, Markers, Splice, Bare;
    var head, tail := SkipPending(syn, ls, pending, [o, c] + more);
    var a, x', rest := SplitAtMarker(syn, tail);
    assert ([o, c] + more)[0] == o && ([o, c] + more)[1..] == [c] + more;
    assert Markers(syn, tail)[1..] == Markers(syn, rest);
    var b', y', z' := SplitAtMarker(syn, rest);
    assert ([c] + more)[1..] == more && Markers(syn, rest)[1..] == Markers(syn, z');
    front, x, b, y, z := head + a, x', b', y', z';
    MarkersCons(syn, y, z);
    SpliceRegion(syn, head, a, x, b, [y] + z, body, bodies, pending);
    assert ls == head + (a + ([x] + (b + ([y] + z))));
    assert head + (a + ([x] + body + Splice(syn, [y] + z, bodies, true))) ==
           front + [x] + body + Splice(syn, [y] + z, bodies, true);
  }

  /** A marker line after a stretch of lines, in byte positions. */
  lemma LineAt(syn: Syntax, d: Bytes, cursor: nat, front: seq<Line>, x: Line, rest: seq<Line>) returns (s: nat)
    requires SyntaxOk(syn) && cursor <= |d| && AtLineStart(d, cursor)
    requires AreLines(front + ([x] + rest)) && d[cursor..] == Flat(front + ([x] + rest))
    requires IsMarkerLine(syn, x) && Bare(x) != [] && Count(d, Bare(x)) == 1
    ensures cursor <= s <= s + |x| <= |d| && AtLineStart(d, s) && AreLines([x] + rest)
    ensures front != [] ==> s > cursor && d[s - 1] == LF
    ensures d[cursor..s] == Flat(front) && d[s..s + |x|] == x && d[s..] == Flat([x] + rest)
    ensures Find(d, Bare(x), 0) == Some(s)
    ensures rest != [] ==> Terminated(x)
    ensures Find(d, [LF], s) == if Terminated(x) then Some(s + |x| - 1) else None
    ensures var lf := Find(d, [LF], s); RStrip(d[s..if lf.Some? then lf.value else |d|], {CR}) == Bare(x)
    ensures s == cursor + |Flat(front)|
  {
    hide IsMarkerLine, Lines, Flat, Find, RStrip, Count, Bare, AreLines;
    s := cursor + |Flat(front)|;
    StretchOffsets(d, cursor, front, [x] + rest);
    SuffixAreLines(front, [x] + rest);
    FlatCons(x, rest);
    MarkerLineBytes(syn, d, s, x, rest);
    UniqueAtLineStart(d, Bare(x), s);
    assert d[s..][..|x|] == d[s..s + |x|];
  }

  lemma LineFeedBefore(d: Bytes, e: nat)
    requires 0 < e <= |d| && d[e - 1] == LF
    ensures RFindByte(d, LF, e) == Some(e - 1)
  {
  }

  /** The same region, in byte positions. */
  lemma RegionOffsets(syn: Syntax, d: Bytes, cursor: nat, front: seq<Line>, x: Line, b: seq<Line>, y: Line,
                      z: seq<Line>)
    returns (s: nat, e: nat)
    requires SyntaxOk(syn) && cursor <= |d| && AtLineStart(d, cursor)
    requires Lines(d[cursor..]) == front + ([x] + (b + ([y] + z)))
    requires IsMarkerLine(syn, x) && IsMarkerLine(syn, y)
    requires Bare(x) != [] && Bare(y) != [] && Count(d, Bare(x)) == 1 && Count(d, Bare(y)) == 1
    ensures cursor <= s < e <= |d| && AtLineStart(d, e)
    ensures Find(d, Bare(x), 0) == Some(s) && Find(d, Bare(y), 0) == Some(e)
    ensures s + |x| <= e && d[cursor..s] == Flat(front) && d[s..s + |x|] == x
    ensures Find(d, [LF], s) == Some(s + |x| - 1) && |x| > 0 && RStrip(d[s..s + |x| - 1], {CR}) == Bare(x)
    ensures RFindByte(d, LF, e) == Some(e - 1)
    ensures var lf := Find(d, [LF], e); RStrip(d[e..if lf.Some? then lf.value else |d|], {CR}) == Bare(y)
    ensures Lines(d[e..]) == [y] + z
  {
    hide IsMarkerLine, Lines, Flat, Find, RStrip, Count, Bare, AreLines, RFindByte;
    LinesAreLines(d[cursor..]);
    s := LineAt(syn, d, cursor, front, x, b + ([y] + z));
    assert [x] + (b + ([y] + z)) == ([x] + b) + ([y] + z);
    e := LineAt(syn, d, s, [x] + b, y, z);
    FlatCons(x, b);
    LineFeedBefore(d, e);
    LinesOfFlat([y] + z);
  }

  lemma FlatCons(x: Line, rest: seq<Line>)
    ensures Flat([x] + rest) == x + Flat(rest)
  {
    assert ([x] + rest)[1..] == rest;
  }

  /** Everything the loop body of replace_generated_regions relies on, for the region whose
      markers come next after `cursor`.  `pending` says that the previous region's closing
      marker line is still to be copied. */
  lemma RegionShape(syn: Syntax, d: Bytes, cursor: nat, pending: bool, o: Bytes, c: Bytes, more: seq<Bytes>,
                    body: seq<Line>, bodies: seq<seq<Line>>)
    returns (lf: nat, e: nat)
    requires SyntaxOk(syn) && cursor <= |d| && AtLineStart(d, cursor)
    requires Awaits(syn, Lines(d[cursor..]), pending, [o, c] + more)
    requires o != [] && c != [] && Count(d, o) == 1 && Count(d, c) == 1
    ensures Edges(d, cursor, o, c) == Some((lf, e))
    ensures cursor <= lf < e <= |d| && AtLineStart(d, e)
    ensures Awaits(syn, Lines(d[e..]), true, more)
    ensures Flat(Splice(syn, Lines(d[cursor..]), [body] + bodies, pending)) ==
            d[cursor..lf + 1] + Flat(body) + Flat(Splice(syn, Lines(d[e..]), bodies, true))
  {
    hide IsMarkerLine, Markers, Splice, Lines, Flat, Find, RStrip, Count, Bare, RFindByte;
    var front, x, b, y, z := LocateRegion(syn, Lines(d[cursor..]), pending, o, c, more, body, bodies);
    var s: nat;
    s, e := RegionOffsets(syn, d, cursor, front, x, b, y, z);
    lf := s + |x| - 1;
    FlatRegion(d, cursor, front, x, s, body, Splice(syn, [y] + z, bodies, true));
  }

  // ----- the splicers as the code performs them

  lemma {:induction false} NewBodiesSuffix(names: seq<Bytes>, generated: map<Bytes, Bytes>, k: nat)
    requires k < |names| && forall i | 0 <= i < |names| :: names[i] in generated
    ensures NewBodies(names[k..], generated) ==
            [Lines(Normalized(generated[names[k]]))] + NewBodies(names[k + 1..], generated)
  {
    assert names[k..][1..] == names[k + 1..];
  }

  lemma ExpectedSuffix(syn: Syntax, names: seq<Bytes>, k: nat)
    requires k < |names|
    ensures Expected(syn, names[k..]) ==
            [Opening(syn, names[k]), Closing(syn, names[k])] + Expected(syn, names[k + 1..])
  {
    assert names[k..][1..] == names[k + 1..];
  }

  /** With no region left the rest of the document is copied. */
  lemma SpliceRest(syn: Syntax, d: Bytes, pending: bool)
    requires Awaits(syn, Lines(d), pending, [])
    ensures Flat(Splice(syn, Lines(d), [], pending)) == d
  {
    hide IsMarkerLine, Flat, Splice, Lines;
    LinesAreLines(d);
    var ls := Lines(d);
    var head, tail := SkipPending(syn, ls, pending, []);
    SpliceSkip(syn, tail, [], [], false);
    assert tail + [] == tail && Splice(syn, [], [], false) == [] by { EmptySplice(syn); }
    if pending {
      SpliceCons(syn, ls[0], tail, [], true);
      assert [ls[0]] + tail == ls;
    } else {
      assert ls == tail;
    }
  }

  lemma EmptySplice(syn: Syntax)
    ensures Splice(syn, [], [], false) == []
  {
  }

  /** Main result: the byte surgery accepts exactly the documents whose marker lines are the
      expected list, whose markers each occur once, and whose generated keys match; on those its
      own order and line-shape checks never fire, and its result is the line-by-line one. */
  method ReplaceGeneratedRegions(syn: Syntax, document: Bytes, generated: map<Bytes, Bytes>, names: seq<Bytes>)
    returns (r: Option<Bytes>)
    requires SyntaxOk(syn)
    ensures r.Some? <==> Accepts(syn, document, generated, names)
    ensures r == Replace(syn, document, generated, names)
  {
    hide Markers, Lines, Splice, Flat, IsMarkerLine, Opening, Closing, SyntaxOk, KeysMatch, Awaits, Expected, NewBodies,
         Normalized, AtLineStart, Edges, CountedOnce;
    if Markers(syn, Lines(document)) != Expected(syn, names) || !KeysMatch(names, generated) {
      return None;
    }
    assert forall i | 0 <= i < |names| :: names[i] in generated by { KeysCover(names, generated); }
    var rendered: Bytes := [];
    var cursor := 0;
    assert document[0..] == document && names[0..] == names;
    Start(syn, document, names);
    for k := 0 to |names|
      invariant cursor <= |document| && AtLineStart(document, cursor)
      invariant Awaits(syn, Lines(document[cursor..]), k > 0, Expected(syn, names[k..]))
      invariant CountedOnce(syn, document, names[..k])
      invariant Flat(Splice(syn, Lines(document), NewBodies(names, generated), false)) ==
                rendered + Flat(Splice(syn, Lines(document[cursor..]), NewBodies(names[k..], generated), k > 0))
    {
      var opening, closing := Opening(syn, names[k]), Closing(syn, names[k]);
      ExpectedSuffix(syn, names, k);
      NewBodiesSuffix(names, generated, k);
      CountedOnceStep(syn, document, names, k);
      ghost var after := NextRegion(syn, document, cursor, k > 0, opening, closing, Expected(syn, names[k + 1..]),
                                    Normalized(generated[names[k]]), NewBodies(names[k + 1..], generated));
      var edges := Edges(document, cursor, opening, closing);
      if edges.None? {
        return None;
      }
      var (startLineEnd, endLineStart) := edges.value;
      var body := Normalized(generated[names[k]]);
      Reassociate(rendered, document[cursor..startLineEnd + 1], body, after);
      rendered := rendered + document[cursor..startLineEnd + 1] + body;
      cursor := endLineStart;
    }
    assert names[|names|..] == [] && names[..|names|] == names;
    NothingLeft(syn, generated);
    SpliceRest(syn, document[cursor..], |names| > 0);
    rendered := rendered + document[cursor..];
    r := Some(rendered);
  }

  /** One turn of the loop: the searches succeed exactly when both markers are counted once. */
  lemma NextRegion(syn: Syntax, d: Bytes, cursor: nat, pending: bool, o: Bytes, c: Bytes, more: seq<Bytes>,
                   body: Bytes, bodies: seq<seq<Line>>)
    returns (after: Bytes)
    requires SyntaxOk(syn) && cursor <= |d| && AtLineStart(d, cursor)
    requires Awaits(syn, Lines(d[cursor..]), pending, [o, c] + more)
    requires o != [] && c != []
    ensures Edges(d, cursor, o, c).Some? <==> Count(d, o) == 1 && Count(d, c) == 1
    ensures Edges(d, cursor, o, c).Some? ==>
              var (lf, e) := Edges(d, cursor, o, c).value;
              && cursor <= lf < e <= |d| && AtLineStart(d, e)
              && Awaits(syn, Lines(d[e..]), true, more)
              && after == Flat(Splice(syn, Lines(d[e..]), bodies, true))
              && Flat(Splice(syn, Lines(d[cursor..]), [Lines(body)] + bodies, pending)) ==
                 d[cursor..lf + 1] + body + after
  {
    hide Markers, Lines, Splice, Flat, IsMarkerLine, SyntaxOk, Awaits, AtLineStart, Count, Find, RFindByte, RStrip;
    after := [];
    if Count(d, o) == 1 && Count(d, c) == 1 {
      var lf, e := RegionShape(syn, d, cursor, pending, o, c, more, Lines(body), bodies);
      LinesAreLines(body);
      after := Flat(Splice(syn, Lines(d[e..]), bodies, true));
    }
  }

  lemma CountedOnceStep(syn: Syntax, d: Bytes, names: seq<Bytes>, k: nat)
    requires SyntaxOk(syn) && k < |names|
    ensures CountedOnce(syn, d, names[..k + 1]) <==>
            && CountedOnce(syn, d, names[..k])
            && Count(d, Opening(syn, names[k])) == 1 && Count(d, Closing(syn, names[k])) == 1
    ensures CountedOnce(syn, d, names) ==> CountedOnce(syn, d, names[..k + 1])
  {
    hide Opening, Closing, Count;
    assert names[..k + 1][k] == names[k];
    assert forall i | 0 <= i < k :: names[..k + 1][i] == names[..k][i] == names[i];
  }

  lemma Start(syn: Syntax, d: Bytes, names: seq<Bytes>)
    requires SyntaxOk(syn)
    ensures AtLineStart(d, 0) && CountedOnce(syn, d, [])
    ensures Markers(syn, Lines(d)) == Expected(syn, names) ==> Awaits(syn, Lines(d), false, Expected(syn, names))
  {
  }

  lemma NothingLeft(syn: Syntax, generated: map<Bytes, Bytes>)
    ensures NewBodies([], generated) == [] && Expected(syn, []) == []
  {
  }

  lemma Reassociate(a: Bytes, b: Bytes, c: Bytes, d: Bytes)
    ensures a + (b + c + d) == a + b + c + d
  {
  }

  lemma KeysCover(names: seq<Bytes>, generated: map<Bytes, Bytes>)
    requires KeysMatch(names, generated)
    ensures forall i | 0 <= i < |names| :: names[i] in generated
  {
  }

  /** tools/render_settings.py's replace_generated_region, for the region called `name`. */
  function ReplaceOne(syn: Syntax, document: Bytes, generated: Bytes, name: Bytes): Option<Bytes>
    requires SyntaxOk(syn)
  {
    if Markers(syn, Lines(document)) != [Opening(syn, name), Closing(syn, name)] then None else
    var (startLineEnd, endLineStart) :- Edges(document, 0, Opening(syn, name), Closing(syn, name));
    Some(document[..startLineEnd + 1] + Normalized(generated) + document[endLineStart..])
  }

  /** With one region and the same markers the two splicers are the same function, acceptance
      included. */
  lemma OneRegionAgrees(syn: Syntax, document: Bytes, generated: Bytes, name: Bytes)
    requires SyntaxOk(syn)
    ensures ReplaceOne(syn, document, generated, name) == Replace(syn, document, map[name := generated], [name])
  {
    hide Markers, Lines, Splice, Flat, Edges, Count, IsMarkerLine, Opening, Closing, SyntaxOk, Normalized;
    var o, c := Opening(syn, name), Closing(syn, name);
    var g := map[name := generated];
    assert [name][1..] == [] && [name][0] == name;
    assert Expected(syn, [name]) == [o, c] + Expected(syn, []);
    assert KeysMatch([name], g);
    assert CountedOnce(syn, document, [name]) <==> Count(document, o) == 1 && Count(document, c) == 1;
    if Markers(syn, Lines(document)) == [o, c] {
      assert document[0..] == document && [o, c] + [] == [o, c];
      var bodies := NewBodies([name], g);
      assert bodies == [Lines(Normalized(generated))] + NewBodies([], g);
      var after := NextRegion(syn, document, 0, false, o, c, [], Normalized(generated), []);
      if Edges(document, 0, o, c).Some? {
        SpliceRest(syn, document[Edges(document, 0, o, c).value.1..], true);
      }
    }
  }
}
