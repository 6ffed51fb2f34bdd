/** Documents seen as lines, with generated regions fenced by marker lines.  This is the simple
    form of region replacement: copy lines, and swap whatever lies between an opening marker
    line and the next marker line. */
module MarkerLines {
  import opened ByteStrings

  type Line = Bytes

  function LineLength(d: Bytes): (k: nat)
    requires d != []
    ensures 0 < k <= |d|
    ensures forall i | 0 <= i < k - 1 :: d[i] != LF
    ensures k < |d| ==> d[k - 1] == LF
  {
    if d[0] == LF || |d| == 1 then 1 else 1 + LineLength(d[1..])
  }

  /** The lines of a document, each with its line feed; only the last may lack one. */
  function Lines(d: Bytes): seq<Line>
    decreases |d|
  {
    if d == [] then [] else [d[..LineLength(d)]] + Lines(d[LineLength(d)..])
  }

  function Flat(ls: seq<Line>): Bytes {
    if ls == [] then [] else ls[0] + Flat(ls[1..])
  }

  predicate Terminated(l: Line) {
    l != [] && l[|l| - 1] == LF
  }

  predicate IsLine(l: Line) {
    l != [] && forall i | 0 <= i < |l| - 1 :: l[i] != LF
  }

  /** What Lines can return. */
  predicate AreLines(ls: seq<Line>) {
    && (forall i | 0 <= i < |ls| :: IsLine(ls[i]))
    && (forall i | 0 <= i < |ls| - 1 :: Terminated(ls[i]))
  }

  /** Whole lines: these can stand in front of anything. */
  predicate AllTerminated(ls: seq<Line>) {
    forall i | 0 <= i < |ls| :: IsLine(ls[i]) && Terminated(ls[i])
  }

  lemma {:induction false} LinesAreLines(d: Bytes)
    ensures AreLines(Lines(d)) && Flat(Lines(d)) == d
    ensures d != [] && d[|d| - 1] == LF ==> AllTerminated(Lines(d))
    decreases |d|
  {
    hide AreLines, AllTerminated;
    NoLines();
    if d != [] {
      var k := LineLength(d);
      LinesAreLines(d[k..]);
      FirstLine(d);
      CutAt(d, k);
      LinesCons(d[..k], Lines(d[k..]), k < |d|);
    }
  }

  lemma NoLines()
    ensures AreLines([]) && AllTerminated([])
  {
  }

  lemma FirstLine(d: Bytes)
    requires d != []
    ensures IsLine(d[..LineLength(d)])
    ensures LineLength(d) < |d| || d[|d| - 1] == LF ==> Terminated(d[..LineLength(d)])
  {
    hide LineLength;
  }

  lemma CutAt(d: Bytes, k: nat)
    requires k <= |d|
    ensures d == d[..k] + d[k..]
    ensures k < |d| ==> d[k..][|d| - k - 1] == d[|d| - 1]
  {
  }

  lemma LinesCons(first: Line, rest: seq<Line>, more: bool)
    requires IsLine(first) && AreLines(rest)
    requires if more then Terminated(first) else rest == []
    ensures AreLines([first] + rest)
    ensures Terminated(first) && AllTerminated(rest) ==> AllTerminated([first] + rest)
  {
  }

  lemma {:induction false} LineLengthIs(d: Bytes, k: nat)
    requires 0 < k <= |d|
    requires forall i | 0 <= i < k - 1 :: d[i] != LF
    requires k < |d| ==> d[k - 1] == LF
    ensures LineLength(d) == k
  {
    if k > 1 {
      LineLengthIs(d[1..], k - 1);
    }
  }

  lemma {:induction false} LinesOfFlat(ls: seq<Line>)
    requires AreLines(ls)
    ensures Lines(Flat(ls)) == ls
  {
    if ls != [] {
      LinesOfFlat(ls[1..]);
      var d := Flat(ls);
      assert d[..|ls[0]|] == ls[0] && d[|ls[0]|..] == Flat(ls[1..]);
      LineLengthIs(d, |ls[0]|);
    }
  }

  lemma {:induction false} FlatAppend(a: seq<Line>, b: seq<Line>)
    ensures Flat(a + b) == Flat(a) + Flat(b)
  {
    if a == [] {
      assert a + b == b;
    } else {
      assert (a + b)[1..] == a[1..] + b;
      FlatAppend(a[1..], b);
    }
  }

  // ----- markers

  /** How one tool spells its marker lines: an opening or closing prefix, a name, a tail. */
  datatype Syntax = Syntax(begin: Bytes, end: Bytes, tail: Bytes)

  predicate Plain(b: Bytes) {
    CR !in b && LF !in b
  }

  predicate SyntaxOk(syn: Syntax) {
    && syn.begin != [] && syn.end != []
    && Plain(syn.begin) && Plain(syn.end) && Plain(syn.tail)
  }

  predicate Fenced(prefix: Bytes, tail: Bytes, p: Bytes) {
    && |prefix| + |tail| <= |p|
    && p[..|prefix|] == prefix
    && p[|p| - |tail|..] == tail
  }

  /** Text that the tool's marker pattern matches, without an optional carriage return. */
  predicate IsMarker(syn: Syntax, p: Bytes) {
    Plain(p) && (Fenced(syn.begin, syn.tail, p) || Fenced(syn.end, syn.tail, p))
  }

  function DropLast(l: Bytes, b: Byte): Bytes {
    if l != [] && l[|l| - 1] == b then l[..|l| - 1] else l
  }

  /** A line without its line feed and at most one carriage return before it. */
  function Bare(l: Line): Bytes {
    DropLast(DropLast(l, LF), CR)
  }

  predicate IsMarkerLine(syn: Syntax, l: Line) {
    IsMarker(syn, Bare(l))
  }

  /** Every marker of the document, in order: what finditer yields, right-stripped of CR. */
  function Markers(syn: Syntax, ls: seq<Line>): seq<Bytes> {
    if ls == [] then []
    else (if IsMarkerLine(syn, ls[0]) then [Bare(ls[0])] else []) + Markers(syn, ls[1..])
  }

  lemma {:induction false} MarkersAppend(syn: Syntax, a: seq<Line>, b: seq<Line>)
    ensures Markers(syn, a + b) == Markers(syn, a) + Markers(syn, b)
  {
    if a == [] {
      assert a + b == b;
    } else {
      assert (a + b)[1..] == a[1..] + b;
      MarkersAppend(syn, a[1..], b);
    }
  }

  // ----- replacing what the markers fence

  /** Copy lines while outside a region; at an opening marker line emit the next body and drop
      lines up to the next marker line. */
  function Splice(syn: Syntax, ls: seq<Line>, bodies: seq<seq<Line>>, inside: bool): seq<Line> {
    if ls == [] then []
    else if IsMarkerLine(syn, ls[0]) then
      if inside then [ls[0]] + Splice(syn, ls[1..], bodies, false)
      else if bodies == [] then [ls[0]] + Splice(syn, ls[1..], [], true)
      else [ls[0]] + bodies[0] + Splice(syn, ls[1..], bodies[1..], true)
    else (if inside then [] else [ls[0]]) + Splice(syn, ls[1..], bodies, inside)
  }

  /** As many regions as there are bodies: the markers come in pairs, after the pending closing
      marker when the scan starts inside a region. */
  predicate Paired(syn: Syntax, ls: seq<Line>, bodies: seq<seq<Line>>, inside: bool) {
    |Markers(syn, ls)| == 2 * |bodies| + (if inside then 1 else 0)
  }

  ghost predicate BodiesTerminated(bodies: seq<seq<Line>>) {
    forall i | 0 <= i < |bodies| :: AllTerminated(bodies[i])
  }

  /** Bodies that hold no marker line. */
  ghost predicate Unmarked(syn: Syntax, bodies: seq<seq<Line>>) {
    forall i | 0 <= i < |bodies| :: Markers(syn, bodies[i]) == []
  }

  lemma OneMore(l: Line, ls: seq<Line>)
    ensures ([l] + ls)[1..] == ls && [] + ls == ls
  {
  }

  lemma {:induction false} SpliceAreLines(syn: Syntax, ls: seq<Line>, bodies: seq<seq<Line>>, inside: bool)
    requires AreLines(ls) && Paired(syn, ls, bodies, inside) && BodiesTerminated(bodies)
    ensures AreLines(Splice(syn, ls, bodies, inside))
  {
    hide IsMarkerLine;
    if ls != [] {
      if IsMarkerLine(syn, ls[0]) && !inside {
        SpliceAreLines(syn, ls[1..], bodies[1..], true);
        assert Terminated(ls[0]) && AllTerminated(bodies[0]);
      } else if IsMarkerLine(syn, ls[0]) {
        SpliceAreLines(syn, ls[1..], bodies, false);
      } else {
        SpliceAreLines(syn, ls[1..], bodies, inside);
      }
    }
  }

  /** Skipping a stretch without markers. */
  lemma {:induction false} SpliceSkip(syn: Syntax, a: seq<Line>, b: seq<Line>, bodies: seq<seq<Line>>, inside: bool)
    requires Markers(syn, a) == []
    ensures Splice(syn, a + b, bodies, inside) == (if inside then [] else a) + Splice(syn, b, bodies, inside)
  {
    hide IsMarkerLine;
    if a == [] {
      assert a + b == b;
    } else {
      assert (a + b)[1..] == a[1..] + b;
      SpliceSkip(syn, a[1..], b, bodies, inside);
      assert a == [a[0]] + a[1..];
    }
  }

  /** How many marker lines the bodies hold. */
  function MarkerTotal(syn: Syntax, bodies: seq<seq<Line>>): nat {
    if bodies == [] then 0 else |Markers(syn, bodies[0])| + MarkerTotal(syn, bodies[1..])
  }

  lemma {:induction false} UnmarkedTotal(syn: Syntax, bodies: seq<seq<Line>>)
    ensures Unmarked(syn, bodies) <==> MarkerTotal(syn, bodies) == 0
  {
    hide Markers;
    if bodies != [] {
      UnmarkedTotal(syn, bodies[1..]);
      assert Unmarked(syn, bodies) <==> Markers(syn, bodies[0]) == [] && Unmarked(syn, bodies[1..]);
    }
  }

  lemma MarkersOfCons(syn: Syntax, l: Line, rest: seq<Line>)
    ensures Markers(syn, [l] + rest) == (if IsMarkerLine(syn, l) then [Bare(l)] else []) + Markers(syn, rest)
  {
    assert ([l] + rest)[1..] == rest;
  }

  /** Replacing adds whatever marker lines the bodies smuggle in. */
  lemma {:induction false} MarkersOfSplice(syn: Syntax, ls: seq<Line>, bodies: seq<seq<Line>>, inside: bool)
    requires Paired(syn, ls, bodies, inside)
    ensures |Markers(syn, Splice(syn, ls, bodies, inside))| == |Markers(syn, ls)| + MarkerTotal(syn, bodies)
  {
    hide IsMarkerLine, Bare;
    if ls != [] {
      if IsMarkerLine(syn, ls[0]) && !inside {
        var rest := Splice(syn, ls[1..], bodies[1..], true);
        MarkersOfSplice(syn, ls[1..], bodies[1..], true);
        MarkersOfCons(syn, ls[0], bodies[0]);
        MarkersAppend(syn, [ls[0]] + bodies[0], rest);
      } else if IsMarkerLine(syn, ls[0]) {
        MarkersOfSplice(syn, ls[1..], bodies, false);
        MarkersOfCons(syn, ls[0], Splice(syn, ls[1..], bodies, false));
      } else {
        MarkersOfSplice(syn, ls[1..], bodies, inside);
        OneMore(ls[0], Splice(syn, ls[1..], bodies, inside));
        MarkersOfCons(syn, ls[0], Splice(syn, ls[1..], bodies, inside));
      }
    }
  }

  /** With unmarked bodies the markers stay as they are. */
  lemma {:induction false} CleanSpliceKeepsMarkers(syn: Syntax, ls: seq<Line>, bodies: seq<seq<Line>>, inside: bool)
    requires Paired(syn, ls, bodies, inside) && Unmarked(syn, bodies)
    ensures Markers(syn, Splice(syn, ls, bodies, inside)) == Markers(syn, ls)
  {
    hide IsMarkerLine, Bare;
    if ls != [] {
      if IsMarkerLine(syn, ls[0]) && !inside {
        var rest := Splice(syn, ls[1..], bodies[1..], true);
        CleanSpliceKeepsMarkers(syn, ls[1..], bodies[1..], true);
        MarkersOfCons(syn, ls[0], bodies[0]);
        MarkersAppend(syn, [ls[0]] + bodies[0], rest);
      } else if IsMarkerLine(syn, ls[0]) {
        CleanSpliceKeepsMarkers(syn, ls[1..], bodies, false);
        MarkersOfCons(syn, ls[0], Splice(syn, ls[1..], bodies, false));
      } else {
        CleanSpliceKeepsMarkers(syn, ls[1..], bodies, inside);
        OneMore(ls[0], Splice(syn, ls[1..], bodies, inside));
        MarkersOfCons(syn, ls[0], Splice(syn, ls[1..], bodies, inside));
      }
    }
  }

  /** The second replacement wins. */
  lemma {:induction false} SpliceTwice(syn: Syntax, ls: seq<Line>, first: seq<seq<Line>>, second: seq<seq<Line>>,
                                       inside: bool)
    requires Paired(syn, ls, first, inside) && |second| == |first| && Unmarked(syn, first)
    ensures Splice(syn, Splice(syn, ls, first, inside), second, inside) == Splice(syn, ls, second, inside)
  {
    hide IsMarkerLine;
    if ls != [] {
      if IsMarkerLine(syn, ls[0]) && !inside {
        var rest := Splice(syn, ls[1..], first[1..], true);
        SpliceTwice(syn, ls[1..], first[1..], second[1..], true);
        SpliceSkip(syn, first[0], rest, second[1..], true);
        assert ([ls[0]] + first[0] + rest)[1..] == first[0] + rest;
      } else if IsMarkerLine(syn, ls[0]) {
        SpliceTwice(syn, ls[1..], first, second, false);
      } else {
        OneMore(ls[0], Splice(syn, ls[1..], first, inside));
        SpliceTwice(syn, ls[1..], first, second, inside);
      }
    }
  }

  // ----- counting one-line text line by line

  function CountLines(ls: seq<Line>, pat: Bytes): nat
    requires pat != []
  {
    if ls == [] then 0 else Count(ls[0], pat) + CountLines(ls[1..], pat)
  }

  lemma {:induction false} CountOfFlat(ls: seq<Line>, pat: Bytes)
    requires pat != [] && OneLine(pat) && AreLines(ls)
    ensures Count(Flat(ls), pat) == CountLines(ls, pat)
  {
    if |ls| == 1 {
      assert Flat(ls) == ls[0] + Flat([]) && Flat(ls) == ls[0];
    } else if ls != [] {
      CountAppend(ls[0], Flat(ls[1..]), pat);
      CountOfFlat(ls[1..], pat);
    }
  }

  lemma {:induction false} CountLinesAppend(a: seq<Line>, b: seq<Line>, pat: Bytes)
    requires pat != []
    ensures CountLines(a + b, pat) == CountLines(a, pat) + CountLines(b, pat)
  {
    if a == [] {
      assert a + b == b;
    } else {
      assert (a + b)[1..] == a[1..] + b;
      CountLinesAppend(a[1..], b, pat);
    }
  }

  /** Bodies in which some text never occurs. */
  ghost predicate Free(bodies: seq<seq<Line>>, pat: Bytes)
    requires pat != []
  {
    forall i | 0 <= i < |bodies| :: CountLines(bodies[i], pat) == 0
  }

  lemma MarkerLineCounts(syn: Syntax, l: Line, pat: Bytes)
    requires pat != [] && Bare(l) == pat
    ensures Count(l, pat) >= 1
  {
    CountPositive(l, pat, 0);
  }

  // ----- the frame around the regions

  /** The stretches outside the bodies, each opening marker line ending one and each closing
      marker line starting the next. */
  function Frame(syn: Syntax, ls: seq<Line>, inside: bool): (f: seq<seq<Line>>)
    ensures f != []
  {
    if ls == [] then [[]]
    else if IsMarkerLine(syn, ls[0]) && !inside then [[ls[0]]] + Frame(syn, ls[1..], true)
    else
      var f := Frame(syn, ls[1..], inside && !IsMarkerLine(syn, ls[0]));
      if inside && !IsMarkerLine(syn, ls[0]) then f else [[ls[0]] + f[0]] + f[1..]
  }

  /** The bodies the document has now. */
  function Bodies(syn: Syntax, ls: seq<Line>, inside: bool): (b: seq<seq<Line>>)
    ensures inside ==> b != []
  {
    if ls == [] then (if inside then [[]] else [])
    else if IsMarkerLine(syn, ls[0]) then
      (if inside then [[]] + Bodies(syn, ls[1..], false) else Bodies(syn, ls[1..], true))
    else
      var b := Bodies(syn, ls[1..], inside);
      if inside then [[ls[0]] + b[0]] + b[1..] else b
  }

  /** Frame and bodies, in turn. */
  function Weave(frame: seq<seq<Line>>, bodies: seq<seq<Line>>): seq<Line>
    requires frame != []
  {
    if |frame| == 1 then frame[0]
    else frame[0] + (if bodies == [] then [] else bodies[0])
         + Weave(frame[1..], if bodies == [] then [] else bodies[1..])
  }

  lemma WeaveHead(x: seq<Line>, frame: seq<seq<Line>>, bodies: seq<seq<Line>>)
    requires frame != []
    ensures Weave([x + frame[0]] + frame[1..], bodies) == x + Weave(frame, bodies)
  {
    assert ([x + frame[0]] + frame[1..])[1..] == frame[1..];
  }

  lemma WeaveCons(x: seq<Line>, frame: seq<seq<Line>>, bodies: seq<seq<Line>>)
    requires frame != []
    ensures Weave([x] + frame, bodies) ==
            x + (if bodies == [] then [] else bodies[0]) + Weave(frame, if bodies == [] then [] else bodies[1..])
  {
    assert ([x] + frame)[1..] == frame;
  }

  /** Replacing weaves the same frame with the new bodies. */
  lemma {:induction false} SpliceIsWoven(syn: Syntax, ls: seq<Line>, bodies: seq<seq<Line>>, inside: bool)
    ensures Splice(syn, ls, bodies, inside) == Weave(Frame(syn, ls, inside), bodies)
  {
    hide IsMarkerLine;
    if ls != [] {
      if IsMarkerLine(syn, ls[0]) && !inside {
        var rest := if bodies == [] then [] else bodies[1..];
        SpliceIsWoven(syn, ls[1..], rest, true);
        WeaveCons([ls[0]], Frame(syn, ls[1..], true), bodies);
      } else {
        var inside' := inside && !IsMarkerLine(syn, ls[0]);
        SpliceIsWoven(syn, ls[1..], bodies, inside');
        WeaveHead([ls[0]], Frame(syn, ls[1..], inside'), bodies);
      }
    }
  }

  lemma WeaveNothing(bodies: seq<seq<Line>>)
    ensures Weave([[]], bodies) == []
  {
  }

  /** A document is its frame woven with its own bodies. */
  lemma {:induction false} DocumentIsWoven(syn: Syntax, ls: seq<Line>, inside: bool)
    ensures !inside ==> ls == Weave(Frame(syn, ls, false), Bodies(syn, ls, false))
    ensures inside ==> ls == Bodies(syn, ls, true)[0] + Weave(Frame(syn, ls, true), Bodies(syn, ls, true)[1..])
  {
    hide IsMarkerLine, Weave;
    if ls == [] {
      WeaveNothing([]);
      assert Bodies(syn, ls, true)[1..] == [];
    } else {
      var rest := ls[1..];
      assert ls == [ls[0]] + rest;
      if IsMarkerLine(syn, ls[0]) && !inside {
        DocumentIsWoven(syn, rest, true);
        WeaveCons([ls[0]], Frame(syn, rest, true), Bodies(syn, rest, true));
      } else if IsMarkerLine(syn, ls[0]) || !inside {
        DocumentIsWoven(syn, rest, false);
        WeaveHead([ls[0]], Frame(syn, rest, false), Bodies(syn, rest, false));
        assert inside ==> Bodies(syn, ls, true) == [[]] + Bodies(syn, rest, false);
        OneMore(ls[0], ls);
        assert inside ==> Bodies(syn, ls, true)[1..] == Bodies(syn, rest, false);
      } else {
        DocumentIsWoven(syn, rest, true);
        assert Bodies(syn, ls, true)[1..] == Bodies(syn, rest, true)[1..];
      }
    }
  }

  // ----- counting in frame and bodies

  /** How often a text occurs in a list of stretches, line by line. */
  function CountAll(parts: seq<seq<Line>>, pat: Bytes): nat
    requires pat != []
  {
    if parts == [] then 0 else CountLines(parts[0], pat) + CountAll(parts[1..], pat)
  }

  lemma CountCons(part: seq<Line>, parts: seq<seq<Line>>, pat: Bytes)
    requires pat != []
    ensures CountAll([part] + parts, pat) == CountLines(part, pat) + CountAll(parts, pat)
  {
    assert ([part] + parts)[1..] == parts;
  }

  lemma {:induction false} FreeIsUncounted(bodies: seq<seq<Line>>, pat: Bytes)
    requires pat != []
    ensures Free(bodies, pat) <==> CountAll(bodies, pat) == 0
  {
    if bodies != [] {
      FreeIsUncounted(bodies[1..], pat);
      assert Free(bodies, pat) <==> CountLines(bodies[0], pat) == 0 && Free(bodies[1..], pat);
    }
  }

  /** Weaving counts what it weaves. */
  lemma {:induction false} CountOfWeave(frame: seq<seq<Line>>, bodies: seq<seq<Line>>, pat: Bytes)
    requires pat != [] && |frame| == |bodies| + 1
    ensures CountLines(Weave(frame, bodies), pat) == CountAll(frame, pat) + CountAll(bodies, pat)
  {
    if |frame| == 1 {
      assert CountAll(frame, pat) == CountLines(frame[0], pat) + CountAll(frame[1..], pat);
    } else {
      CountOfWeave(frame[1..], bodies[1..], pat);
      CountLinesAppend(frame[0] + bodies[0], Weave(frame[1..], bodies[1..]), pat);
      CountLinesAppend(frame[0], bodies[0], pat);
    }
  }

  lemma {:induction false} FrameLength(syn: Syntax, ls: seq<Line>, n: nat, inside: bool)
    requires |Markers(syn, ls)| == 2 * n + (if inside then 1 else 0)
    ensures |Frame(syn, ls, inside)| == n + 1
  {
    hide IsMarkerLine;
    if ls != [] {
      if IsMarkerLine(syn, ls[0]) && !inside {
        FrameLength(syn, ls[1..], n - 1, true);
      } else {
        FrameLength(syn, ls[1..], n, inside && !IsMarkerLine(syn, ls[0]));
      }
    }
  }

  /** The frame has every marker line, and no line of its own. */
  lemma {:induction false} CountOfFrame(syn: Syntax, ls: seq<Line>, inside: bool, pat: Bytes)
    requires pat != []
    ensures CountAll(Frame(syn, ls, inside), pat) <= CountLines(ls, pat)
    ensures pat in Markers(syn, ls) ==> CountAll(Frame(syn, ls, inside), pat) >= 1
  {
    hide IsMarkerLine, Bare;
    if ls != [] {
      if Bare(ls[0]) == pat { MarkerLineCounts(syn, ls[0], pat); }
      if IsMarkerLine(syn, ls[0]) && !inside {
        CountOfFrame(syn, ls[1..], true, pat);
        CountCons([ls[0]], Frame(syn, ls[1..], true), pat);
        OneLineCount(ls[0], [], pat);
      } else {
        var inside' := inside && !IsMarkerLine(syn, ls[0]);
        CountOfFrame(syn, ls[1..], inside', pat);
        var f := Frame(syn, ls[1..], inside');
        OneLineCount(ls[0], f[0], pat);
        CountCons([ls[0]] + f[0], f[1..], pat);
      }
    }
  }

  lemma OneLineCount(l: Line, ls: seq<Line>, pat: Bytes)
    requires pat != []
    ensures CountLines([l] + ls, pat) == Count(l, pat) + CountLines(ls, pat)
    ensures [l] + [] == [l] && CountLines([], pat) == 0
  {
    assert ([l] + ls)[1..] == ls;
  }

  /** After a replacement a text is counted exactly as often as in the frame and the new bodies
      together; the frame holds no more of it than the document did, and a marker at least once. */
  lemma CountOfSplice(syn: Syntax, ls: seq<Line>, bodies: seq<seq<Line>>, inside: bool, pat: Bytes)
    requires pat != [] && Paired(syn, ls, bodies, inside)
    ensures var frame := Frame(syn, ls, inside);
            && CountLines(Splice(syn, ls, bodies, inside), pat) == CountAll(frame, pat) + CountAll(bodies, pat)
            && CountAll(frame, pat) <= CountLines(ls, pat)
            && (pat in Markers(syn, ls) ==> CountAll(frame, pat) >= 1)
    ensures Free(bodies, pat) <==> CountAll(bodies, pat) == 0
  {
    hide Splice, Frame, Markers, Weave, CountAll, CountLines;
    FrameLength(syn, ls, |bodies|, inside);
    SpliceIsWoven(syn, ls, bodies, inside);
    CountOfWeave(Frame(syn, ls, inside), bodies, pat);
    CountOfFrame(syn, ls, inside, pat);
    FreeIsUncounted(bodies, pat);
  }
}
