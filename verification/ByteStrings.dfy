/** Python's bytes and the searches the tools make in them. */
module ByteStrings {
  import opened Wrappers

  type Byte = b: int | 0 <= b < 256
  type Bytes = seq<Byte>

  const LF: Byte := 10
  const CR: Byte := 13

  function Ascii(s: string): Bytes
    requires forall i | 0 <= i < |s| :: s[i] as int < 128
  {
    seq(|s|, i requires 0 <= i < |s| => s[i] as int)
  }

  predicate StartsWith(d: Bytes, pat: Bytes) {
    |pat| <= |d| && d[..|pat|] == pat
  }

  predicate OccursAt(d: Bytes, pat: Bytes, i: int) {
    0 <= i <= |d| && StartsWith(d[i..], pat)
  }

  /** bytes.find from a position. */
  function Find(d: Bytes, pat: Bytes, start: nat): (r: Option<nat>)
    ensures r.Some? ==> start <= r.value <= |d| - |pat| && OccursAt(d, pat, r.value)
    ensures r.Some? ==> forall i | start <= i < r.value :: !OccursAt(d, pat, i)
    ensures r.None? ==> forall i | start <= i <= |d| :: !OccursAt(d, pat, i)
    decreases |d| - start
  {
    if start + |pat| > |d| then None
    else if OccursAt(d, pat, start) then Some(start)
    else Find(d, pat, start + 1)
  }

  /** bytes.rfind of one byte before a position. */
  function RFindByte(d: Bytes, b: Byte, end: nat): (r: Option<nat>)
    requires end <= |d|
    ensures r.Some? ==> r.value < end && d[r.value] == b
    ensures forall i | (if r.Some? then r.value else -1) < i < end :: d[i] != b
  {
    if end == 0 then None
    else if d[end - 1] == b then Some(end - 1)
    else RFindByte(d, b, end - 1)
  }

  /** bytes.count: occurrences that do not overlap, taken from the left. */
  function Count(d: Bytes, pat: Bytes): nat
    requires pat != []
    decreases |d|
  {
    if |d| < |pat| then 0
    else if StartsWith(d, pat) then 1 + Count(d[|pat|..], pat)
    else Count(d[1..], pat)
  }

  /** bytes.rstrip of a set of bytes. */
  function RStrip(d: Bytes, strip: set<Byte>): (r: Bytes)
    ensures r <= d
    ensures r != [] ==> r[|r| - 1] !in strip
    ensures forall i | |r| <= i < |d| :: d[i] in strip
  {
    if d != [] && d[|d| - 1] in strip then RStrip(d[..|d| - 1], strip) else d
  }

  /** Text that stays on one line. */
  predicate OneLine(pat: Bytes) {
    LF !in pat
  }

  lemma {:induction false} CountPositive(d: Bytes, pat: Bytes, i: nat)
    requires pat != [] && OccursAt(d, pat, i)
    ensures Count(d, pat) >= 1
    decreases |d|
  {
    if !StartsWith(d, pat) {
      assert d[0..] == d;
      assert d[1..][i - 1..] == d[i..];
      CountPositive(d[1..], pat, i - 1);
    }
  }

  lemma CountZero(d: Bytes, pat: Bytes)
    requires pat != [] && Count(d, pat) == 0
    ensures forall i :: !OccursAt(d, pat, i)
  {
    forall i | 0 <= i <= |d| && OccursAt(d, pat, i) ensures false {
      CountPositive(d, pat, i);
    }
  }

  lemma NoStraddle(a: Bytes, b: Bytes, pat: Bytes)
    requires OneLine(pat) && a != [] && a[|a| - 1] == LF && |pat| >= |a|
    ensures !StartsWith(a + b, pat)
  {
    assert pat[|a| - 1] != LF && (a + b)[|a| - 1] == LF;
    assert |pat| <= |a + b| ==> (a + b)[..|pat|][|a| - 1] == LF;
  }

  /** An occurrence of one-line text cannot straddle a line feed, so counts add up line by line. */
  lemma {:induction false} CountAppend(a: Bytes, b: Bytes, pat: Bytes)
    requires pat != [] && OneLine(pat)
    requires a == [] || a[|a| - 1] == LF
    ensures Count(a + b, pat) == Count(a, pat) + Count(b, pat)
    decreases |a|
  {
    if a == [] {
      assert a + b == b;
    } else {
      if |pat| >= |a| {
        NoStraddle(a, b, pat);
      } else {
        assert a[..|pat|] == (a + b)[..|pat|];
      }
      if StartsWith(a + b, pat) {
        assert (a + b)[|pat|..] == a[|pat|..] + b;
        CountAppend(a[|pat|..], b, pat);
      } else {
        assert |pat| == |a| ==> a == (a + b)[..|pat|];
        CountAppend(a[1..], b, pat);
        assert (a + b)[1..] == a[1..] + b;
        if |a| < |pat| { CountShort(a[1..], pat); }
        if |a + b| < |pat| { CountShort(b, pat); CountShort(a[1..] + b, pat); }
      }
    }
  }

  lemma CountShort(d: Bytes, pat: Bytes)
    requires pat != [] && |d| < |pat|
    ensures Count(d, pat) == 0
  {
  }

  predicate AtLineStart(d: Bytes, i: nat)
    requires i <= |d|
  {
    i == 0 || d[i - 1] == LF
  }

  /** If one-line text is counted once and stands at the start of a line, searching finds it there. */
  lemma UniqueAtLineStart(d: Bytes, pat: Bytes, o: nat)
    requires pat != [] && OneLine(pat)
    requires OccursAt(d, pat, o) && AtLineStart(d, o) && Count(d, pat) == 1
    ensures Find(d, pat, 0) == Some(o)
  {
    assert d == d[..o] + d[o..];
    CountAppend(d[..o], d[o..], pat);
    CountPositive(d[o..], pat, 0);
    CountZero(d[..o], pat);
    forall i | 0 <= i < o ensures !OccursAt(d, pat, i) {
      if i + |pat| <= o {
        assert d[..o][i..][..|pat|] == d[i..][..|pat|];
        assert OccursAt(d, pat, i) ==> OccursAt(d[..o], pat, i);
      } else if i + |pat| <= |d| {
        assert d[i..][..|pat|][o - 1 - i] == d[o - 1] == LF;
        assert pat[o - 1 - i] != LF;
      }
    }
  }
}
