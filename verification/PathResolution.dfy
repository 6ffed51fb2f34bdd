/** What a path means to the file system: its pieces taken one by one from the root.  A path that
    tools/candidate_inventory.py or xferry/advanced_sessions.py accepts is exactly its own
    resolution, so it never leaves the root and no two spellings name one entry. */
module PathResolution {
  import opened Wrappers
  import opened ByteStrings
  import opened PathNames
  import opened CandidateArchive
  import opened CandidateRoundTrip
  import opened SessionPrefixes

  /** Follow pieces from a directory: an empty piece or a dot stays, two dots go up, which fails at
      the root, and anything else goes down. */
  function Walk(pieces: seq<string>, at: seq<string>): Option<seq<string>>
    decreases |pieces|
  {
    if pieces == [] then Some(at)
    else if pieces[0] == "" || pieces[0] == "." then Walk(pieces[1..], at)
    else if pieces[0] == ".." then (if at == [] then None else Walk(pieces[1..], at[..|at| - 1]))
    else Walk(pieces[1..], at + [pieces[0]])
  }

  function Join(pieces: seq<string>): string {
    if pieces == [] then ""
    else if |pieces| == 1 then pieces[0]
    else pieces[0] + "/" + Join(pieces[1..])
  }

  predicate Ordinary(piece: string) {
    piece != "" && piece != "." && piece != ".." && '/' !in piece
  }

  /** The path of the entry a relative path leads to, or None where it leaves the root. */
  function Resolved(name: string): Option<string> {
    var pieces :- Walk(Parts(name), []);
    Some(Join(pieces))
  }

  lemma {:induction false} PartsJoin(name: string)
    ensures Join(Parts(name)) == name
    ensures forall i | 0 <= i < |Parts(name)| :: '/' !in Parts(name)[i]
  {
    if name != "" {
      PartsJoin(name[1..]);
      var rest := Parts(name[1..]);
      assert name == [name[0]] + name[1..];
      if name[0] == '/' {
        assert ([""] + rest)[1..] == rest;
      } else {
        assert ([[name[0]] + rest[0]] + rest[1..])[1..] == rest[1..];
      }
    }
  }

  lemma {:induction false} OnePart(piece: string)
    requires '/' !in piece
    ensures Parts(piece) == [piece]
  {
    if piece != "" {
      OnePart(piece[1..]);
      assert piece == [piece[0]] + piece[1..];
    }
  }

  lemma {:induction false} PartsAfterSlash(piece: string, rest: string)
    requires '/' !in piece
    ensures Parts(piece + "/" + rest) == [piece] + Parts(rest)
  {
    var all := piece + "/" + rest;
    if piece == "" {
      assert all[1..] == rest;
    } else {
      assert all[1..] == piece[1..] + "/" + rest;
      PartsAfterSlash(piece[1..], rest);
      assert piece == [piece[0]] + piece[1..];
    }
  }

  lemma {:induction false} PartsOfJoin(pieces: seq<string>)
    requires pieces != [] && forall i | 0 <= i < |pieces| :: '/' !in pieces[i]
    ensures Parts(Join(pieces)) == pieces
  {
    if |pieces| == 1 {
      OnePart(pieces[0]);
    } else {
      PartsOfJoin(pieces[1..]);
      PartsAfterSlash(pieces[0], Join(pieces[1..]));
      assert pieces == [pieces[0]] + pieces[1..];
    }
  }

  lemma {:induction false} OrdinaryWalk(pieces: seq<string>, at: seq<string>)
    requires forall i | 0 <= i < |pieces| :: Ordinary(pieces[i])
    ensures Walk(pieces, at) == Some(at + pieces)
    decreases |pieces|
  {
    if pieces == [] {
      assert at + pieces == at;
    } else {
      assert Ordinary(pieces[0]);
      OrdinaryWalk(pieces[1..], at + [pieces[0]]);
      assert at + [pieces[0]] + pieces[1..] == at + pieces;
    }
  }

  lemma {:induction false} WalkIsOrdinary(pieces: seq<string>, at: seq<string>)
    requires forall i | 0 <= i < |at| :: Ordinary(at[i])
    requires forall i | 0 <= i < |pieces| :: '/' !in pieces[i]
    requires Walk(pieces, at).Some?
    ensures forall i | 0 <= i < |Walk(pieces, at).value| :: Ordinary(Walk(pieces, at).value[i])
    decreases |pieces|
  {
    if pieces != [] {
      var p := pieces[0];
      WalkIsOrdinary(pieces[1..],
                     if p == "" || p == "." then at else if p == ".." then at[..|at| - 1] else at + [p]);
    }
  }

  /** The pieces of a path are ordinary exactly when the path is its own resolution. */
  lemma OrdinaryMeansResolved(name: string)
    requires name != ""
    ensures (forall i | 0 <= i < |Parts(name)| :: Ordinary(Parts(name)[i])) <==> Resolved(name) == Some(name)
  {
    hide Parts, Walk, Join, Ordinary;
    PartsJoin(name);
    if forall i | 0 <= i < |Parts(name)| :: Ordinary(Parts(name)[i]) {
      OrdinaryWalk(Parts(name), []);
      assert [] + Parts(name) == Parts(name);
    }
    if Resolved(name) == Some(name) {
      WalkIsOrdinary(Parts(name), []);
      var pieces := Walk(Parts(name), []).value;
      NothingJoined();
      OrdinaryHasNoSlash(pieces);
      PartsOfJoin(pieces);
    }
  }

  lemma NothingJoined()
    ensures Join([]) == ""
  {
  }

  lemma OrdinaryHasNoSlash(pieces: seq<string>)
    requires forall i | 0 <= i < |pieces| :: Ordinary(pieces[i])
    ensures forall i | 0 <= i < |pieces| :: '/' !in pieces[i]
  {
  }

  /** Characters no candidate path contains. */
  predicate Refused(c: char) {
    c == '\\' || c == ':' || c as int < 32 || c as int == 127
  }

  /** Main result: a name is safe exactly when it is not empty, contains no refused character, and
      resolving it stays below the root and gives the name back. */
  lemma SafeNameIsResolved(name: string)
    ensures SafeName(name) <==>
            && name != "" && (forall i | 0 <= i < |name| :: !Refused(name[i]))
            && Resolved(name) == Some(name)
  {
    hide Parts, Resolved;
    if name != "" {
      OrdinaryMeansResolved(name);
      PartsJoin(name);
      HeadPart(name);
    }
  }

  /** Every name an archive is extracted under is its own resolution below the extraction root. */
  lemma ExtractedNamesStayInside(members: seq<Member>, n: string, mode: int)
    requires Validated(members).Some? && n in Unpacked(Validated(members).value, mode)
    ensures n != "" && (forall i | 0 <= i < |n| :: !Refused(n[i])) && Resolved(n) == Some(n)
  {
    hide Refused, Resolved, SafeName, Ancestors;
    var paths := Validated(members).value;
    CollectSafe(map[], members);
    var m :| m in paths && (n == m || n in Ancestors(m));
    if n != m {
      AncestorsAre(n, m);
      SafeAbove(n, m);
    }
    SafeNameIsResolved(n);
  }

  lemma {:induction false} CollectSafe(paths: Paths, members: seq<Member>)
    requires Collect(paths, members).Some? && forall n | n in paths :: SafeName(n)
    ensures forall n | n in Collect(paths, members).value :: SafeName(n)
    decreases |members|
  {
    hide SafeName;
    if members != [] {
      CollectSafe(paths[NameOf(members[0]) := members[0]], members[1..]);
    }
  }

  lemma SafeAbove(a: string, name: string)
    requires SafeName(name) && Ancestor(a, name)
    ensures SafeName(a)
  {
    hide Parts, PlainChar;
    var rest := name[|a| + 1..];
    assert name == a + "/" + rest;
    assert forall i | 0 <= i < |a| :: a[i] == name[i];
    PartsPrefix(a, name);
    assert forall i | 0 <= i < |Parts(a)| :: Parts(a)[i] == Parts(name)[i];
  }

  /** And of a packed tree every listed entry was a directory or a singly linked file, with plain
      permission bits and a name that is its own resolution. */
  lemma PackedEntriesAre(disk: Disk)
    ensures ScanOk(disk) <==>
            forall n | n in Visible(disk) ::
              && n != "" && (forall i | 0 <= i < |n| :: !Refused(n[i])) && Resolved(n) == Some(n)
              && 0 <= disk[n].mode <= 511
              && (forall a | a in Ancestors(n) && a in disk :: disk[a].mode / 64 % 2 == 1)
              && !disk[n].SourceOther?
              && (disk[n].SourceFile? ==> disk[n].links == 1 && disk[n].mode / 256 % 2 == 1)
  {
    hide Refused, Resolved, SafeName, Ancestors, Shows;
    forall n | n in Visible(disk)
      ensures SafeName(n) <==>
              n != "" && (forall i | 0 <= i < |n| :: !Refused(n[i])) && Resolved(n) == Some(n)
    {
      SafeNameIsResolved(n);
    }
  }

  /** A session prefix is accepted exactly when it is the root, or an absolute path that resolves to
      itself, with no character a URL treats specially and outside the reserved namespace. */
  lemma ValidPrefixIsResolved(prefix: string)
    ensures ValidPrefix(prefix) <==>
            && prefix != "" && prefix[0] == '/'
            && (forall i | 0 <= i < |prefix| ::
                  prefix[i] !in "?#%\\" && prefix[i] as int >= 32 && prefix[i] as int != 127)
            && (prefix == "/" ||
                (&& prefix[1..] != "" && Resolved(prefix[1..]) == Some(prefix[1..])
                 && Segments(prefix)[0] != "_xferry"))
  {
    hide Parts, Resolved, IsReserved;
    if prefix != "" && prefix[0] == '/' && prefix != "/" {
      var path := prefix[1..];
      OrdinaryMeansResolved(path);
      PartsJoin(path);
      ReservedByFirstSegment(prefix);
      if prefix[|prefix| - 1] == '/' {
        assert path[|path| - 1] == '/';
        PartsOfSlash(path);
      }
    }
  }

  lemma ReservedByFirstSegment(path: string)
    requires path != "" && path[0] == '/'
    ensures IsReserved(path) <==> Segments(path)[0] == "_xferry"
  {
    hide Parts;
    OnePart("_xferry");
    PartsPrefix("_xferry", path[1..]);
    assert path == "/" + path[1..] && RESERVED[1..] == "_xferry";
    assert Parts("_xferry") <= Parts(path[1..]) <==> Parts(path[1..])[0] == "_xferry" by {
      assert Parts(path[1..])[..1] == [Parts(path[1..])[0]];
    }
    if |path| > 8 {
      assert path[..9] == path[..8] + [path[8]] && path[..8] == "/" + path[1..][..7];
    }
  }
}
