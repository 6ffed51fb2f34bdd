/** Which archives tools/candidate_inventory.py extracts and what it makes of them, member by member,
    in the fields of the tar headers. */
module ArchiveContents {
  import opened Wrappers
  import opened ByteStrings
  import opened PathNames
  import opened CandidateArchive
  import opened CandidateRoundTrip
  import opened PathResolution

  /** The path a member stands for: a directory's name may end in one slash. */
  function Bare(m: Member): string {
    if m.kind == DirectoryMember && m.name != "" && m.name[|m.name| - 1] == '/' then m.name[..|m.name| - 1]
    else m.name
  }

  /** A member whose header is acceptable by itself. */
  predicate Acceptable(m: Member) {
    && Bare(m) != "" && (forall i | 0 <= i < |Bare(m)| :: !Refused(Bare(m)[i]))
    && Resolved(Bare(m)) == Some(Bare(m))
    && 0 <= m.mode <= 511
    && ((m.kind == RegularMember && m.size >= 0) || (m.kind == DirectoryMember && m.size == 0))
  }

  predicate Lies(below: string, above: string) {
    above + "/" <= below
  }

  lemma BareIs(m: Member)
    ensures MemberOk(m) <==> Acceptable(m)
    ensures MemberOk(m) ==> NameOf(m) == Bare(m)
  {
    SafeNameIsResolved(Bare(m));
    hide SafeName, Resolved, Refused;
  }

  lemma LiesIs(below: string, above: string)
    requires above != ""
    ensures Lies(below, above) <==> above in Ancestors(below)
  {
    AncestorsAre(above, below);
    if Ancestor(above, below) {
      assert below[..|above| + 1] == below[..|above|] + [below[|above|]];
    }
    if Lies(below, above) {
      assert (above + "/")[..|above|] == above;
      assert below[..|above| + 1] == above + "/";
      assert below[..|above|] == below[..|above| + 1][..|above|];
    }
  }

  /** Collection takes exactly lists of acceptable members with new and distinct paths, and keeps
      each under its path. */
  lemma {:induction false} CollectsExactly(paths: Paths, members: seq<Member>)
    ensures Collect(paths, members).Some? <==>
            && (forall i | 0 <= i < |members| :: Acceptable(members[i]) && Bare(members[i]) !in paths)
            && forall i, j | 0 <= i < j < |members| :: Bare(members[i]) != Bare(members[j])
    ensures Collect(paths, members).Some? ==>
              var all := Collect(paths, members).value;
              && (forall n | n in paths :: n in all && all[n] == paths[n])
              && (forall i | 0 <= i < |members| :: Bare(members[i]) in all && all[Bare(members[i])] == members[i])
              && (forall n | n in all :: n in paths || exists i | 0 <= i < |members| :: n == Bare(members[i]))
    decreases |members|
  {
    hide MemberOk, NameOf, Acceptable, Bare;
    if members != [] {
      var first, rest := members[0], members[1..];
      assert forall i | 0 <= i < |rest| :: rest[i] == members[i + 1];
      assert forall i | 1 <= i < |members| :: members[i] == rest[i - 1];
      BareIs(first);
      if MemberOk(first) && NameOf(first) !in paths {
        CollectsExactly(paths[NameOf(first) := first], rest);
      }
    }
  }

  /** Main result: a list of members is extracted exactly when every header is acceptable, no path
      occurs twice, and nothing lies below a file. */
  lemma ValidatesExactly(members: seq<Member>)
    ensures Validated(members).Some? <==>
            && (forall i | 0 <= i < |members| :: Acceptable(members[i]))
            && (forall i, j | 0 <= i < j < |members| :: Bare(members[i]) != Bare(members[j]))
            && forall i, j | 0 <= i < |members| && 0 <= j < |members| && members[i].kind == RegularMember ::
                 !Lies(Bare(members[j]), Bare(members[i]))
  {
    hide Acceptable, Bare, Ancestors, Lies;
    CollectsExactly(map[], members);
    if Collect(map[], members).Some? {
      var paths := Collect(map[], members).value;
      forall i, j | 0 <= i < |members| && 0 <= j < |members|
        ensures Lies(Bare(members[j]), Bare(members[i])) <==> Bare(members[i]) in Ancestors(Bare(members[j]))
        ensures members[i].kind == RegularMember || members[i].kind == DirectoryMember
      {
        AcceptableIs(members[i]);
        LiesIs(Bare(members[j]), Bare(members[i]));
      }
      if NoFileAbove(paths) {
        forall i, j | 0 <= i < |members| && 0 <= j < |members| && members[i].kind == RegularMember
          ensures !Lies(Bare(members[j]), Bare(members[i]))
        {
          assert paths[Bare(members[i])] == members[i] && Bare(members[j]) in paths;
        }
      }
    }
  }

  lemma AcceptableIs(m: Member)
    requires Acceptable(m)
    ensures Bare(m) != "" && (m.kind == RegularMember || m.kind == DirectoryMember)
  {
    hide Resolved, Refused, Bare;
  }

  /** Main result: the extracted tree has exactly the members' paths and the directories above them;
      each member is there with its kind, mode and data, and every other directory has the default
      mode. */
  lemma UnpackedExactly(members: seq<Member>, dirMode: int)
    requires Validated(members).Some?
    ensures var tree := Unpacked(Validated(members).value, dirMode);
            && (forall n :: n in tree <==>
                            exists i | 0 <= i < |members| :: n == Bare(members[i]) || Above(n, members[i]))
            && (forall i | 0 <= i < |members| ::
                  tree[Bare(members[i])] ==
                  if members[i].kind == DirectoryMember then Dir(members[i].mode)
                  else File(members[i].mode, if members[i].data.Some? then members[i].data.value else []))
            && forall n | n in tree ::
                 (exists i | 0 <= i < |members| :: n == Bare(members[i])) || tree[n] == Dir(dirMode)
  {
    hide Acceptable, Bare, Ancestors, Lies, NoFileAbove;
    CollectsExactly(map[], members);
    var paths := Validated(members).value;
    forall n, i | 0 <= i < |members| ensures Above(n, members[i]) <==> n in Ancestors(Bare(members[i])) {
      if n != "" {
        LiesIs(Bare(members[i]), n);
      } else {
        NothingAboveAll(Bare(members[i]));
      }
    }
  }

  predicate Above(n: string, m: Member) {
    n != "" && Lies(Bare(m), n)
  }

  lemma NothingAboveAll(name: string)
    ensures "" !in Ancestors(name)
  {
  }
}
