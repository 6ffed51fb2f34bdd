/** Packing a candidate tree and unpacking it again, and what archives of one content share. */
module CandidateRoundTrip {
  import opened Wrappers
  import opened ByteStrings
  import opened PathNames
  import opened CandidateArchive

  // ----- _scan and pack_candidate

  /** What lies on disk below a candidate root that can itself be listed. */
  datatype Source = SourceDir(mode: int) | SourceFile(mode: int, content: Bytes, links: nat) | SourceOther(mode: int)

  type Disk = map<string, Source>

  /** Every entry sits in a directory, and names are not empty. */
  predicate DiskOk(disk: Disk) {
    && "" !in disk
    && forall n, a | n in disk && a in Ancestors(n) :: a in disk && disk[a].SourceDir?
  }

  /** rglob lists a directory's entries only where the directory can be read; where it cannot,
      the directory passes for empty. */
  predicate Shows(disk: Disk, n: string) {
    n in disk && forall a | a in Ancestors(n) :: a in disk && disk[a].SourceDir? && OwnerReads(disk[a].mode)
  }

  function Visible(disk: Disk): set<string> {
    set n | n in disk && Shows(disk, n)
  }

  /** The checks of _scan on one listed entry, reading a file's content included. */
  predicate EntryOk(disk: Disk, n: string)
    requires n in disk
  {
    && SafeName(n)
    && (forall a | a in Ancestors(n) && a in disk :: OwnerSearches(disk[a].mode))
    && PlainMode(disk[n].mode)
    && match disk[n]
       case SourceDir(_) => true
       case SourceFile(mode, _, links) => links == 1 && OwnerReads(mode)
       case SourceOther(_) => false
  }

  /** _scan accepts the tree. */
  predicate ScanOk(disk: Disk) {
    forall n | n in Visible(disk) :: EntryOk(disk, n)
  }

  function NodeOf(s: Source): Node {
    match s
    case SourceDir(mode) => Dir(mode)
    case SourceFile(mode, content, _) => File(mode, content)
    case SourceOther(mode) => File(mode, [])
  }

  function Whole(disk: Disk): Tree {
    map n | n in disk :: NodeOf(disk[n])
  }

  function Shown(disk: Disk): Tree {
    map n | n in Visible(disk) :: NodeOf(disk[n])
  }

  function HeaderOf(n: string, s: Source): Member {
    match s
    case SourceFile(mode, content, _) => Member(n, RegularMember, mode, |content|, Some(content))
    case _ => Member(n, DirectoryMember, s.mode, 0, None)
  }

  function Names(members: seq<Member>): seq<string> {
    seq(|members|, i requires 0 <= i < |members| => members[i].name)
  }

  /** The one archive a tree packs to: its listed entries in sorted order. */
  ghost predicate IsPackOf(disk: Disk, members: seq<Member>) {
    && IsSorted(Names(members), Visible(disk))
    && forall i | 0 <= i < |members| ::
         members[i].name in disk && members[i] == HeaderOf(members[i].name, disk[members[i].name])
  }

  /** Where an archive is to go: outside the packed root or below it, and whether a new file can
      be created there. */
  datatype Destination = Destination(outside: bool, creatable: bool)

  /** pack_candidate: scan everything first, then emit the entries in sorted order.  `realRoot`
      says that the packed root is a directory and no symbolic link. */
  method PackCandidate(disk: Disk, realRoot: bool, destination: Destination) returns (r: Option<seq<Member>>)
    ensures r.Some? <==> destination.outside && realRoot && ScanOk(disk) && destination.creatable
    ensures r.Some? ==> IsPackOf(disk, r.value)
  {
    hide EntryOk, Less, Shows;
    if !destination.outside || !realRoot {
      return None;
    }
    var order := Sorted(Visible(disk));
    assert forall i | 0 <= i < |order| :: order[i] in Visible(disk);
    for i := 0 to |order|
      invariant forall k | 0 <= k < i :: EntryOk(disk, order[k])
    {
      if !EntryOk(disk, order[i]) {
        return None;
      }
    }
    if !destination.creatable {
      return None;
    }
    var members: seq<Member> := [];
    for i := 0 to |order|
      invariant |members| == i
      invariant forall k | 0 <= k < i :: members[k] == HeaderOf(order[k], disk[order[k]])
    {
      members := members + [HeaderOf(order[i], disk[order[i]])];
    }
    assert Names(members) == order;
    r := Some(members);
  }

  // ----- what validation collects

  lemma {:induction false} PartsOfSlash(name: string)
    requires name != "" && name[|name| - 1] == '/'
    ensures Parts(name)[|Parts(name)| - 1] == ""
  {
    hide Parts;
    PartsUnfold(name);
    if |name| > 1 {
      PartsOfSlash(name[1..]);
      PartsSplit(name[1..]);
    } else {
      assert name[1..] == "";
    }
  }

  /** Cutting one more character off the front leaves the last piece alone, unless it is in it. */
  lemma PartsUnfold(name: string)
    requires name != ""
    ensures Parts("") == [""]
    ensures name[0] == '/' || |Parts(name[1..])| > 1 ==>
              Parts(name)[|Parts(name)| - 1] == Parts(name[1..])[|Parts(name[1..])| - 1]
    ensures |Parts(name)| == |Parts(name[1..])| + (if name[0] == '/' then 1 else 0)
  {
    hide Parts;
    PartsStep(name);
    PartsStep("");
  }

  lemma PartsStep(name: string)
    ensures name == "" ==> Parts(name) == [""]
    ensures name != "" ==>
              var rest := Parts(name[1..]);
              Parts(name) == if name[0] == '/' then [""] + rest else [[name[0]] + rest[0]] + rest[1..]
  {
  }

  lemma {:induction false} PartsSplit(name: string)
    requires name != "" && name[|name| - 1] == '/'
    ensures |Parts(name)| > 1
  {
    hide Parts;
    PartsUnfold(name);
    if |name| > 1 {
      PartsSplit(name[1..]);
    }
  }

  lemma SafeNamesStay(name: string, directory: bool)
    requires SafeName(name)
    ensures SafePath(name, directory) == Some(name)
  {
    hide Parts;
    if name[|name| - 1] == '/' {
      PartsOfSlash(name);
    }
  }

  ghost predicate DistinctNames(members: seq<Member>) {
    forall i, j | 0 <= i < j < |members| :: NameOf(members[i]) != NameOf(members[j])
  }

  /** Members that are fine one by one and distinct by name all get collected, each under its name. */
  lemma {:induction false} CollectSucceeds(paths: Paths, members: seq<Member>)
    requires forall i | 0 <= i < |members| :: MemberOk(members[i]) && NameOf(members[i]) !in paths
    requires DistinctNames(members)
    ensures Collect(paths, members).Some?
    ensures var all := Collect(paths, members).value;
            && (forall n | n in paths :: n in all && all[n] == paths[n])
            && (forall i | 0 <= i < |members| :: NameOf(members[i]) in all && all[NameOf(members[i])] == members[i])
            && (forall n | n in all && n !in paths :: exists i | 0 <= i < |members| :: NameOf(members[i]) == n)
    decreases |members|
  {
    hide MemberOk, NameOf;
    if members != [] {
      var rest := members[1..];
      var more := paths[NameOf(members[0]) := members[0]];
      assert forall i | 0 <= i < |rest| :: rest[i] == members[i + 1];
      CollectSucceeds(more, rest);
      var all := Collect(paths, members).value;
      forall i | 0 <= i < |members| ensures NameOf(members[i]) in all && all[NameOf(members[i])] == members[i] {
        if i > 0 { assert rest[i - 1] == members[i]; }
      }
      forall n | n in all && n !in paths ensures exists i | 0 <= i < |members| :: NameOf(members[i]) == n {
        if n != NameOf(members[0]) {
          var i :| 0 <= i < |rest| && NameOf(rest[i]) == n;
          assert members[i + 1] == rest[i];
        }
      }
    }
  }

  lemma PackedMembers(disk: Disk, members: seq<Member>)
    requires DiskOk(disk) && ScanOk(disk) && IsPackOf(disk, members)
    ensures forall i | 0 <= i < |members| ::
              MemberOk(members[i]) && NameOf(members[i]) == members[i].name && members[i].name in Visible(disk)
    ensures DistinctNames(members)
    ensures forall n | n in Visible(disk) :: exists i | 0 <= i < |members| :: members[i].name == n
  {
    hide Ancestors, SafeName, Less, Shows;
    forall i | 0 <= i < |members|
      ensures MemberOk(members[i]) && NameOf(members[i]) == members[i].name && members[i].name in Visible(disk)
    {
      assert Names(members)[i] == members[i].name;
      assert members[i].name in Visible(disk);
      SafeNamesStay(members[i].name, members[i].kind == DirectoryMember);
    }
    forall i, j | 0 <= i < j < |members| ensures NameOf(members[i]) != NameOf(members[j]) {
      assert Less(Names(members)[i], Names(members)[j]);
      LessTotal(Names(members)[i], Names(members)[j]);
    }
    forall n | n in Visible(disk) ensures exists i | 0 <= i < |members| :: members[i].name == n {
      var i :| 0 <= i < |Names(members)| && Names(members)[i] == n;
      assert members[i].name == n;
    }
  }

  /** An entry is listed only if everything above it is. */
  lemma VisibleClosed(disk: Disk, n: string, a: string)
    requires n in Visible(disk) && a in Ancestors(n)
    ensures a in Visible(disk) && disk[a].SourceDir?
  {
    hide OwnerReads;
    forall b | b in Ancestors(a) ensures b in Ancestors(n) {
      AncestorsAre(b, a);
      AncestorsAre(a, n);
      AncestorsAre(b, n);
      AncestorTransitive(b, a, n);
    }
  }

  /** What validation collects from a packed tree: each listed entry under its own header. */
  lemma PackedPaths(disk: Disk, members: seq<Member>)
    requires DiskOk(disk) && ScanOk(disk) && IsPackOf(disk, members)
    ensures Collect(map[], members) == Some(map n | n in Visible(disk) :: HeaderOf(n, disk[n]))
  {
    hide Ancestors, MemberOk, NameOf, Shows, EntryOk, Names, Less, HeaderOf;
    PackedMembers(disk, members);
    CollectSucceeds(map[], members);
    var paths := Collect(map[], members).value;
    forall n ensures n in paths <==> n in Visible(disk) {
      if n in Visible(disk) {
        var i :| 0 <= i < |members| && members[i].name == n;
        assert NameOf(members[i]) == n;
      }
    }
    forall n | n in paths ensures paths[n] == HeaderOf(n, disk[n]) {
      var i :| 0 <= i < |members| && NameOf(members[i]) == n;
    }
    assert paths == map n | n in Visible(disk) :: HeaderOf(n, disk[n]);
  }

  lemma VisibleIsCovered(disk: Disk)
    requires DiskOk(disk)
    ensures Covered(Visible(disk)) == Visible(disk)
  {
    hide Ancestors, Visible;
    forall n, a | n in Visible(disk) && a in Ancestors(n) ensures a in Visible(disk) {
      VisibleClosed(disk, n, a);
    }
  }

  /** Main result: a packed tree validates, and unpacking it restores every listed entry with its
      name, kind, permission bits and content, and nothing else. */
  lemma UnpackRestoresListed(disk: Disk, members: seq<Member>, dirMode: int)
    requires DiskOk(disk) && ScanOk(disk) && IsPackOf(disk, members)
    ensures Validated(members).Some? && SizesMatch(Validated(members).value)
    ensures Unpacked(Validated(members).value, dirMode) == Shown(disk)
  {
    hide Ancestors, Visible, IsPackOf, Covered, Collect, DiskOk;
    PackedPaths(disk, members);
    var paths := Collect(map[], members).value;
    VisibleIsCovered(disk);
    assert paths.Keys == Visible(disk);
    forall n, a | n in paths && a in Ancestors(n) && a in paths ensures paths[a].kind == DirectoryMember {
      VisibleClosed(disk, n, a);
    }
    forall n | n in Visible(disk) ensures n in disk && Extracted(paths[n]) == NodeOf(disk[n]) {
      VisibleListed(disk, n);
      ListedKinds(disk, n);
    }
  }

  lemma VisibleListed(disk: Disk, n: string)
    requires n in Visible(disk)
    ensures n in disk
  {
  }

  lemma ListedKinds(disk: Disk, n: string)
    requires n in disk && EntryOk(disk, n)
    ensures !disk[n].SourceOther?
  {
  }

  /** Main result: of the trees the scan accepts, the round trip restores exactly those in which
      every directory that holds something can be listed by its owner. */
  lemma RoundTripExactly(disk: Disk, members: seq<Member>, dirMode: int)
    requires DiskOk(disk) && ScanOk(disk) && IsPackOf(disk, members)
    ensures Validated(members).Some? && SizesMatch(Validated(members).value)
    ensures Unpacked(Validated(members).value, dirMode) == Whole(disk) <==>
            forall n, a | n in disk && a in Ancestors(n) :: OwnerReads(disk[a].mode)
  {
    hide Ancestors, OwnerReads, EntryOk, Validated;
    UnpackRestoresListed(disk, members, dirMode);
    if forall n, a | n in disk && a in Ancestors(n) :: OwnerReads(disk[a].mode) {
      assert Visible(disk) == disk.Keys;
    }
    if Shown(disk) == Whole(disk) {
      assert Shown(disk).Keys == Whole(disk).Keys;
      forall n, a | n in disk && a in Ancestors(n) ensures OwnerReads(disk[a].mode) {
        assert n in Whole(disk).Keys;
        assert n in Visible(disk);
      }
    }
  }

  /** A tree that is accepted and not restored: a directory its owner can use but not list is
      packed as if it were empty, and its file is lost without an error. */
  lemma UnlistableDirectoryLosesContent(content: Bytes, members: seq<Member>, dirMode: int)
    requires IsPackOf(map["a" := SourceDir(0xC0), "a/b" := SourceFile(0x180, content, 1)], members)
    ensures var disk := map["a" := SourceDir(0xC0), "a/b" := SourceFile(0x180, content, 1)];
            && DiskOk(disk) && ScanOk(disk)
            && Validated(members).Some?
            && Unpacked(Validated(members).value, dirMode) == map["a" := Dir(0xC0)]
  {
    var disk := map["a" := SourceDir(0xC0), "a/b" := SourceFile(0x180, content, 1)];
    assert Ancestors("a") == {};
    assert Ancestors("a/b") == {"a"} by {
      assert "a/b"[..1] == "a";
    }
    assert Visible(disk) == {"a"};
    assert "a"[1..] == "" && Parts("") == [""] && ['a'] + "" == "a";
    assert Parts("a") == ["a"];
    assert SafeName("a");
    hide Validated;
    UnpackRestoresListed(disk, members, dirMode);
  }

  // ----- archive member order

  lemma CollectSwap(paths: Paths, a: Member, b: Member, rest: seq<Member>)
    ensures Collect(paths, [a, b] + rest) == Collect(paths, [b, a] + rest)
  {
    hide MemberOk, NameOf;
    var ab, ba := [a, b] + rest, [b, a] + rest;
    assert ab[1..] == [b] + rest && ba[1..] == [a] + rest;
    assert ([b] + rest)[1..] == rest && ([a] + rest)[1..] == rest;
    if NameOf(a) != NameOf(b) {
      assert paths[NameOf(a) := a][NameOf(b) := b] == paths[NameOf(b) := b][NameOf(a) := a];
    }
  }

  lemma {:induction false} CollectToFront(paths: Paths, members: seq<Member>, i: nat)
    requires i < |members|
    ensures Collect(paths, members) == Collect(paths, [members[i]] + members[..i] + members[i + 1..])
    decreases i, 0
  {
    hide Collect;
    if i == 0 {
      assert [members[0]] + members[..0] + members[1..] == members;
    } else {
      var x, y, rest := members[0], members[i], members[1..];
      var pulled := [y] + rest[..i - 1] + rest[i..];
      assert members == [x] + rest;
      CollectTail(paths, x, rest, pulled, i - 1);
      CollectSwap(paths, x, y, rest[..i - 1] + rest[i..]);
      assert [x] + pulled == [x, y] + (rest[..i - 1] + rest[i..]);
      assert [y] + members[..i] + members[i + 1..] == [y, x] + (rest[..i - 1] + rest[i..]);
    }
  }

  lemma {:induction false} CollectTail(paths: Paths, x: Member, rest: seq<Member>, pulled: seq<Member>, i: nat)
    requires i < |rest| && pulled == [rest[i]] + rest[..i] + rest[i + 1..]
    ensures Collect(paths, [x] + rest) == Collect(paths, [x] + pulled)
    decreases i, 1
  {
    hide MemberOk, NameOf;
    assert ([x] + rest)[1..] == rest && ([x] + pulled)[1..] == pulled;
    if MemberOk(x) && NameOf(x) !in paths {
      CollectToFront(paths[NameOf(x) := x], rest, i);
    }
  }

  lemma WithoutOne(members: seq<Member>, i: nat)
    requires i < |members|
    ensures multiset(members[..i] + members[i + 1..]) == multiset(members) - multiset{members[i]}
  {
    assert members == members[..i] + [members[i]] + members[i + 1..];
  }

  /** Where the first member went, and that taking it out of both lists leaves them permuted. */
  lemma Position(members: seq<Member>, shuffled: seq<Member>) returns (i: nat)
    requires members != [] && multiset(members) == multiset(shuffled)
    ensures i < |shuffled| && shuffled[i] == members[0]
    ensures multiset(members[1..]) == multiset(shuffled[..i] + shuffled[i + 1..])
  {
    assert members[0] in multiset(shuffled);
    i :| 0 <= i < |shuffled| && shuffled[i] == members[0];
    WithoutHead(members);
    WithoutOne(shuffled, i);
  }

  lemma WithoutHead(members: seq<Member>)
    requires members != []
    ensures multiset(members[1..]) == multiset(members) - multiset{members[0]}
  {
    assert members == [members[0]] + members[1..];
  }

  lemma CollectCons(paths: Paths, x: Member, rest: seq<Member>)
    ensures Collect(paths, [x] + rest) ==
            if !MemberOk(x) || NameOf(x) in paths then None else Collect(paths[NameOf(x) := x], rest)
  {
    hide MemberOk, NameOf;
    assert ([x] + rest)[1..] == rest;
  }

  lemma {:induction false} CollectPermuted(paths: Paths, members: seq<Member>, shuffled: seq<Member>)
    requires multiset(members) == multiset(shuffled)
    ensures Collect(paths, members) == Collect(paths, shuffled)
    decreases |members|
  {
    hide MemberOk, NameOf, Collect;
    if members == [] {
      assert |multiset(shuffled)| == |shuffled|;
    } else {
      var x, rest := members[0], members[1..];
      assert members == [x] + rest;
      var i := Position(members, shuffled);
      var others := shuffled[..i] + shuffled[i + 1..];
      CollectToFront(paths, shuffled, i);
      assert [x] + shuffled[..i] + shuffled[i + 1..] == [x] + others;
      CollectCons(paths, x, rest);
      CollectCons(paths, x, others);
      CollectPermuted(paths[NameOf(x) := x], rest, others);
    }
  }

  /** The order of an archive's members decides nothing: neither acceptance nor the tree. */
  lemma MemberOrderIsIrrelevant(members: seq<Member>, shuffled: seq<Member>)
    requires multiset(members) == multiset(shuffled)
    ensures Validated(members) == Validated(shuffled)
  {
    CollectPermuted(map[], members, shuffled);
  }

  /** A validated list never uses one path both as a file and as a directory above another. */
  lemma NoFileIsADirectory(members: seq<Member>, i: nat, j: nat)
    requires Validated(members).Some? && i < |members| && j < |members|
    requires Ancestor(NameOf(members[i]), NameOf(members[j]))
    ensures members[i].kind == DirectoryMember
  {
    hide MemberOk, NameOf, Ancestors;
    CollectKeeps(map[], members, i);
    CollectKeeps(map[], members, j);
    AncestorsAre(NameOf(members[i]), NameOf(members[j]));
  }

  lemma {:induction false} CollectKeeps(paths: Paths, members: seq<Member>, i: nat)
    requires Collect(paths, members).Some?
    ensures forall n | n in paths :: n in Collect(paths, members).value && Collect(paths, members).value[n] == paths[n]
    ensures i < |members| ==> NameOf(members[i]) in Collect(paths, members).value
                              && Collect(paths, members).value[NameOf(members[i])] == members[i]
    decreases |members|
  {
    hide MemberOk, NameOf;
    if members != [] {
      CollectKeeps(paths[NameOf(members[0]) := members[0]], members[1..], if i == 0 then 0 else i - 1);
    }
  }
}
