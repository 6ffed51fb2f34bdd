/** tools/candidate_inventory.py's _scan, pack_candidate and unpack_candidate over a file system
    with permissions: a tree becomes a member list, which is validated, extracted and chmodded. */
module CandidateArchive {
  import opened Wrappers
  import opened ByteStrings
  import opened PathNames
  import OciLayout

  // ----- file systems

  datatype Node = Dir(mode: int) | File(mode: int, content: Bytes)

  /** Everything below one root directory, by relative path. */
  type Tree = map<string, Node>

  predicate OwnerReads(mode: int) {
    mode / 0x100 % 2 == 1
  }

  predicate OwnerWrites(mode: int) {
    mode / 0x80 % 2 == 1
  }

  predicate OwnerSearches(mode: int) {
    mode / 0x40 % 2 == 1
  }

  predicate PlainMode(mode: int) {
    0 <= mode <= 0x1FF
  }

  /** A directory mode under which its owner can create and reach entries. */
  predicate Usable(mode: int) {
    OwnerWrites(mode) && OwnerSearches(mode)
  }

  /** Every directory above the path exists and can be searched. */
  predicate Reaches(t: Tree, name: string) {
    forall a | a in Ancestors(name) :: a in t && t[a].Dir? && OwnerSearches(t[a].mode)
  }

  /** The directory the path is in can be written; the extraction root always can. */
  predicate ParentWritable(t: Tree, name: string) {
    var p := Parent(name);
    p == "" || (p in t && t[p].Dir? && OwnerWrites(t[p].mode))
  }

  /** Path.mkdir(parents=True, exist_ok=True); new directories get the default mode. */
  function EnsureDir(t: Tree, name: string, mode: int): Option<Tree>
    decreases |name|
  {
    if name == "" then Some(t) else
    var t1 :- EnsureDir(t, Parent(name), mode);
    if !Reaches(t1, name) then None
    else if name in t1 then (if t1[name].Dir? then Some(t1) else None)
    else if ParentWritable(t1, name) then Some(t1[name := Dir(mode)])
    else None
  }

  /** Exclusive creation of a file with its content. */
  function CreateFile(t: Tree, name: string, content: Bytes, mode: int): Option<Tree> {
    if Reaches(t, name) && name !in t && ParentWritable(t, name) then Some(t[name := File(mode, content)]) else None
  }

  function Chmod(t: Tree, name: string, mode: int): Option<Tree> {
    if Reaches(t, name) && name in t then Some(t[name := t[name].(mode := mode)]) else None
  }

  // ----- archives

  datatype MemberKind = RegularMember | DirectoryMember | OtherMember

  /** One tar header with what its data reads as; `data` is None where reading raises. */
  datatype Member = Member(name: string, kind: MemberKind, mode: int, size: int, data: Option<Bytes>)

  predicate MemberOk(m: Member) {
    && SafePath(m.name, m.kind == DirectoryMember).Some?
    && PlainMode(m.mode) && m.size >= 0
    && m.kind != OtherMember
    && (m.kind == DirectoryMember ==> m.size == 0)
  }

  function NameOf(m: Member): string {
    var safe := SafePath(m.name, m.kind == DirectoryMember);
    if safe.Some? then safe.value else ""
  }

  type Paths = map<string, Member>

  /** The first loop of unpack_candidate, from a dictionary of accepted members. */
  function Collect(paths: Paths, members: seq<Member>): Option<Paths>
    decreases |members|
  {
    if members == [] then Some(paths)
    else if !MemberOk(members[0]) || NameOf(members[0]) in paths then None
    else Collect(paths[NameOf(members[0]) := members[0]], members[1..])
  }

  /** No regular member is above another entry. */
  predicate NoFileAbove(paths: Paths) {
    forall n, a | n in paths && a in Ancestors(n) :: a in paths ==> paths[a].kind == DirectoryMember
  }

  /** The members unpack_candidate goes on to extract. */
  function Validated(members: seq<Member>): Option<Paths> {
    var paths :- Collect(map[], members);
    if NoFileAbove(paths) then Some(paths) else None
  }

  /** Regular members that read as many bytes as their header promises. */
  predicate SizesMatch(paths: Paths) {
    forall n | n in paths && paths[n].kind == RegularMember ::
      paths[n].data.Some? && |paths[n].data.value| == paths[n].size
  }

  /** The named entries and every directory above one of them. */
  function Covered(names: set<string>): set<string> {
    names + set n, a | n in names && a in Ancestors(n) :: a
  }

  function Extracted(m: Member): Node {
    if m.kind == DirectoryMember then Dir(m.mode) else File(m.mode, if m.data.Some? then m.data.value else [])
  }

  /** The tree the members describe; directories only implied by a path have the default mode. */
  function Unpacked(paths: Paths, mode: int): Tree {
    map n | n in Covered(paths.Keys) :: if n in paths then Extracted(paths[n]) else Dir(mode)
  }

  /** The tree while extraction is under way: `made` is created, and of the directories among it
      only `restored` have their final mode. */
  function Partial(paths: Paths, made: set<string>, restored: set<string>, mode: int): Tree {
    map n | n in Covered(made) ::
      if n in paths && (paths[n].kind != DirectoryMember || n in restored) then Extracted(paths[n]) else Dir(mode)
  }

  // ----- extraction steps

  lemma CoveredClosed(names: set<string>, n: string, a: string)
    requires n in Covered(names) && a in Ancestors(n)
    ensures a in Covered(names)
  {
    if n !in names {
      var m :| m in names && n in Ancestors(m);
      AncestorsAre(a, n);
      AncestorsAre(n, m);
      AncestorTransitive(a, n, m);
      AncestorsAre(a, m);
    }
  }

  lemma CoveredGrows(names: set<string>, n: string)
    ensures Covered(names + {n}) == Covered(names) + {n} + Ancestors(n)
  {
  }

  lemma AncestorsUnfold(name: string)
    ensures Ancestors(name) == if Parent(name) == "" then {} else Ancestors(Parent(name)) + {Parent(name)}
  {
    var p := Parent(name);
    forall a ensures a in Ancestors(name) <==> p != "" && a in Ancestors(p) + {p} {
      AncestorsAre(a, name);
      AncestorsAre(a, p);
      if Ancestor(a, name) {
        AncestorsOfParent(name, a);
      }
      if p != "" && Ancestor(a, p) {
        AncestorTransitive(a, p, name);
      }
    }
  }

  /** With nothing but usable directories above it, a directory and all its parents get made. */
  lemma {:induction false} EnsureDirMakes(t: Tree, name: string, mode: int)
    requires Usable(mode)
    requires forall a | a in Ancestors(name) + {name} && a != "" && a in t :: t[a].Dir? && Usable(t[a].mode)
    ensures EnsureDir(t, name, mode).Some?
    ensures var t' := EnsureDir(t, name, mode).value;
            && t'.Keys == t.Keys + (if name == "" then {} else Ancestors(name) + {name})
            && forall n | n in t' :: t'[n] == if n in t then t[n] else Dir(mode)
    decreases |name|
  {
    hide Ancestors, Usable;
    if name != "" {
      AncestorsUnfold(name);
      NoEmptyAncestor(name);
      NothingAboveTheRoot();
      EnsureDirMakes(t, Parent(name), mode);
      assert Usable(mode) ==> OwnerWrites(mode) && OwnerSearches(mode) by { UsableMeans(mode); }
      forall a | a in t && Usable(t[a].mode) ensures OwnerWrites(t[a].mode) && OwnerSearches(t[a].mode) {
        UsableMeans(t[a].mode);
      }
    }
  }

  lemma UsableMeans(mode: int)
    ensures Usable(mode) <==> OwnerWrites(mode) && OwnerSearches(mode)
  {
  }

  lemma NoEmptyAncestor(name: string)
    ensures "" !in Ancestors(name)
  {
    AncestorsAre("", name);
  }

  lemma NothingAboveTheRoot()
    ensures Ancestors("") == {}
  {
  }

  lemma NotAboveItself(name: string)
    ensures name !in Ancestors(name)
  {
    AncestorsAre(name, name);
  }

  ghost predicate Extracting(paths: Paths, made: set<string>, mode: int) {
    && NoFileAbove(paths) && "" !in paths && Usable(mode) && made <= paths.Keys
  }

  /** Adding one entry to a partly made tree, given what is made above it. */
  lemma PartialGrows(paths: Paths, made: set<string>, n: string, mode: int, t: Tree)
    requires NoFileAbove(paths) && n in paths
    requires t.Keys == Covered(made) + Ancestors(n) + {n}
    requires forall x | x in t && x != n ::
               t[x] == if x in Covered(made) then Partial(paths, made, {}, mode)[x] else Dir(mode)
    requires t[n] == if paths[n].kind == DirectoryMember then Dir(mode) else Extracted(paths[n])
    ensures t == Partial(paths, made + {n}, {}, mode)
  {
    hide Ancestors, Covered, Extracted;
    CoveredGrows(made, n);
    assert forall a | a in Ancestors(n) && a in paths :: paths[a].kind == DirectoryMember;
  }

  lemma MakeDirectory(paths: Paths, made: set<string>, n: string, mode: int)
    requires Extracting(paths, made, mode) && n in paths && paths[n].kind == DirectoryMember
    ensures EnsureDir(Partial(paths, made, {}, mode), n, mode) == Some(Partial(paths, made + {n}, {}, mode))
  {
    hide Ancestors, Usable, EnsureDir, Covered;
    EnsureDirMakes(Partial(paths, made, {}, mode), n, mode);
    PartialGrows(paths, made, n, mode, EnsureDir(Partial(paths, made, {}, mode), n, mode).value);
  }

  /** A regular member is not above anything, so nothing has been made in its place. */
  lemma FileIsNew(paths: Paths, made: set<string>, n: string)
    requires NoFileAbove(paths) && made <= paths.Keys
    requires n in paths && paths[n].kind == RegularMember && n !in made
    ensures n !in Covered(made)
  {
    hide Ancestors;
  }

  lemma MakeFile(paths: Paths, made: set<string>, n: string, mode: int, fileMode: int)
    requires Extracting(paths, made, mode) && n in paths && paths[n].kind == RegularMember && n !in made
    requires paths[n].data.Some?
    ensures var t := Partial(paths, made, {}, mode);
            var t1 := EnsureDir(t, Parent(n), mode);
            && t1.Some?
            && var t2 := CreateFile(t1.value, n, paths[n].data.value, fileMode);
               && t2.Some?
               && Chmod(t2.value, n, paths[n].mode) == Some(Partial(paths, made + {n}, {}, mode))
  {
    hide Ancestors, Usable, EnsureDir, Covered;
    var t := Partial(paths, made, {}, mode);
    AncestorsUnfold(n);
    NotAboveItself(n);
    NothingAboveTheRoot();
    FileIsNew(paths, made, n);
    EnsureDirMakes(t, Parent(n), mode);
    UsableMeans(mode);
    var t1 := EnsureDir(t, Parent(n), mode).value;
    assert t1.Keys == Covered(made) + Ancestors(n);
    assert forall a | a in Ancestors(n) :: t1[a] == Dir(mode);
    var t2 := t1[n := File(fileMode, paths[n].data.value)];
    assert CreateFile(t1, n, paths[n].data.value, fileMode) == Some(t2);
    var t3 := t2[n := File(paths[n].mode, paths[n].data.value)];
    assert Chmod(t2, n, paths[n].mode) == Some(t3);
    PartialGrows(paths, made, n, mode, t3);
  }

  /** Restoring a directory's mode is always possible while everything above it still has the
      usable default, whatever has been restored elsewhere. */
  lemma RestoreMode(paths: Paths, restored: set<string>, n: string, mode: int)
    requires Extracting(paths, paths.Keys, mode) && n in paths && paths[n].kind == DirectoryMember && n !in restored
    requires forall a | a in Ancestors(n) :: a !in restored
    ensures Chmod(Partial(paths, paths.Keys, restored, mode), n, paths[n].mode) ==
            Some(Partial(paths, paths.Keys, restored + {n}, mode))
  {
    hide Ancestors, Usable, Covered;
    UsableMeans(mode);
    var t, t' := Partial(paths, paths.Keys, restored, mode), Partial(paths, paths.Keys, restored + {n}, mode);
    assert n in Covered(paths.Keys) by { KeysAreCovered(paths.Keys, n); }
    forall a | a in Ancestors(n) ensures a in t && t[a] == Dir(mode) {
      CoveredClosed(paths.Keys, n, a);
    }
    assert t[n] == Dir(mode) && t[n := Dir(paths[n].mode)] == t';
  }

  lemma KeysAreCovered(names: set<string>, n: string)
    requires n in names
    ensures n in Covered(names)
  {
  }

  // ----- unpack_candidate

  lemma {:induction false} CollectNames(paths: Paths, members: seq<Member>)
    requires Collect(paths, members).Some? && "" !in paths
    ensures "" !in Collect(paths, members).value
    decreases |members|
  {
    if members != [] {
      CollectNames(paths[NameOf(members[0]) := members[0]], members[1..]);
    }
  }

  method ValidateMembers(members: seq<Member>) returns (r: Option<Paths>)
    ensures r == Validated(members)
  {
    hide MemberOk, NameOf, Ancestors;
    var paths: Paths := map[];
    assert members[0..] == members;
    for i := 0 to |members|
      invariant Collect(map[], members) == Collect(paths, members[i..])
    {
      assert members[i..][0] == members[i] && members[i..][1..] == members[i + 1..];
      if !MemberOk(members[i]) || NameOf(members[i]) in paths {
        return None;
      }
      paths := paths[NameOf(members[i]) := members[i]];
    }
    var todo := paths.Keys;
    while todo != {}
      invariant todo <= paths.Keys
      invariant forall n, a | n in paths && n !in todo && a in Ancestors(n) ::
                  a in paths ==> paths[a].kind == DirectoryMember
      decreases |todo|
    {
      var n :| n in todo;
      if exists a | a in Ancestors(n) :: a in paths && paths[a].kind != DirectoryMember {
        return None;
      }
      todo := todo - {n};
    }
    r := Some(paths);
  }

  /** The extraction loop: parents first, every directory at the usable default mode. */
  method Extract(paths: Paths, order: seq<string>, dirMode: int, fileMode: int) returns (r: Option<Tree>)
    requires Extracting(paths, paths.Keys, dirMode) && IsSorted(order, paths.Keys)
    requires forall n | n in paths :: paths[n].kind != OtherMember
    ensures r == if SizesMatch(paths) then Some(Partial(paths, paths.Keys, {}, dirMode)) else None
  {
    hide Collect, NoFileAbove, EnsureDir, CreateFile, Chmod, Covered, Usable, Less, Ancestors;
    Bounds(paths, order, dirMode);
    hide Prefix, Suffix, Partial;
    var t: Tree := map[];
    for i := 0 to |order|
      invariant Prefix(order, i) <= paths.Keys
      invariant t == Partial(paths, Prefix(order, i), {}, dirMode)
      invariant forall k | 0 <= k < i && paths[order[k]].kind == RegularMember ::
                  paths[order[k]].data.Some? && |paths[order[k]].data.value| == paths[order[k]].size
    {
      var name := order[i];
      var member := paths[name];
      PrefixGrows(order, i);
      if member.kind == DirectoryMember {
        MakeDirectory(paths, Prefix(order, i), name, dirMode);
        t := EnsureDir(t, name, dirMode).value;
      } else {
        if member.data.None? {
          return None;
        }
        MakeFile(paths, Prefix(order, i), name, dirMode, fileMode);
        t := EnsureDir(t, Parent(name), dirMode).value;
        t := CreateFile(t, name, member.data.value, fileMode).value;
        if |member.data.value| != member.size {
          return None;
        }
        t := Chmod(t, name, member.mode).value;
      }
    }
    r := Some(t);
  }

  /** The chmod loop: children before the directories above them. */
  method RestoreModes(paths: Paths, order: seq<string>, made: Tree, dirMode: int) returns (t: Tree)
    requires Extracting(paths, paths.Keys, dirMode) && IsSorted(order, paths.Keys)
    requires made == Partial(paths, paths.Keys, {}, dirMode)
    ensures t == Unpacked(paths, dirMode)
  {
    hide NoFileAbove, Chmod, Covered, Usable, Less, Ancestors;
    Bounds(paths, order, dirMode);
    hide Prefix, Suffix, Partial, Unpacked;
    t := made;
    for j := |order| downto 0
      invariant t == Partial(paths, paths.Keys, Suffix(paths, order, j), dirMode)
    {
      var name := order[j];
      SuffixGrows(paths, order, j);
      if paths[name].kind == DirectoryMember {
        RestoreMode(paths, Suffix(paths, order, j + 1), name, dirMode);
        t := Chmod(t, name, paths[name].mode).value;
      }
    }
  }

  /** An archive on disk: whether it is a regular file, its digest, and its members, or None
      where it cannot be opened as a tar file. */
  datatype Archive = Archive(regular: bool, sha256: string, members: Option<seq<Member>>)

  /** The extraction root: absent, an empty real directory, or anything else. */
  datatype Root = Missing | EmptyDirectory | Occupied

  /** The archive is the one the producer digest names. */
  predicate Authentic(archive: Archive, expected: string) {
    archive.regular && OciLayout.IsSha(expected) && archive.sha256 == expected && archive.members.Some?
  }

  /** Main result: extraction succeeds on exactly the authentic archives whose members validate and
      whose files carry the promised number of bytes, whatever permissions they ask for, when the
      root is free before and after; it then puts exactly the tree the members describe there. */
  method UnpackCandidate(archive: Archive, expected: string, before: Root, after: Root, dirMode: int, fileMode: int)
    returns (r: Option<Tree>)
    requires Usable(dirMode)
    ensures r.Some? <==>
            && Authentic(archive, expected) && before != Occupied && after != Occupied
            && Validated(archive.members.value).Some? && SizesMatch(Validated(archive.members.value).value)
    ensures r.Some? ==> r.value == Unpacked(Validated(archive.members.value).value, dirMode)
  {
    hide Collect, Covered, Usable, Less, Ancestors, SizesMatch, Partial, Unpacked, OciLayout.IsSha;
    if !archive.regular || !OciLayout.IsSha(expected) || archive.sha256 != expected || before == Occupied {
      return None;
    }
    var members :- archive.members;
    var paths :- ValidateMembers(members);
    CollectNames(map[], members);
    ValidatedKinds(members);
    var order := Sorted(paths.Keys);
    var made :- Extract(paths, order, dirMode, fileMode);
    var target := RestoreModes(paths, order, made, dirMode);
    r := if after == Occupied then None else Some(target);
  }

  function Prefix(order: seq<string>, i: nat): set<string>
    requires i <= |order|
  {
    set k | 0 <= k < i :: order[k]
  }

  /** The directories among the names from position j on. */
  function Suffix(paths: Paths, order: seq<string>, j: nat): set<string> {
    set k | j <= k < |order| && order[k] in paths && paths[order[k]].kind == DirectoryMember :: order[k]
  }

  /** Where the two extraction loops start and end. */
  lemma Bounds(paths: Paths, order: seq<string>, mode: int)
    requires forall n :: n in paths <==> n in order
    ensures Prefix(order, 0) == {} && Prefix(order, |order|) == paths.Keys
    ensures Suffix(paths, order, |order|) == {}
    ensures Partial(paths, {}, {}, mode) == map[]
    ensures Partial(paths, paths.Keys, Suffix(paths, order, 0), mode) == Unpacked(paths, mode)
  {
    NothingCovered();
    hide Covered;
  }

  lemma PrefixGrows(order: seq<string>, i: nat)
    requires i < |order| && Ascending(order)
    ensures Prefix(order, i + 1) == Prefix(order, i) + {order[i]}
    ensures order[i] !in Prefix(order, i)
  {
    forall k | 0 <= k < i ensures order[k] != order[i] {
      LessTotal(order[k], order[i]);
    }
  }

  lemma SuffixGrows(paths: Paths, order: seq<string>, j: nat)
    requires j < |order| && Ascending(order) && order[j] in paths
    ensures Suffix(paths, order, j) ==
            Suffix(paths, order, j + 1) + (if paths[order[j]].kind == DirectoryMember then {order[j]} else {})
    ensures order[j] !in Suffix(paths, order, j + 1)
    ensures forall a | a in Ancestors(order[j]) :: a !in Suffix(paths, order, j + 1)
  {
    forall k | j < k < |order| ensures order[k] != order[j] && order[k] !in Ancestors(order[j]) {
      LessTotal(order[j], order[k]);
      AncestorsAre(order[k], order[j]);
      if Ancestor(order[k], order[j]) {
        AncestorsSortFirst(order[k], order[j]);
      }
    }
  }

  lemma NothingCovered()
    ensures Covered({}) == {}
  {
  }

  lemma {:induction false} CollectKinds(paths: Paths, members: seq<Member>)
    requires Collect(paths, members).Some? && forall n | n in paths :: paths[n].kind != OtherMember
    ensures forall n | n in Collect(paths, members).value :: Collect(paths, members).value[n].kind != OtherMember
    decreases |members|
  {
    if members != [] {
      CollectKinds(paths[NameOf(members[0]) := members[0]], members[1..]);
    }
  }

  lemma ValidatedKinds(members: seq<Member>)
    requires Validated(members).Some?
    ensures forall n | n in Validated(members).value :: Validated(members).value[n].kind != OtherMember
  {
    CollectKinds(map[], members);
  }
}
