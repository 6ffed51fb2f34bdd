/** tools/production_release_state.py: creating and publishing the one draft of a production tag
    against a release service, where the operator's process can die after any API call. */
module ReleaseState {
  import opened Wrappers
  import opened ReleasePages

  // ----- the service

  datatype Asset = Asset(id: int, name: string, size: int, state: string)

  datatype Release = Release(
    id: int, tag: string, target: string, body: string, draft: bool, prerelease: bool, assets: seq<Asset>)

  /** What a tag or an annotated tag object points at. */
  datatype GitObject = GitObject(kind: string, sha: string)

  /** An answer about a tag or a tag object: the name it gives itself, and its target. */
  datatype GitAnswer = GitAnswer(name: string, target: GitObject)

  /** The service's state; its answers about tags are taken as they come.  `republish` is what
      publishing does to a release's assets. */
  datatype Hub = Hub(
    releases: seq<Release>,
    nextId: int,
    refs: map<string, GitAnswer>,
    tagObjects: map<string, GitAnswer>,
    republish: seq<Asset> -> seq<Asset>)

  function IndexOf(releases: seq<Release>, id: int): (i: Option<nat>)
    ensures i.Some? ==> i.value < |releases| && releases[i.value].id == id
    ensures i.None? ==> forall k | 0 <= k < |releases| :: releases[k].id != id
  {
    if releases == [] then None
    else if releases[0].id == id then Some(0)
    else
      var i :- IndexOf(releases[1..], id);
      Some(i + 1)
  }

  // ----- calls that may be the operator's last

  /** A stretch of the operator's program that started with some number of API calls left before
      the process dies: it goes on with `left` more, raises, or has died. */
  datatype Progress<+T> = Going(value: T, left: nat) | Raised | Crashed {
    predicate IsFailure() {
      !Going?
    }

    function PropagateFailure<U>(): Progress<U>
      requires !Going?
    {
      if Raised? then Raised else Crashed
    }

    function Extract(): (T, nat)
      requires Going?
    {
      (value, left)
    }
  }

  /** One request that answers or fails. */
  function Call<T>(answer: Option<T>, left: nat): Progress<T> {
    if left == 0 then Crashed
    else if answer.None? then Raised
    else Going(answer.value, left - 1)
  }

  /** _pages against the honest service, by ReleasePages.PagesReadEverything: the whole list in
      n/100 + 1 requests, or an error after a thousand. */
  function ListAll<T>(items: seq<T>, left: nat): Progress<seq<T>> {
    if |items| >= MAX_PAGES * PAGE_SIZE then (if left < MAX_PAGES then Crashed else Raised)
    else if left < |items| / PAGE_SIZE + 1 then Crashed
    else Going(items, left - (|items| / PAGE_SIZE + 1))
  }

  // ----- checks

  /** _release */
  predicate ReleaseOk(r: Release) {
    r.id > 0 && r.tag != ""
  }

  predicate IsCommit(sha: string) {
    |sha| == 40 && forall i | 0 <= i < 40 :: '0' <= sha[i] <= '9' || 'a' <= sha[i] <= 'f'
  }

  predicate AssetNameChar(c: char) {
    'A' <= c <= 'Z' || 'a' <= c <= 'z' || '0' <= c <= '9' || c == '.' || c == '_' || c == '-'
  }

  predicate AssetOk(a: Asset) {
    && a.id > 0 && a.size > 0 && a.state == "uploaded"
    && a.name != "" && a.name[0] !in ['.', '_', '-']
    && forall i | 0 <= i < |a.name| :: AssetNameChar(a.name[i])
  }

  /** _assets: every asset is complete, and no ID or name repeats. */
  predicate AssetsOk(assets: seq<Asset>) {
    && (forall i | 0 <= i < |assets| :: AssetOk(assets[i]))
    && forall i, j | 0 <= i < j < |assets| :: assets[i].id != assets[j].id && assets[i].name != assets[j].name
  }

  datatype State = DraftState | PublishedState | EitherState

  /** The release an operator works on; `tagOk` says that the tag names a release version. */
  datatype Binding = Binding(tag: string, tagOk: bool, commit: string)

  predicate ScopeOk(b: Binding) {
    b.tagOk && IsCommit(b.commit)
  }

  /** _bound_release */
  predicate Bound(r: Release, id: int, b: Binding, state: State, notes: Option<string>) {
    && ReleaseOk(r)
    && r.id == id && r.tag == b.tag && !r.prerelease && r.target == b.commit
    && (state == DraftState ==> r.draft)
    && (state == PublishedState ==> !r.draft)
    && (notes.Some? ==> r.body == notes.value)
  }

  // ----- find_release

  predicate ListingOk(releases: seq<Release>) {
    && (forall i | 0 <= i < |releases| :: ReleaseOk(releases[i]))
    && forall i, j | 0 <= i < j < |releases| :: releases[i].id != releases[j].id
  }

  function WithTag(releases: seq<Release>, tag: string): seq<Release> {
    if releases == [] then []
    else WithTag(releases[..|releases| - 1], tag) +
         (if releases[|releases| - 1].tag == tag then [releases[|releases| - 1]] else [])
  }

  /** The one listed release with the tag, none, or an error where the listing is not usable. */
  function Pick(releases: seq<Release>, tag: string): Option<Option<Release>> {
    if !ListingOk(releases) || |WithTag(releases, tag)| > 1 then None
    else if WithTag(releases, tag) == [] then Some(None)
    else Some(Some(WithTag(releases, tag)[0]))
  }

  function FindRelease(hub: Hub, tag: string, left: nat): Progress<Option<Release>> {
    var (documents, left1) :- ListAll(hub.releases, left);
    if Pick(documents, tag).None? then Raised else Going(Pick(documents, tag).value, left1)
  }

  // ----- _verify_tag

  const MAX_TAG_DEPTH := 16

  /** The target of a tag, when the service answers with exactly that tag's reference. */
  function RefOf(hub: Hub, tag: string): Option<GitObject> {
    if tag in hub.refs && hub.refs[tag].name == "refs/tags/" + tag then Some(hub.refs[tag].target) else None
  }

  /** The target of an annotated tag object, when the service answers with exactly that object. */
  function TagOf(hub: Hub, sha: string): Option<GitObject> {
    if sha in hub.tagObjects && hub.tagObjects[sha].name == sha then Some(hub.tagObjects[sha].target) else None
  }

  /** Follow annotated tags from a target, looking at no more than `depth` objects. */
  function Chase(hub: Hub, target: GitObject, commit: string, depth: nat, left: nat): Progress<()>
    decreases depth
  {
    if depth == 0 || !IsCommit(target.sha) then Raised
    else if target.kind == "commit" then (if target.sha == commit then Going((), left) else Raised)
    else if target.kind != "tag" then Raised
    else
      var (next, left1) :- Call(TagOf(hub, target.sha), left);
      Chase(hub, next, commit, depth - 1, left1)
  }

  function VerifyTag(hub: Hub, b: Binding, left: nat): Progress<()> {
    var (target, left1) :- Call(RefOf(hub, b.tag), left);
    Chase(hub, target, b.commit, MAX_TAG_DEPTH, left1)
  }

  // ----- read_release

  function ReadRelease(hub: Hub, id: int, b: Binding, state: State, notes: Option<string>,
                       left: nat): Progress<Release> {
    if !ScopeOk(b) || id <= 0 then Raised else
    var i := IndexOf(hub.releases, id);
    var (r, left1) :- Call(if i.Some? then Some(hub.releases[i.value]) else None, left);
    if !Bound(r, id, b, state, notes) then Raised else
    var (assets, left2) :- ListAll(r.assets, left1);
    if AssetsOk(assets) then Going(r, left2) else Raised
  }

  // ----- ensure_draft

  function Drafted(hub: Hub, b: Binding, notes: string): Release {
    Release(hub.nextId, b.tag, b.commit, notes, true, false, [])
  }

  /** The service's POST: a new draft under the next ID. */
  function Posted(hub: Hub, b: Binding, notes: string): Hub {
    hub.(releases := hub.releases + [Drafted(hub, b, notes)], nextId := hub.nextId + 1)
  }

  /** The release ensure_draft goes on with, found or created. */
  function FindOrPost(hub: Hub, b: Binding, notes: string, left: nat): (Hub, Progress<Release>) {
    match FindRelease(hub, b.tag, left)
    case Raised => (hub, Raised)
    case Crashed => (hub, Crashed)
    case Going(Some(r), left1) => (hub, Going(r, left1))
    case Going(None, left1) =>
      (match VerifyTag(hub, b, left1)
       case Raised => (hub, Raised)
       case Crashed => (hub, Crashed)
       case Going(_, left2) =>
         if left2 == 0 then (hub, Crashed)
         else if !ReleaseOk(Drafted(hub, b, notes)) then (Posted(hub, b, notes), Raised)
         else (Posted(hub, b, notes), Going(Drafted(hub, b, notes), left2 - 1)))
  }

  function EnsureDraft(hub: Hub, b: Binding, notes: string, left: nat): (Hub, Progress<Release>) {
    if !ScopeOk(b) then (hub, Raised) else
    var (hub1, p) := FindOrPost(hub, b, notes, left);
    if !p.Going? then (hub1, p.PropagateFailure())
    else if !Bound(p.value, p.value.id, b, DraftState, Some(notes)) then (hub1, Raised)
    else (hub1, ReadRelease(hub1, p.value.id, b, DraftState, Some(notes), p.left))
  }

  // ----- expose_release

  function Identity(a: Asset): (int, string, int, string) {
    (a.id, a.name, a.size, a.state)
  }

  function AssetIdentities(assets: seq<Asset>): set<(int, string, int, string)> {
    set i | 0 <= i < |assets| :: Identity(assets[i])
  }

  function PublishedForm(hub: Hub, r: Release, notes: string): Release {
    r.(body := notes, draft := false, assets := hub.republish(r.assets))
  }

  /** The service's PATCH of one release. */
  function Patched(hub: Hub, i: nat, notes: string): Hub
    requires i < |hub.releases|
  {
    hub.(releases := hub.releases[i := PublishedForm(hub, hub.releases[i], notes)])
  }

  function Expose(hub: Hub, id: int, b: Binding, notes: string, left: nat): (Hub, Progress<Release>) {
    var before := ReadRelease(hub, id, b, EitherState, None, left);
    if !before.Going? then (hub, before.PropagateFailure())
    else if before.value.draft then
      if before.left == 0 then (hub, Crashed) else
      var i := IndexOf(hub.releases, id);
      if i.None? then (hub, Raised) else
      var hub1 := Patched(hub, i.value, notes);
      if !Bound(hub1.releases[i.value], id, b, PublishedState, Some(notes)) then (hub1, Raised)
      else (hub1, Compare(hub1, before.value, id, b, notes, before.left - 1))
    else if !Bound(before.value, id, b, PublishedState, Some(notes)) then (hub, Raised)
    else (hub, Compare(hub, before.value, id, b, notes, before.left))
  }

  /** Read the published release back and compare its assets with those seen before. */
  function Compare(hub: Hub, before: Release, id: int, b: Binding, notes: string, left: nat): Progress<Release> {
    var (published, left1) :- ReadRelease(hub, id, b, PublishedState, Some(notes), left);
    if AssetIdentities(before.assets) == AssetIdentities(published.assets) then Going(published, left1) else Raised
  }

  // ----- the programs as the code performs them

  /** One operator process: the service it talks to and the calls it has left to live. */
  class Operator {
    var hub: Hub
    var left: nat

    constructor (hub: Hub, left: nat)
      ensures this.hub == hub && this.left == left
    {
      this.hub, this.left := hub, left;
    }

    /** The progress an outcome stands for, given the calls left now. */
    ghost function Outcome<T>(r: Reply<T>): Progress<T>
      reads this
    {
      match r
      case Value(v) => Going(v, left)
      case Error => Raised
      case Dead => Crashed
    }

    /** Read a listing page by page; each page is one call. */
    method List<T>(items: seq<T>) returns (r: Reply<seq<T>>)
      modifies this`left
      ensures Outcome(r) == ListAll(items, old(left))
    {
      var documents: seq<T> := [];
      assert items[..0] == [];
      for page := 1 to MAX_PAGES + 1
        invariant (page - 1) * PAGE_SIZE <= |items| && documents == items[..(page - 1) * PAGE_SIZE]
        invariant left + (page - 1) == old(left)
      {
        if left == 0 {
          return Dead;
        }
        left := left - 1;
        var slice := Slice(items, page);
        documents := documents + slice;
        if |slice| < PAGE_SIZE {
          assert documents == items;
          return Value(documents);
        }
      }
      r := Error;
    }

    method Find(tag: string) returns (r: Reply<Option<Release>>)
      modifies this`left
      ensures Outcome(r) == FindRelease(hub, tag, old(left))
    {
      var listed := List(hub.releases);
      if !listed.Value? {
        return if listed.Error? then Error else Dead;
      }
      var documents := listed.value;
      var matches: seq<Release> := [];
      var seen: set<int> := {};
      assert documents[..0] == [];
      for i := 0 to |documents|
        invariant matches == WithTag(documents[..i], tag)
        invariant forall id :: id in seen <==> exists k | 0 <= k < i :: documents[k].id == id
        invariant ListingOk(documents[..i])
      {
        var release := documents[i];
        assert documents[..i + 1][..i] == documents[..i];
        if !ReleaseOk(release) || release.id in seen {
          return Error;
        }
        seen := seen + {release.id};
        if release.tag == tag {
          matches := matches + [release];
        }
      }
      assert documents[..|documents|] == documents;
      if |matches| > 1 {
        return Error;
      }
      r := Value(if matches == [] then None else Some(matches[0]));
    }

    method CheckTag(b: Binding) returns (r: Reply<()>)
      modifies this`left
      ensures Outcome(r) == VerifyTag(hub, b, old(left))
    {
      hide IsCommit;
      if left == 0 {
        return Dead;
      }
      left := left - 1;
      if b.tag !in hub.refs || hub.refs[b.tag].name != "refs/tags/" + b.tag {
        return Error;
      }
      var target := hub.refs[b.tag].target;
      for depth := 0 to MAX_TAG_DEPTH
        invariant VerifyTag(hub, b, old(left)) == Chase(hub, target, b.commit, MAX_TAG_DEPTH - depth, left)
      {
        if !IsCommit(target.sha) {
          return Error;
        }
        if target.kind == "commit" {
          return if target.sha == b.commit then Value(()) else Error;
        }
        if target.kind != "tag" {
          return Error;
        }
        if left == 0 {
          return Dead;
        }
        left := left - 1;
        if target.sha !in hub.tagObjects || hub.tagObjects[target.sha].name != target.sha {
          return Error;
        }
        target := hub.tagObjects[target.sha].target;
      }
      r := Error;
    }

    method Read(id: int, b: Binding, state: State, notes: Option<string>) returns (r: Reply<Release>)
      modifies this`left
      ensures Outcome(r) == ReadRelease(hub, id, b, state, notes, old(left))
    {
      if !ScopeOk(b) || id <= 0 {
        return Error;
      }
      if left == 0 {
        return Dead;
      }
      left := left - 1;
      var i := IndexOf(hub.releases, id);
      if i.None? || !Bound(hub.releases[i.value], id, b, state, notes) {
        return Error;
      }
      var release := hub.releases[i.value];
      var listed := List(release.assets);
      if !listed.Value? {
        return if listed.Error? then Error else Dead;
      }
      var complete := CheckAssets(listed.value);
      r := if complete then Value(release) else Error;
    }

    /** The loop of _assets over the listed documents. */
    method CheckAssets(assets: seq<Asset>) returns (ok: bool)
      ensures ok <==> AssetsOk(assets)
    {
      hide AssetOk;
      var seenIds, seenNames: set<string> := {}, {};
      for k := 0 to |assets|
        invariant forall id :: id in seenIds <==> exists j | 0 <= j < k :: assets[j].id == id
        invariant forall name :: name in seenNames <==> exists j | 0 <= j < k :: assets[j].name == name
        invariant forall i | 0 <= i < k :: AssetOk(assets[i])
        invariant forall i, j | 0 <= i < j < k :: assets[i].id != assets[j].id && assets[i].name != assets[j].name
      {
        if !AssetOk(assets[k]) || assets[k].id in seenIds || assets[k].name in seenNames {
          return false;
        }
        seenIds := seenIds + {assets[k].id};
        seenNames := seenNames + {assets[k].name};
      }
      ok := true;
    }

    method Ensure(b: Binding, notes: string) returns (r: Reply<Release>)
      modifies this
      ensures (hub, Outcome(r)) == EnsureDraft(old(hub), b, notes, old(left))
    {
      hide Bound, ReadRelease, VerifyTag, FindRelease;
      if !ScopeOk(b) {
        return Error;
      }
      var found := Find(b.tag);
      if !found.Value? {
        return if found.Error? then Error else Dead;
      }
      var existing := found.value;
      if existing.None? {
        var checked := CheckTag(b);
        if !checked.Value? {
          return if checked.Error? then Error else Dead;
        }
        if left == 0 {
          return Dead;
        }
        left := left - 1;
        var created := Drafted(hub, b, notes);
        hub := Posted(hub, b, notes);
        if !ReleaseOk(created) {
          return Error;
        }
        existing := Some(created);
      }
      var id := existing.value.id;
      if !Bound(existing.value, id, b, DraftState, Some(notes)) {
        return Error;
      }
      r := Read(id, b, DraftState, Some(notes));
    }

    method Publish(id: int, b: Binding, notes: string) returns (r: Reply<Release>)
      modifies this
      ensures (hub, Outcome(r)) == Expose(old(hub), id, b, notes, old(left))
    {
      hide Bound, ReadRelease, PublishedForm, AssetIdentities;
      var first := Read(id, b, EitherState, None);
      if !first.Value? {
        return first;
      }
      var before := first.value;
      if before.draft {
        if left == 0 {
          return Dead;
        }
        left := left - 1;
        var i := IndexOf(hub.releases, id);
        if i.None? {
          return Error;
        }
        hub := Patched(hub, i.value, notes);
        if !Bound(hub.releases[i.value], id, b, PublishedState, Some(notes)) {
          return Error;
        }
      } else if !Bound(before, id, b, PublishedState, Some(notes)) {
        return Error;
      }
      r := Read(id, b, PublishedState, Some(notes));
      if r.Value? && AssetIdentities(before.assets) != AssetIdentities(r.value.assets) {
        r := Error;
      }
    }
  }

  /** How a program ended: with a value, with an error, or not at all. */
  datatype Reply<+T> = Value(value: T) | Error | Dead
}
