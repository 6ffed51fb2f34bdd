/** What every run of the release programs keeps, and what retrying after a crash leads to.  A
    run is any sequence of program starts by one operator, each allowed any number of API calls
    before it dies. */
module ReleaseRuns {
  import opened Wrappers
  import opened ReleasePages
  import opened ReleaseState

  /** What the programs assume of a listing is what paging does against any honest server, with
      or without Link headers: the same documents, one call per request. */
  lemma ListingIsPaging<T>(server: nat -> Response<T>, endpoint: string, items: seq<T>, left: nat)
    requires Honest(server, endpoint, items)
    ensures var (requests, documents) := ReadFrom(server, endpoint, 1);
            ListAll(items, left) ==
            (if left < requests then Crashed else if documents.None? then Raised
             else Going(documents.value, left - requests))
  {
    hide ReadFrom;
    PagesReadEverything(server, endpoint, items);
  }

  // ----- safety over all runs

  /** The service hands out each numeric ID once, and never a non-positive one. */
  ghost predicate HubOk(hub: Hub) {
    && hub.nextId > 0
    && (forall i | 0 <= i < |hub.releases| :: 0 < hub.releases[i].id < hub.nextId && hub.releases[i].tag != "")
    && forall i, j | 0 <= i < j < |hub.releases| :: hub.releases[i].id != hub.releases[j].id
  }

  ghost predicate OnePerTag(releases: seq<Release>) {
    forall i, j | 0 <= i < j < |releases| :: releases[i].tag != releases[j].tag
  }

  /** A release afterwards: the same release, and once published it stays published with its
      notes and assets as they are. */
  predicate Follows(r: Release, r': Release) {
    && r'.id == r.id && r'.tag == r.tag && r'.target == r.target && r'.prerelease == r.prerelease
    && (!r.draft ==> r' == r)
  }

  /** Releases are never removed or reordered, and each follows from what it was. */
  ghost predicate Evolves(hub: Hub, hub': Hub) {
    && |hub.releases| <= |hub'.releases|
    && hub.nextId <= hub'.nextId
    && (forall i | 0 <= i < |hub.releases| :: Follows(hub.releases[i], hub'.releases[i]))
  }

  datatype Start =
    | StartDraft(b: Binding, notes: string, calls: nat)
    | StartExpose(id: int, b: Binding, notes: string, calls: nat)

  function After(hub: Hub, s: Start): Hub {
    match s
    case StartDraft(b, notes, calls) => EnsureDraft(hub, b, notes, calls).0
    case StartExpose(id, b, notes, calls) => Expose(hub, id, b, notes, calls).0
  }

  function Run(hub: Hub, starts: seq<Start>): Hub {
    if starts == [] then hub else After(Run(hub, starts[..|starts| - 1]), starts[|starts| - 1])
  }

  lemma {:induction false} NoTagMeansNone(releases: seq<Release>, tag: string)
    ensures WithTag(releases, tag) == [] <==> forall i | 0 <= i < |releases| :: releases[i].tag != tag
    ensures WithTag(releases, tag) != [] ==> exists i | 0 <= i < |releases| :: releases[i] == WithTag(releases, tag)[0]
    ensures WithTag(releases, tag) != [] ==> WithTag(releases, tag)[0].tag == tag
  {
    if releases != [] {
      var init := releases[..|releases| - 1];
      NoTagMeansNone(init, tag);
      assert forall i | 0 <= i < |init| :: init[i] == releases[i];
      if WithTag(init, tag) == [] && WithTag(releases, tag) != [] {
        assert releases[|releases| - 1] == WithTag(releases, tag)[0];
      }
    }
  }

  /** find_release returning nothing is authoritative: no listed release has the tag. */
  lemma AbsenceIsAuthoritative(hub: Hub, tag: string, left: nat)
    requires FindRelease(hub, tag, left).Going? && FindRelease(hub, tag, left).value.None?
    ensures forall i | 0 <= i < |hub.releases| :: hub.releases[i].tag != tag
  {
    NoTagMeansNone(hub.releases, tag);
  }

  /** The draft program changes the service only by adding one draft for a tag nobody has. */
  lemma DraftEffect(hub: Hub, b: Binding, notes: string, left: nat)
    ensures var hub' := EnsureDraft(hub, b, notes, left).0;
            hub' == hub ||
            (hub' == Posted(hub, b, notes) && forall i | 0 <= i < |hub.releases| :: hub.releases[i].tag != b.tag)
    ensures EnsureDraft(hub, b, notes, left).0 != hub ==> b.tagOk
  {
    hide ReadRelease, VerifyTag, Bound, Pick, ListAll;
    var found := FindRelease(hub, b.tag, left);
    if found.Going? && found.value.None? {
      AbsenceIsAuthoritative(hub, b.tag, left);
    }
  }

  /** The publishing program changes the service only by publishing the one draft it is bound to. */
  lemma ExposeEffect(hub: Hub, id: int, b: Binding, notes: string, left: nat)
    ensures var hub' := Expose(hub, id, b, notes, left).0;
            hub' == hub ||
            exists i | 0 <= i < |hub.releases| :: hub' == Patched(hub, i, notes) && hub.releases[i].draft
                                                  && Bound(hub.releases[i], id, b, DraftState, None)
  {
    hide ListAll, AssetsOk, Compare, AssetIdentities, PublishedForm;
  }

  lemma StepEvolves(hub: Hub, s: Start)
    requires HubOk(hub) && (s.StartDraft? && s.b.tagOk ==> s.b.tag != "")
    ensures HubOk(After(hub, s)) && Evolves(hub, After(hub, s))
    ensures OnePerTag(hub.releases) ==> OnePerTag(After(hub, s).releases)
  {
    hide EnsureDraft, Expose, Bound;
    match s {
      case StartDraft(b, notes, calls) => DraftEffect(hub, b, notes, calls);
      case StartExpose(id, b, notes, calls) => ExposeEffect(hub, id, b, notes, calls);
    }
  }

  lemma FollowsTransitive(a: Hub, b: Hub, c: Hub)
    requires Evolves(a, b) && Evolves(b, c)
    ensures Evolves(a, c)
  {
    forall i | 0 <= i < |a.releases| ensures Follows(a.releases[i], c.releases[i]) {
      assert Follows(a.releases[i], b.releases[i]) && Follows(b.releases[i], c.releases[i]);
    }
  }

  lemma SameEvolves(hub: Hub)
    ensures Evolves(hub, hub)
  {
  }

  /** From any moment of a run to its end. */
  lemma {:induction false} RunEvolves(hub: Hub, starts: seq<Start>, i: nat)
    requires HubOk(hub) && OnePerTag(hub.releases) && i <= |starts|
    requires forall k | 0 <= k < |starts| :: starts[k].b.tagOk ==> starts[k].b.tag != ""
    ensures HubOk(Run(hub, starts)) && OnePerTag(Run(hub, starts).releases)
    ensures Evolves(Run(hub, starts[..i]), Run(hub, starts))
  {
    hide After, Evolves, HubOk, OnePerTag;
    if i == |starts| {
      assert starts[..i] == starts;
      SameEvolves(Run(hub, starts));
    }
    if starts != [] {
      var n := |starts| - 1;
      assert forall k | 0 <= k < n :: starts[..n][k] == starts[k];
      RunEvolves(hub, starts[..n], if i < n then i else n);
      StepEvolves(Run(hub, starts[..n]), starts[n]);
      if i <= n {
        assert starts[..n][..i] == starts[..i];
        FollowsTransitive(Run(hub, starts[..i]), Run(hub, starts[..n]), Run(hub, starts));
      }
    }
  }

  /** Main result: at every moment of every run, crashes anywhere included, there is at most one
      release per tag; and between any two moments no release disappears or changes its ID, tag,
      target or place, and one that is published by the first does not change at all. */
  lemma RunsAreSafe(hub: Hub, starts: seq<Start>)
    requires HubOk(hub) && OnePerTag(hub.releases)
    requires forall i | 0 <= i < |starts| :: starts[i].b.tagOk ==> starts[i].b.tag != ""
    ensures forall i | 0 <= i <= |starts| :: HubOk(Run(hub, starts[..i])) && OnePerTag(Run(hub, starts[..i]).releases)
    ensures forall i, j | 0 <= i <= j <= |starts| :: Evolves(Run(hub, starts[..i]), Run(hub, starts[..j]))
  {
    hide Run, Evolves, HubOk, OnePerTag;
    forall i, j | 0 <= i <= j <= |starts|
      ensures HubOk(Run(hub, starts[..j])) && OnePerTag(Run(hub, starts[..j]).releases)
      ensures Evolves(Run(hub, starts[..i]), Run(hub, starts[..j]))
    {
      assert starts[..j][..i] == starts[..i];
      assert forall k | 0 <= k < j :: starts[..j][k] == starts[k];
      RunEvolves(hub, starts[..j], i);
    }
  }

  // ----- enough calls

  /** Calls that no program needs more of: two listings, a tag chain, one write, one read. */
  const ENOUGH := 2 * MAX_PAGES + MAX_TAG_DEPTH + 3

  /** A result without the number of calls left. */
  datatype Result<+T> = Returned(value: T) | Failed | Died

  function ResultOf<T>(p: Progress<T>): Result<T> {
    match p
    case Going(v, _) => Returned(v)
    case Raised => Failed
    case Crashed => Died
  }

  lemma {:induction false} ChaseCalls(hub: Hub, target: GitObject, commit: string, depth: nat, left: nat, more: nat)
    ensures var p := Chase(hub, target, commit, depth, left);
            && (p.Going? ==> p.left + depth >= left)
            && (left >= depth ==> !p.Crashed?)
            && (!p.Crashed? && left <= more ==> ResultOf(Chase(hub, target, commit, depth, more)) == ResultOf(p))
    decreases depth
  {
    if depth > 0 && left > 0 && TagOf(hub, target.sha).Some? {
      ChaseCalls(hub, TagOf(hub, target.sha).value, commit, depth - 1, left - 1, if more > 0 then more - 1 else 0);
    }
  }

  lemma ReadCalls(hub: Hub, id: int, b: Binding, state: State, notes: Option<string>, left: nat, more: nat)
    ensures var p := ReadRelease(hub, id, b, state, notes, left);
            && (left > MAX_PAGES ==> !p.Crashed?)
            && (p.Going? ==> p.left + MAX_PAGES + 1 >= left)
            && (!p.Crashed? && left <= more ==> ResultOf(ReadRelease(hub, id, b, state, notes, more)) == ResultOf(p))
  {
    hide Bound, AssetsOk;
  }

  lemma FindCalls(hub: Hub, b: Binding, notes: string, left: nat, more: nat)
    ensures var (hub1, p) := FindOrPost(hub, b, notes, left);
            && (left >= ENOUGH ==> !p.Crashed? && (p.Going? ==> p.left > MAX_PAGES))
            && (!p.Crashed? && left <= more ==>
                  && FindOrPost(hub, b, notes, more).0 == hub1
                  && ResultOf(FindOrPost(hub, b, notes, more).1) == ResultOf(p)
                  && (p.Going? ==> FindOrPost(hub, b, notes, more).1.left >= p.left))
  {
    hide Pick, Chase, ReleaseOk;
    var found := FindRelease(hub, b.tag, left);
    if found.Going? && found.value.None? && RefOf(hub, b.tag).Some? {
      if found.left > 0 {
        var found' := FindRelease(hub, b.tag, more);
        var target := RefOf(hub, b.tag).value;
        var left' := if found'.Going? && found'.left > 0 then found'.left - 1 else 0;
        ChaseCalls(hub, target, b.commit, MAX_TAG_DEPTH, found.left - 1, left');
        ChaseLeft(hub, target, b.commit, MAX_TAG_DEPTH, found.left - 1, left');
      }
    }
  }

  lemma {:induction false} ChaseLeft(hub: Hub, target: GitObject, commit: string, depth: nat, left: nat, more: nat)
    ensures var p, q := Chase(hub, target, commit, depth, left), Chase(hub, target, commit, depth, more);
            p.Going? && left <= more ==> q.Going? && q.left >= p.left
    decreases depth
  {
    if depth > 0 && left > 0 && TagOf(hub, target.sha).Some? {
      ChaseLeft(hub, TagOf(hub, target.sha).value, commit, depth - 1, left - 1, if more > 0 then more - 1 else 0);
    }
  }

  /** With enough calls the draft program does not die, and any number that suffices leads to one
      service state and one result. */
  lemma DraftCalls(hub: Hub, b: Binding, notes: string, left: nat, more: nat)
    ensures left >= ENOUGH ==> !EnsureDraft(hub, b, notes, left).1.Crashed?
    ensures !EnsureDraft(hub, b, notes, left).1.Crashed? && left <= more ==>
              && EnsureDraft(hub, b, notes, more).0 == EnsureDraft(hub, b, notes, left).0
              && ResultOf(EnsureDraft(hub, b, notes, more).1) == ResultOf(EnsureDraft(hub, b, notes, left).1)
  {
    hide Bound, FindOrPost, ReadRelease;
    FindCalls(hub, b, notes, left, more);
    var (hub1, p) := FindOrPost(hub, b, notes, left);
    var (hub2, q) := FindOrPost(hub, b, notes, more);
    if p.Going? {
      ReadCalls(hub1, p.value.id, b, DraftState, Some(notes), p.left, if q.Going? then q.left else 0);
    }
  }

  // ----- retries of ensure_draft

  lemma {:induction false} IndexOfIs(releases: seq<Release>, i: nat)
    requires i < |releases| && forall k | 0 <= k < i :: releases[k].id != releases[i].id
    ensures IndexOf(releases, releases[i].id) == Some(i)
  {
    if i > 0 {
      assert forall k | 0 <= k < i :: releases[1..][k] == releases[k + 1];
      IndexOfIs(releases[1..], i - 1);
    }
  }

  /** Reading back a draft that was just created. */
  lemma ReadPosted(hub: Hub, b: Binding, notes: string, left: nat)
    requires HubOk(hub) && ScopeOk(b) && b.tag != "" && left >= 2
    ensures var p := ReadRelease(Posted(hub, b, notes), hub.nextId, b, DraftState, Some(notes), left);
            p == Going(Drafted(hub, b, notes), left - 2)
  {
    var hub1 := Posted(hub, b, notes);
    IndexOfIs(hub1.releases, |hub.releases|);
  }

  /** What the draft program finds once the draft exists. */
  lemma FindPosted(hub: Hub, b: Binding, notes: string, left: nat)
    requires HubOk(hub) && b.tag != "" && left >= MAX_PAGES
    requires forall i | 0 <= i < |hub.releases| :: hub.releases[i].tag != b.tag
    ensures var p := FindRelease(Posted(hub, b, notes), b.tag, left);
            if |hub.releases| + 1 < MAX_PAGES * PAGE_SIZE
            then p.Going? && p.value == Some(Drafted(hub, b, notes)) && p.left >= left - MAX_PAGES
            else p == Raised
  {
    var hub1 := Posted(hub, b, notes);
    var n := |hub.releases|;
    assert hub1.releases[..n] == hub.releases && hub1.releases[n] == Drafted(hub, b, notes);
    NoTagMeansNone(hub.releases, b.tag);
    assert WithTag(hub1.releases, b.tag) == [Drafted(hub, b, notes)];
    assert ListingOk(hub1.releases);
  }

  /** A run that posted the draft went past every check before it, so an uninterrupted one does. */
  lemma PostedMeans(hub: Hub, b: Binding, notes: string, left: nat)
    requires HubOk(hub) && ScopeOk(b) && b.tag != ""
    requires EnsureDraft(hub, b, notes, left).0 != hub
    ensures |hub.releases| < MAX_PAGES * PAGE_SIZE
    ensures var full := EnsureDraft(hub, b, notes, ENOUGH);
            full.0 == Posted(hub, b, notes) && ResultOf(full.1) == Returned(Drafted(hub, b, notes))
  {
    hide Pick, Chase;
    var found, full := FindRelease(hub, b.tag, left), FindRelease(hub, b.tag, ENOUGH);
    assert found.Going? && full.Going? && found.value == full.value == None;
    var target, few := RefOf(hub, b.tag).value, Min(found.left, full.left) - 1;
    ChaseCalls(hub, target, b.commit, MAX_TAG_DEPTH, found.left - 1, full.left - 1);
    ChaseCalls(hub, target, b.commit, MAX_TAG_DEPTH, full.left - 1, full.left - 1);
    ChaseCalls(hub, target, b.commit, MAX_TAG_DEPTH, few, found.left - 1);
    var posted := FindOrPost(hub, b, notes, ENOUGH);
    assert posted.1.Going? && posted.0 == Posted(hub, b, notes);
    ReadPosted(hub, b, notes, posted.1.left);
  }

  /** Main result: after an attempt that died anywhere, a fresh uninterrupted attempt ends in the
      same service state and with the same release as if the first had never been made.  The one
      exception is a listing the new draft fills up to its hundred thousandth entry: there the
      draft exists, and every later attempt fails to list it. */
  lemma DraftRetryConverges(hub: Hub, b: Binding, notes: string, left: nat)
    requires HubOk(hub) && ScopeOk(b) && b.tag != ""
    ensures var hub1 := EnsureDraft(hub, b, notes, left).0;
            var once, again := EnsureDraft(hub, b, notes, ENOUGH), EnsureDraft(hub1, b, notes, ENOUGH);
            && again.0 == once.0
            && (ResultOf(again.1) == ResultOf(once.1) <==>
                hub1 == hub || |hub.releases| + 1 < MAX_PAGES * PAGE_SIZE)
  {
    hide EnsureDraft, HubOk;
    var hub1 := EnsureDraft(hub, b, notes, left).0;
    if hub1 != hub {
      DraftEffect(hub, b, notes, left);
      PostedMeans(hub, b, notes, left);
      RetryAfterPost(hub, b, notes);
    }
  }

  lemma RetryAfterPost(hub: Hub, b: Binding, notes: string)
    requires HubOk(hub) && ScopeOk(b) && b.tag != ""
    requires forall i | 0 <= i < |hub.releases| :: hub.releases[i].tag != b.tag
    ensures var again := EnsureDraft(Posted(hub, b, notes), b, notes, ENOUGH);
            && again.0 == Posted(hub, b, notes)
            && ResultOf(again.1) == if |hub.releases| + 1 < MAX_PAGES * PAGE_SIZE
                                    then Returned(Drafted(hub, b, notes)) else Failed
  {
    hide FindRelease, ReadRelease, VerifyTag;
    FindPosted(hub, b, notes, ENOUGH);
    var p := FindRelease(Posted(hub, b, notes), b.tag, ENOUGH);
    if p.Going? {
      ReadPosted(hub, b, notes, p.left);
    }
  }

  /** A service that lists 99999 releases of another tag and has the bound tag at its commit. */
  function Crowded(b: Binding): Hub {
    Hub(seq(MAX_PAGES * PAGE_SIZE - 1,
            i requires 0 <= i => Release(i + 1, b.tag + "x", b.commit, "", false, false, [])),
        MAX_PAGES * PAGE_SIZE,
        map[b.tag := GitAnswer("refs/tags/" + b.tag, GitObject("commit", b.commit))],
        map[],
        assets => assets)
  }

  /** The exception is reached: on a crowded service an attempt that dies right after its POST,
      its 1002nd call, leaves a draft that no later attempt finds, while one uninterrupted
      attempt would have returned it. */
  lemma CrowdedDraftIsLost(b: Binding, notes: string)
    requires ScopeOk(b) && b.tag != ""
    ensures var hub := Crowded(b);
            var hub1 := EnsureDraft(hub, b, notes, 1002).0;
            && HubOk(hub) && hub1 == Posted(hub, b, notes)
            && ResultOf(EnsureDraft(hub, b, notes, ENOUGH).1) == Returned(Drafted(hub, b, notes))
            && ResultOf(EnsureDraft(hub1, b, notes, ENOUGH).1) == Failed
  {
    hide ReadRelease, Pick;
    var hub := Crowded(b);
    assert "refs/tags/" + b.tag == hub.refs[b.tag].name;
    CrowdedIsOk(b);
    assert Chase(hub, GitObject("commit", b.commit), b.commit, MAX_TAG_DEPTH, 1) == Going((), 1);
    assert FindRelease(hub, b.tag, 1002) == Going(None, 2);
    assert FindOrPost(hub, b, notes, 1002).0 == Posted(hub, b, notes);
    PostedMeans(hub, b, notes, 1002);
    RetryAfterPost(hub, b, notes);
  }

  lemma CrowdedIsOk(b: Binding)
    requires b.tag != ""
    ensures HubOk(Crowded(b)) && |Crowded(b).releases| == MAX_PAGES * PAGE_SIZE - 1
    ensures forall i | 0 <= i < |Crowded(b).releases| :: Crowded(b).releases[i].tag != b.tag
    ensures Pick(Crowded(b).releases, b.tag) == Some(None)
  {
    hide WithTag;
    assert |b.tag + "x"| == |b.tag| + 1;
    NoTagMeansNone(Crowded(b).releases, b.tag);
  }

  /** The service after any number of attempts, each allowed some number of calls. */
  function Attempts(hub: Hub, b: Binding, notes: string, calls: seq<nat>): Hub {
    if calls == [] then hub
    else EnsureDraft(Attempts(hub, b, notes, calls[..|calls| - 1]), b, notes, calls[|calls| - 1]).0
  }

  lemma {:induction false} AttemptsAre(hub: Hub, b: Binding, notes: string, calls: seq<nat>)
    requires HubOk(hub)
    ensures var hub1 := Attempts(hub, b, notes, calls);
            hub1 == hub || (hub1 == Posted(hub, b, notes) && exists left :: EnsureDraft(hub, b, notes, left).0 == hub1)
  {
    hide EnsureDraft;
    if calls != [] {
      var n := |calls| - 1;
      var hub1 := Attempts(hub, b, notes, calls[..n]);
      AttemptsAre(hub, b, notes, calls[..n]);
      DraftEffect(hub1, b, notes, calls[n]);
      if hub1 != hub {
        assert hub1.releases[|hub.releases|].tag == b.tag;
      }
    }
  }

  /** So any number of attempts, crashed or not, followed by an uninterrupted one is one
      uninterrupted attempt: one draft, one ID. */
  lemma DraftRetriesConverge(hub: Hub, b: Binding, notes: string, calls: seq<nat>)
    requires HubOk(hub) && ScopeOk(b) && b.tag != "" && |hub.releases| + 1 < MAX_PAGES * PAGE_SIZE
    ensures var once := EnsureDraft(hub, b, notes, ENOUGH);
            var again := EnsureDraft(Attempts(hub, b, notes, calls), b, notes, ENOUGH);
            again.0 == once.0 && ResultOf(again.1) == ResultOf(once.1)
  {
    hide EnsureDraft, HubOk;
    AttemptsAre(hub, b, notes, calls);
    var hub1 := Attempts(hub, b, notes, calls);
    if hub1 != hub {
      var left :| EnsureDraft(hub, b, notes, left).0 == hub1;
      DraftRetryConverges(hub, b, notes, left);
    }
  }

  // ----- publication

  /** A successful publication returns the bound release, published with the notes, as the service
      now holds it, with the asset identities it started from. */
  lemma ExposeKeepsAssets(hub: Hub, id: int, b: Binding, notes: string, left: nat)
    requires Expose(hub, id, b, notes, left).1.Going?
    ensures var (hub', p) := Expose(hub, id, b, notes, left);
            && IndexOf(hub.releases, id).Some? && IndexOf(hub'.releases, id) == IndexOf(hub.releases, id)
            && var i := IndexOf(hub.releases, id).value;
               && i < |hub'.releases| && p.value == hub'.releases[i]
               && Bound(p.value, id, b, PublishedState, Some(notes))
               && AssetIdentities(p.value.assets) == AssetIdentities(hub.releases[i].assets)
  {
    hide AssetIdentities, AssetsOk, ListAll;
    var i := IndexOf(hub.releases, id).value;
    if hub.releases[i].draft {
      PatchedIndex(hub, id, i, notes);
    }
  }

  lemma {:induction false} IndexOfUpdated(releases: seq<Release>, i: nat, r: Release)
    requires i < |releases| && r.id == releases[i].id
    ensures forall id :: IndexOf(releases[i := r], id) == IndexOf(releases, id)
  {
    forall id ensures IndexOf(releases[i := r], id) == IndexOf(releases, id) {
      if i == 0 {
        assert releases[0 := r][1..] == releases[1..];
      } else {
        assert releases[i := r][1..] == releases[1..][i - 1 := r];
        IndexOfUpdated(releases[1..], i - 1, r);
      }
    }
  }

  lemma PatchedIndex(hub: Hub, id: int, i: nat, notes: string)
    requires IndexOf(hub.releases, id) == Some(i)
    ensures IndexOf(Patched(hub, i, notes).releases, id) == Some(i)
  {
    IndexOfUpdated(hub.releases, i, PublishedForm(hub, hub.releases[i], notes));
  }

  /** A listing of assets that can be read: short enough, and every asset complete. */
  predicate Readable(assets: seq<Asset>) {
    |assets| < MAX_PAGES * PAGE_SIZE && AssetsOk(assets)
  }

  /** An uninterrupted publication of a draft. */
  lemma ExposeDraft(hub: Hub, id: int, b: Binding, notes: string, i: nat)
    requires ScopeOk(b) && IndexOf(hub.releases, id) == Some(i)
    requires Bound(hub.releases[i], id, b, DraftState, None) && Readable(hub.releases[i].assets)
    ensures var r' := PublishedForm(hub, hub.releases[i], notes);
            var full := Expose(hub, id, b, notes, ENOUGH);
            && full.0 == Patched(hub, i, notes)
            && ResultOf(full.1) ==
               if Readable(r'.assets) && AssetIdentities(r'.assets) == AssetIdentities(hub.releases[i].assets)
               then Returned(r') else Failed
  {
    hide AssetIdentities, AssetsOk;
    PatchedIndex(hub, id, i, notes);
  }

  /** An uninterrupted publication of what is already published with these notes. */
  lemma ExposePublished(hub: Hub, id: int, b: Binding, notes: string, i: nat)
    requires ScopeOk(b) && IndexOf(hub.releases, id) == Some(i)
    requires Bound(hub.releases[i], id, b, PublishedState, Some(notes))
    ensures var full := Expose(hub, id, b, notes, ENOUGH);
            && full.0 == hub
            && ResultOf(full.1) == if Readable(hub.releases[i].assets) then Returned(hub.releases[i]) else Failed
  {
    hide AssetIdentities, AssetsOk;
  }

  lemma PatchedMeans(hub: Hub, id: int, b: Binding, notes: string, left: nat) returns (i: nat)
    requires Expose(hub, id, b, notes, left).0 != hub
    ensures ScopeOk(b) && IndexOf(hub.releases, id) == Some(i) && Readable(hub.releases[i].assets)
    ensures Bound(hub.releases[i], id, b, DraftState, None)
    ensures Expose(hub, id, b, notes, left).0 == Patched(hub, i, notes)
  {
    hide AssetIdentities, AssetsOk, Compare, PublishedForm;
    i := IndexOf(hub.releases, id).value;
  }

  /** Main result: after an attempt that died anywhere, a fresh uninterrupted attempt leaves the
      service as one uninterrupted attempt does.  It also returns the same release exactly when
      publishing did not change the asset identities (or left assets no attempt can read): the
      comparison guards only the attempt that publishes, and a retry no longer sees the change. */
  lemma ExposeRetryConverges(hub: Hub, id: int, b: Binding, notes: string, left: nat)
    ensures var hub1 := Expose(hub, id, b, notes, left).0;
            var once, again := Expose(hub, id, b, notes, ENOUGH), Expose(hub1, id, b, notes, ENOUGH);
            && again.0 == once.0
            && (ResultOf(again.1) == ResultOf(once.1) <==>
                hub1 == hub ||
                (IndexOf(hub.releases, id).Some? &&
                 var assets := hub.releases[IndexOf(hub.releases, id).value].assets;
                 Readable(hub.republish(assets)) ==> AssetIdentities(hub.republish(assets)) == AssetIdentities(assets)))
  {
    hide Expose, AssetIdentities, AssetsOk;
    var hub1 := Expose(hub, id, b, notes, left).0;
    if hub1 != hub {
      var i := PatchedMeans(hub, id, b, notes, left);
      ExposeDraft(hub, id, b, notes, i);
      PatchedIndex(hub, id, i, notes);
      ExposePublished(hub1, id, b, notes, i);
    }
  }

  /** The change does go unseen: publishing a draft without assets adds one, the attempt that
      publishes dies before it reads back, and the retry succeeds where one uninterrupted attempt
      fails. */
  lemma RetryMissesChangedAssets(b: Binding, notes: string)
    requires ScopeOk(b) && b.tag != ""
    ensures var hub := Hub([Release(1, b.tag, b.commit, "", true, false, [])], 2, map[], map[],
                           assets => [Asset(1, "a", 1, "uploaded")]);
            var hub1 := Expose(hub, 1, b, notes, 3).0;
            && HubOk(hub) && hub1 == Patched(hub, 0, notes)
            && ResultOf(Expose(hub, 1, b, notes, ENOUGH).1) == Failed
            && ResultOf(Expose(hub1, 1, b, notes, ENOUGH).1) == Returned(hub1.releases[0])
  {
    var added := Asset(1, "a", 1, "uploaded");
    var hub := Hub([Release(1, b.tag, b.commit, "", true, false, [])], 2, map[], map[], assets => [added]);
    assert IndexOf(hub.releases, 1) == Some(0);
    PatchedIndex(hub, 1, 0, notes);
    assert AssetsOk([]) && AssetsOk([added]);
    assert AssetIdentities([]) == {};
    assert Identity([added][0]) in AssetIdentities([added]);
    ExposeDraft(hub, 1, b, notes, 0);
    ExposePublished(Patched(hub, 0, notes), 1, b, notes, 0);
  }

  /** The service after any number of attempts to publish. */
  function Exposures(hub: Hub, id: int, b: Binding, notes: string, calls: seq<nat>): Hub {
    if calls == [] then hub
    else Expose(Exposures(hub, id, b, notes, calls[..|calls| - 1]), id, b, notes, calls[|calls| - 1]).0
  }

  /** However many attempts there are, only one of them publishes. */
  lemma {:induction false} ExposuresAre(hub: Hub, id: int, b: Binding, notes: string, calls: seq<nat>)
    ensures var hub1 := Exposures(hub, id, b, notes, calls);
            hub1 == hub || exists left :: Expose(hub, id, b, notes, left).0 == hub1
  {
    hide Expose;
    if calls != [] {
      var n := |calls| - 1;
      var hub1 := Exposures(hub, id, b, notes, calls[..n]);
      ExposuresAre(hub, id, b, notes, calls[..n]);
      if hub1 != hub {
        var left :| Expose(hub, id, b, notes, left).0 == hub1;
        PublishedStays(hub, id, b, notes, left, calls[n]);
      }
    }
  }

  lemma PublishedStays(hub: Hub, id: int, b: Binding, notes: string, left: nat, calls: nat)
    requires Expose(hub, id, b, notes, left).0 != hub
    ensures Expose(Expose(hub, id, b, notes, left).0, id, b, notes, calls).0 == Expose(hub, id, b, notes, left).0
  {
    hide Expose;
    var i := PatchedMeans(hub, id, b, notes, left);
    PatchedIndex(hub, id, i, notes);
    PublishedIsKept(Patched(hub, i, notes), id, b, notes, i, calls);
  }

  lemma PublishedIsKept(hub: Hub, id: int, b: Binding, notes: string, i: nat, calls: nat)
    requires IndexOf(hub.releases, id) == Some(i) && !hub.releases[i].draft
    ensures Expose(hub, id, b, notes, calls).0 == hub
  {
    hide AssetsOk, Compare, PublishedForm, Bound;
  }

  /** So any number of attempts to publish, crashed or not, followed by an uninterrupted one
      leaves the service as one uninterrupted attempt does, and returns the same release under
      the same condition. */
  lemma ExposeRetriesConverge(hub: Hub, id: int, b: Binding, notes: string, calls: seq<nat>)
    ensures var hub1 := Exposures(hub, id, b, notes, calls);
            var once, again := Expose(hub, id, b, notes, ENOUGH), Expose(hub1, id, b, notes, ENOUGH);
            && again.0 == once.0
            && (ResultOf(again.1) == ResultOf(once.1) <==>
                hub1 == hub ||
                (IndexOf(hub.releases, id).Some? &&
                 var assets := hub.releases[IndexOf(hub.releases, id).value].assets;
                 Readable(hub.republish(assets)) ==> AssetIdentities(hub.republish(assets)) == AssetIdentities(assets)))
  {
    hide Expose, AssetIdentities, AssetsOk;
    ExposuresAre(hub, id, b, notes, calls);
    var hub1 := Exposures(hub, id, b, notes, calls);
    if hub1 != hub {
      var left :| Expose(hub, id, b, notes, left).0 == hub1;
      ExposeRetryConverges(hub, id, b, notes, left);
    }
  }

  // ----- tags

  /** The commit lies exactly k annotated tags below a target. */
  predicate LiesBelow(hub: Hub, target: GitObject, commit: string, k: nat)
    decreases k
  {
    if k == 0 then target.kind == "commit" && target.sha == commit && IsCommit(commit)
    else
      && target.kind == "tag" && IsCommit(target.sha) && TagOf(hub, target.sha).Some?
      && LiesBelow(hub, TagOf(hub, target.sha).value, commit, k - 1)
  }

  ghost predicate Resolves(hub: Hub, target: GitObject, commit: string, depth: nat) {
    exists k: nat :: k < depth && LiesBelow(hub, target, commit, k)
  }

  lemma {:induction false} ChaseFinds(hub: Hub, target: GitObject, commit: string, depth: nat, left: nat)
    requires left >= depth
    ensures Chase(hub, target, commit, depth, left).Going? <==> Resolves(hub, target, commit, depth)
    decreases depth
  {
    hide IsCommit;
    assert "tag" != "commit" by {
      assert |"tag"| != |"commit"|;
    }
    if depth > 0 {
      if LiesBelow(hub, target, commit, 0) {
        assert Resolves(hub, target, commit, depth);
      } else if target.kind == "tag" && IsCommit(target.sha) && TagOf(hub, target.sha).Some? {
        var next := TagOf(hub, target.sha).value;
        ChaseFinds(hub, next, commit, depth - 1, left - 1);
        assert Chase(hub, target, commit, depth, left) == Chase(hub, next, commit, depth - 1, left - 1);
        ResolvesNext(hub, target, commit, depth);
      } else {
        ResolvesNowhere(hub, target, commit, depth);
      }
    }
  }

  lemma ResolvesNext(hub: Hub, target: GitObject, commit: string, depth: nat)
    requires depth > 0 && !LiesBelow(hub, target, commit, 0)
    requires target.kind == "tag" && IsCommit(target.sha) && TagOf(hub, target.sha).Some?
    ensures Resolves(hub, target, commit, depth) <==> Resolves(hub, TagOf(hub, target.sha).value, commit, depth - 1)
  {
    hide IsCommit;
    var next := TagOf(hub, target.sha).value;
    if Resolves(hub, target, commit, depth) {
      var k: nat :| k < depth && LiesBelow(hub, target, commit, k);
      assert LiesBelow(hub, next, commit, k - 1);
    }
    if Resolves(hub, next, commit, depth - 1) {
      var k: nat :| k < depth - 1 && LiesBelow(hub, next, commit, k);
      assert LiesBelow(hub, target, commit, k + 1);
    }
  }

  lemma ResolvesNowhere(hub: Hub, target: GitObject, commit: string, depth: nat)
    requires !LiesBelow(hub, target, commit, 0)
    requires !(target.kind == "tag" && IsCommit(target.sha) && TagOf(hub, target.sha).Some?)
    ensures !Resolves(hub, target, commit, depth)
  {
    hide IsCommit;
    forall k: nat ensures !LiesBelow(hub, target, commit, k) {
    }
  }

  /** A tag is accepted exactly when at most fifteen annotated tags lead from it to the commit. */
  lemma TagVerifiedExactly(hub: Hub, b: Binding, left: nat)
    requires left > MAX_TAG_DEPTH
    ensures VerifyTag(hub, b, left).Going? <==>
            RefOf(hub, b.tag).Some? && Resolves(hub, RefOf(hub, b.tag).value, b.commit, MAX_TAG_DEPTH)
  {
    hide Chase, Resolves;
    if RefOf(hub, b.tag).Some? {
      ChaseFinds(hub, RefOf(hub, b.tag).value, b.commit, MAX_TAG_DEPTH, left - 1);
    }
  }
}
