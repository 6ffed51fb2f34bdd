/** What the release programs return and when, field by field. */
module ReleaseResults {
  import opened Wrappers
  import opened ReleasePages
  import opened ReleaseState
  import opened ReleaseRuns

  /** The release a binding describes, with these notes, as a draft or published. */
  predicate Describes(r: Release, b: Binding, notes: string, draft: bool) {
    r.tag == b.tag && r.target == b.commit && r.body == notes && !r.prerelease && r.draft == draft
  }

  /** A full lowercase hexadecimal SHA. */
  predicate FullSha(sha: string) {
    |sha| == 40 && forall i | 0 <= i < 40 :: sha[i] in "0123456789abcdef"
  }

  /** A release version bound to a full commit SHA. */
  predicate BindingOk(b: Binding) {
    b.tagOk && FullSha(b.commit)
  }

  predicate NameOk(name: string) {
    && name != ""
    && (forall i | 0 <= i < |name| ::
          'a' <= name[i] <= 'z' || 'A' <= name[i] <= 'Z' || '0' <= name[i] <= '9' || name[i] in "._-")
    && name[0] !in "._-"
  }

  /** Fewer than a hundred thousand assets, each uploaded whole, no two with one ID or name. */
  predicate Complete(assets: seq<Asset>) {
    && |assets| < 100000
    && (forall i | 0 <= i < |assets| ::
          assets[i].id > 0 && assets[i].size > 0 && assets[i].state == "uploaded" && NameOk(assets[i].name))
    && (forall i, j | 0 <= i < j < |assets| :: assets[i].id != assets[j].id)
    && (forall i, j | 0 <= i < j < |assets| :: assets[i].name != assets[j].name)
  }

  lemma CompleteIsReadable(assets: seq<Asset>)
    ensures Complete(assets) <==> Readable(assets)
  {
    forall i | 0 <= i < |assets|
      ensures AssetOk(assets[i]) <==>
              && assets[i].id > 0 && assets[i].size > 0 && assets[i].state == "uploaded" && NameOk(assets[i].name)
    {
      NameIsOk(assets[i].name);
    }
    hide NameOk, AssetOk;
  }

  lemma NameIsOk(name: string)
    ensures NameOk(name) <==>
            name != "" && name[0] !in ['.', '_', '-'] && forall i | 0 <= i < |name| :: AssetNameChar(name[i])
  {
  }

  lemma BindingIsScope(b: Binding)
    ensures BindingOk(b) <==> ScopeOk(b)
  {
    if |b.commit| == 40 {
      forall i | 0 <= i < 40
        ensures b.commit[i] in "0123456789abcdef" <==> '0' <= b.commit[i] <= '9' || 'a' <= b.commit[i] <= 'f'
      {
        HexChar(b.commit[i]);
      }
    }
  }

  lemma HexChar(c: char)
    ensures c in "0123456789abcdef" <==> '0' <= c <= '9' || 'a' <= c <= 'f'
  {
    var all := "0123456789abcdef";
    assert forall i | 0 <= i < 16 :: '0' <= all[i] <= '9' || 'a' <= all[i] <= 'f';
    if '0' <= c <= '9' {
      assert all[c as int - '0' as int] == c;
    } else if 'a' <= c <= 'f' {
      assert all[c as int - 'a' as int + 10] == c;
    }
  }

  /** A release with an ID is the one the service answers for that ID. */
  lemma Answered(hub: Hub, i: nat)
    requires HubOk(hub) && i < |hub.releases|
    ensures IndexOf(hub.releases, hub.releases[i].id) == Some(i)
  {
    IndexOfIs(hub.releases, i);
  }

  predicate OnlyTagged(hub: Hub, i: nat, tag: string) {
    && i < |hub.releases| && hub.releases[i].tag == tag
    && forall j | 0 <= j < |hub.releases| && j != i :: hub.releases[j].tag != tag
  }

  predicate Untagged(hub: Hub, tag: string) {
    forall i | 0 <= i < |hub.releases| :: hub.releases[i].tag != tag
  }

  lemma {:induction false} OneWithTag(releases: seq<Release>, tag: string, i: nat)
    requires i < |releases| && releases[i].tag == tag
    requires forall j | 0 <= j < |releases| && j != i :: releases[j].tag != tag
    ensures WithTag(releases, tag) == [releases[i]]
  {
    var n := |releases| - 1;
    assert forall j | 0 <= j < n :: releases[..n][j] == releases[j];
    if i == n {
      NoTagMeansNone(releases[..n], tag);
    } else {
      OneWithTag(releases[..n], tag, i);
    }
  }

  lemma {:induction false} TwoWithTag(releases: seq<Release>, tag: string, i: nat, j: nat)
    requires i < j < |releases| && releases[i].tag == tag && releases[j].tag == tag
    ensures |WithTag(releases, tag)| > 1
  {
    var n := |releases| - 1;
    assert releases[..n][i] == releases[i];
    if j == n {
      NoTagMeansNone(releases[..n], tag);
    } else {
      assert releases[..n][j] == releases[j];
      TwoWithTag(releases[..n], tag, i, j);
    }
  }

  /** What searching a listing for a tag gives. */
  lemma PickIs(hub: Hub, tag: string)
    requires HubOk(hub)
    ensures Untagged(hub, tag) ==> Pick(hub.releases, tag) == Some(None)
    ensures forall i: nat | OnlyTagged(hub, i, tag) :: Pick(hub.releases, tag) == Some(Some(hub.releases[i]))
    ensures !Untagged(hub, tag) && (forall i: nat :: !OnlyTagged(hub, i, tag)) ==> Pick(hub.releases, tag).None?
  {
    hide WithTag;
    assert ListingOk(hub.releases);
    NoTagMeansNone(hub.releases, tag);
    forall i: nat | OnlyTagged(hub, i, tag) ensures WithTag(hub.releases, tag) == [hub.releases[i]] {
      OneWithTag(hub.releases, tag, i);
    }
    if !Untagged(hub, tag) && forall i: nat :: !OnlyTagged(hub, i, tag) {
      var i: nat :| i < |hub.releases| && hub.releases[i].tag == tag;
      assert !OnlyTagged(hub, i, tag);
      var j: nat :| j < |hub.releases| && j != i && hub.releases[j].tag == tag;
      TwoWithTag(hub.releases, tag, if i < j then i else j, if i < j then j else i);
    }
  }

  /** One annotated tag object after the other, each answered under its own SHA, down to a commit. */
  predicate Chain(hub: Hub, objects: seq<GitObject>, commit: string) {
    && objects != []
    && (forall i | 0 <= i < |objects| :: FullSha(objects[i].sha))
    && (forall i | 0 <= i < |objects| - 1 ::
          && objects[i].kind == "tag" && objects[i].sha in hub.tagObjects
          && hub.tagObjects[objects[i].sha] == GitAnswer(objects[i].sha, objects[i + 1]))
    && objects[|objects| - 1].kind == "commit" && objects[|objects| - 1].sha == commit
  }

  /** The service answers for exactly the tag, with a chain of no more than sixteen objects that
      ends at the bound commit. */
  ghost predicate TagResolves(hub: Hub, b: Binding) {
    && b.tag in hub.refs && hub.refs[b.tag].name == "refs/tags/" + b.tag
    && exists objects: seq<GitObject> ::
         Chain(hub, objects, b.commit) && 0 < |objects| <= 16 && objects[0] == hub.refs[b.tag].target
  }

  lemma {:induction false} BelowHasChain(hub: Hub, target: GitObject, commit: string, k: nat)
    returns (objects: seq<GitObject>)
    requires LiesBelow(hub, target, commit, k)
    ensures Chain(hub, objects, commit) && |objects| == k + 1 && objects[0] == target
    decreases k
  {
    hide FullSha, IsCommit;
    ShaIsCommit(target.sha);
    if k == 0 {
      objects := [target];
    } else {
      var rest := BelowHasChain(hub, hub.tagObjects[target.sha].target, commit, k - 1);
      objects := [target] + rest;
      assert forall i | 0 < i < |objects| :: objects[i] == rest[i - 1];
    }
  }

  lemma ShaIsCommit(sha: string)
    ensures FullSha(sha) <==> IsCommit(sha)
  {
    BindingIsScope(Binding("", true, sha));
  }

  lemma {:induction false} ChainLiesBelow(hub: Hub, objects: seq<GitObject>, commit: string)
    requires Chain(hub, objects, commit)
    ensures LiesBelow(hub, objects[0], commit, |objects| - 1)
  {
    hide FullSha, IsCommit;
    assert FullSha(objects[0].sha);
    ShaIsCommit(objects[0].sha);
    if |objects| > 1 {
      var rest := objects[1..];
      assert forall i | 0 <= i < |rest| :: rest[i] == objects[i + 1];
      ChainLiesBelow(hub, rest, commit);
    }
  }

  lemma TagResolvesIs(hub: Hub, b: Binding)
    ensures TagResolves(hub, b) <==>
            RefOf(hub, b.tag).Some? && Resolves(hub, RefOf(hub, b.tag).value, b.commit, MAX_TAG_DEPTH)
  {
    hide Chain, LiesBelow;
    if RefOf(hub, b.tag).Some? {
      var target := RefOf(hub, b.tag).value;
      if Resolves(hub, target, b.commit, 16) {
        var k: nat :| k < 16 && LiesBelow(hub, target, b.commit, k);
        var objects := BelowHasChain(hub, target, b.commit, k);
      }
      if TagResolves(hub, b) {
        var objects :| Chain(hub, objects, b.commit) && 0 < |objects| <= 16 && objects[0] == target;
        ChainLiesBelow(hub, objects, b.commit);
      }
    }
  }

  /** Main result: an uninterrupted draft program succeeds exactly for a release version bound to a
      commit, on a service listing fewer than a hundred thousand releases, in two cases: no release
      has the tag and the tag leads to the commit, and then the result is a new empty draft; or one
      release has it, is that draft already, and has only complete assets, and then it is the result. */
  lemma DraftSucceedsExactly(hub: Hub, b: Binding, notes: string)
    requires HubOk(hub) && b.tag != ""
    ensures var result := ResultOf(EnsureDraft(hub, b, notes, ENOUGH).1);
            && (result.Returned? <==>
                && BindingOk(b) && |hub.releases| < 100000
                && (|| (Untagged(hub, b.tag) && TagResolves(hub, b))
                    || exists i: nat :: OnlyTagged(hub, i, b.tag) && Describes(hub.releases[i], b, notes, true)
                                        && Complete(hub.releases[i].assets)))
            && (result.Returned? ==>
                if Untagged(hub, b.tag)
                then && Describes(result.value, b, notes, true)
                     && result.value.assets == [] && result.value.id == hub.nextId
                else exists i: nat :: OnlyTagged(hub, i, b.tag) && result.value == hub.releases[i])
  {
    hide ReadRelease, VerifyTag, Pick, Complete, Resolves, TagResolves, BindingOk, ScopeOk, HubOk;
    TagResolvesIs(hub, b);
    BindingIsScope(b);
    PickIs(hub, b.tag);
    if ScopeOk(b) && |hub.releases| < 100000 {
      var found := FindRelease(hub, b.tag, ENOUGH);
      if Untagged(hub, b.tag) {
        assert found.value.None? && found.left > MAX_TAG_DEPTH + 3;
        TagVerifiedExactly(hub, b, found.left);
        TagLeavesCalls(hub, b, found.left);
        DraftIsListed(hub, b);
        if VerifyTag(hub, b, found.left).Going? {
          ReadPosted(hub, b, notes, VerifyTag(hub, b, found.left).left - 1);
        }
      } else if exists i: nat :: OnlyTagged(hub, i, b.tag) {
        var i: nat :| OnlyTagged(hub, i, b.tag);
        assert found.value == Some(hub.releases[i]);
        DraftIsRead(hub, b, notes, i, found.left);
      }
    }
  }

  lemma DraftIsListed(hub: Hub, b: Binding)
    requires HubOk(hub)
    ensures hub.nextId > 0
  {
  }

  lemma TagLeavesCalls(hub: Hub, b: Binding, left: nat)
    ensures VerifyTag(hub, b, left).Going? ==> VerifyTag(hub, b, left).left + 17 >= left
    ensures left > MAX_TAG_DEPTH ==> !VerifyTag(hub, b, left).Crashed?
  {
    hide Chase;
    if RefOf(hub, b.tag).Some? && left > 0 {
      ChaseCalls(hub, RefOf(hub, b.tag).value, b.commit, MAX_TAG_DEPTH, left - 1, left - 1);
    }
  }

  /** Reading back one listed release. */
  lemma ReadListed(hub: Hub, b: Binding, state: State, notes: Option<string>, i: nat, left: nat)
    requires HubOk(hub) && ScopeOk(b) && i < |hub.releases| && left > MAX_PAGES
    ensures var r := hub.releases[i];
            var p := ReadRelease(hub, r.id, b, state, notes, left);
            && (p.Going? <==> Bound(r, r.id, b, state, notes) && Complete(r.assets))
            && (p.Going? ==> p.value == r && p.left + MAX_PAGES + 1 >= left)
            && !p.Crashed?
  {
    hide AssetsOk, Bound, Complete;
    Answered(hub, i);
    CompleteIsReadable(hub.releases[i].assets);
    ReadCalls(hub, hub.releases[i].id, b, state, notes, left, left);
  }

  lemma DraftIsRead(hub: Hub, b: Binding, notes: string, i: nat, left: nat)
    requires HubOk(hub) && ScopeOk(b) && i < |hub.releases| && left > MAX_PAGES && hub.releases[i].tag == b.tag
    ensures var r := hub.releases[i];
            && (Bound(r, r.id, b, DraftState, Some(notes)) <==> Describes(r, b, notes, true))
            && var p := ReadRelease(hub, r.id, b, DraftState, Some(notes), left);
               && (p.Going? <==> Describes(r, b, notes, true) && Complete(r.assets))
               && (p.Going? ==> p.value == r)
               && !p.Crashed?
  {
    hide ReadRelease, Complete;
    ReadListed(hub, b, DraftState, Some(notes), i, left);
  }

  /** Main result: an uninterrupted publication succeeds exactly when the release with the ID is the
      bound one, with complete assets, and either it is a draft that publishing leaves with the same,
      complete assets, or it is published with these notes already; the result is then that release,
      published with the notes. */
  lemma ExposeSucceedsExactly(hub: Hub, id: int, b: Binding, notes: string)
    requires HubOk(hub)
    ensures var result := ResultOf(Expose(hub, id, b, notes, ENOUGH).1);
            && (result.Returned? <==>
                BindingOk(b) && exists i: nat :: i < |hub.releases| && Publishable(hub, i, id, b, notes))
            && (result.Returned? ==>
                exists i: nat :: i < |hub.releases| && Publishable(hub, i, id, b, notes)
                  && result.value.id == id && Describes(result.value, b, notes, false)
                  && result.value.assets == if hub.releases[i].draft then hub.republish(hub.releases[i].assets)
                                            else hub.releases[i].assets)
  {
    hide Expose, Complete, AssetIdentities, SameIdentities, BindingOk, ScopeOk, HubOk;
    BindingIsScope(b);
    UnboundFails(hub, id, b, notes);
    forall i: nat | i < |hub.releases| && hub.releases[i].id == id ensures IndexOf(hub.releases, id) == Some(i) {
      Answered(hub, i);
    }
    if ScopeOk(b) && IndexOf(hub.releases, id).Some? {
      var i := IndexOf(hub.releases, id).value;
      var r := hub.releases[i];
      CompleteIsReadable(r.assets);
      CompleteIsReadable(hub.republish(r.assets));
      ListedIsOk(hub, i);
      if Bound(r, id, b, EitherState, None) && Complete(r.assets) {
        if r.draft {
          ExposeDraft(hub, id, b, notes, i);
          SameMeansIdentities(hub.republish(r.assets), r.assets);
          assert Publishable(hub, i, id, b, notes) <==>
                 Complete(hub.republish(r.assets)) && SameIdentities(hub.republish(r.assets), r.assets);
        } else if r.body == notes {
          ExposePublished(hub, id, b, notes, i);
          assert Publishable(hub, i, id, b, notes);
        } else {
          OtherNotesFail(hub, id, b, notes, i);
        }
      }
    }
  }

  predicate Publishable(hub: Hub, i: nat, id: int, b: Binding, notes: string)
    requires i < |hub.releases|
  {
    var r := hub.releases[i];
    && r.id == id && Describes(r, b, r.body, r.draft) && Complete(r.assets)
    && if r.draft
       then Complete(hub.republish(r.assets)) && SameIdentities(hub.republish(r.assets), r.assets)
       else r.body == notes
  }

  predicate Kept(a: Asset, b: Asset) {
    a.id == b.id && a.name == b.name && a.size == b.size && a.state == b.state
  }

  /** Every asset of one list is in the other, with its ID, name, size and state. */
  predicate AllKept(a: seq<Asset>, b: seq<Asset>) {
    forall i | 0 <= i < |a| :: IsKept(a[i], b)
  }

  predicate IsKept(a: Asset, b: seq<Asset>) {
    exists j | 0 <= j < |b| :: Kept(a, b[j])
  }

  predicate SameIdentities(a: seq<Asset>, b: seq<Asset>) {
    AllKept(a, b) && AllKept(b, a)
  }

  lemma KeptMeansIdentities(a: seq<Asset>, b: seq<Asset>)
    ensures AllKept(a, b) <==> AssetIdentities(a) <= AssetIdentities(b)
  {
    if AllKept(a, b) {
      forall x | x in AssetIdentities(a) ensures x in AssetIdentities(b) {
        var i :| 0 <= i < |a| && Identity(a[i]) == x;
        assert IsKept(a[i], b);
        var j :| 0 <= j < |b| && Kept(a[i], b[j]);
        assert Identity(b[j]) == x;
      }
    }
    if AssetIdentities(a) <= AssetIdentities(b) {
      forall i | 0 <= i < |a| ensures IsKept(a[i], b) {
        assert Identity(a[i]) in AssetIdentities(a);
        var j :| 0 <= j < |b| && Identity(b[j]) == Identity(a[i]);
        assert Kept(a[i], b[j]);
      }
    }
  }

  lemma SameMeansIdentities(a: seq<Asset>, b: seq<Asset>)
    ensures SameIdentities(a, b) <==> AssetIdentities(a) == AssetIdentities(b)
  {
    hide AllKept, AssetIdentities;
    KeptMeansIdentities(a, b);
    KeptMeansIdentities(b, a);
  }

  lemma ListedIsOk(hub: Hub, i: nat)
    requires HubOk(hub) && i < |hub.releases|
    ensures ReleaseOk(hub.releases[i])
  {
  }

  lemma UnboundFails(hub: Hub, id: int, b: Binding, notes: string)
    ensures ResultOf(Expose(hub, id, b, notes, ENOUGH).1).Returned? ==>
              && ScopeOk(b) && IndexOf(hub.releases, id).Some?
              && var r := hub.releases[IndexOf(hub.releases, id).value];
                 Bound(r, id, b, EitherState, None) && Complete(r.assets)
  {
    hide AssetsOk, Compare, PublishedForm, Complete, AssetIdentities;
    var i := IndexOf(hub.releases, id);
    if i.Some? {
      CompleteIsReadable(hub.releases[i.value].assets);
    }
  }

  lemma OtherNotesFail(hub: Hub, id: int, b: Binding, notes: string, i: nat)
    requires IndexOf(hub.releases, id) == Some(i) && !hub.releases[i].draft && hub.releases[i].body != notes
    ensures !ResultOf(Expose(hub, id, b, notes, ENOUGH).1).Returned?
  {
    hide AssetsOk, Compare, PublishedForm, AssetIdentities;
  }

  /** Whatever the calls left, a release the draft program returns is the bound draft. */
  lemma DraftReturnsBound(hub: Hub, b: Binding, notes: string, left: nat)
    requires EnsureDraft(hub, b, notes, left).1.Going?
    ensures BindingOk(b)
    ensures var (hub', p) := EnsureDraft(hub, b, notes, left);
            && Describes(p.value, b, notes, true) && Complete(p.value.assets)
            && exists i | 0 <= i < |hub'.releases| :: p.value == hub'.releases[i]
  {
    hide AssetsOk, FindOrPost, Complete, BindingOk;
    BindingIsScope(b);
    CompleteIsReadable(EnsureDraft(hub, b, notes, left).1.value.assets);
  }

  /** And one the publishing program returns is the bound release, published. */
  lemma ExposeReturnsBound(hub: Hub, id: int, b: Binding, notes: string, left: nat)
    requires Expose(hub, id, b, notes, left).1.Going?
    ensures BindingOk(b)
    ensures var (hub', p) := Expose(hub, id, b, notes, left);
            && p.value.id == id && Describes(p.value, b, notes, false) && Complete(p.value.assets)
            && exists i | 0 <= i < |hub'.releases| :: p.value == hub'.releases[i]
  {
    hide AssetsOk, Complete, AssetIdentities, PublishedForm, BindingOk;
    BindingIsScope(b);
    CompleteIsReadable(Expose(hub, id, b, notes, left).1.value.assets);
  }
}
