/** When the third walk succeeds and what it returns, for any registry, in the fields of the documents
    it serves: nothing here asks that a candidate was ever verified. */
module RegistryExactly {
  import opened Wrappers
  import opened Json
  import opened OciLayout
  import opened OciVerify
  import opened OciMeaning
  import opened OciEntries
  import opened RegistrySummary
  import opened PublicRegistry

  // ----- what the third walk finds

  /** The image a descriptor's platform is for. */
  function ImageName(d: Value): Option<string> {
    if SaysPlatform(Member(d, "platform"), Str("linux"), Str("amd64")) then Some("linux/amd64")
    else if SaysPlatform(Member(d, "platform"), Str("linux"), Str("arm64")) then Some("linux/arm64")
    else None
  }

  predicate IsUnknown(d: Value) {
    SaysPlatform(Member(d, "platform"), Str("unknown"), Str("unknown"))
  }

  lemma ImageNameIs(d: Value)
    ensures ImageName(d) == PlatformKey(PlatformOf(d))
    ensures IsUnknown(d) <==> IsUnknownPlatform(PlatformOf(d))
  {
  }

  /** The served bytes are as many as the descriptor says, as Python compares numbers. */
  predicate IsLength(v: Value, n: nat) {
    v == Int(n) || v == Float(n as real) || (n == 1 && v == Bool(true)) || (n == 0 && v == Bool(false))
  }

  /** What the registry serves under a descriptor's digest has that digest and the size it says. */
  predicate Serves(reg: Registry, d: Value, doc: Fields) {
    && Member(d, "digest").Str?
    && reg(Member(d, "digest").s).Some?
    && var served := reg(Member(d, "digest").s).value;
       && "sha256:" + served.sha256 == Member(d, "digest").s && IsLength(Member(d, "size"), served.size)
       && served.doc == Some(doc)
  }

  lemma ServesIs(reg: Registry, d: Value, doc: Fields)
    requires Member(d, "digest").Str?
    ensures Serves(reg, d, doc) <==> Child(reg, d).Some? && Child(reg, d).value.doc == Some(doc)
  {
  }

  /** The document lists this image itself, or lists an index without it that the registry serves
      under its digest and that lists it, within so many levels. */
  predicate Publishes(reg: Registry, doc: Fields, id: string, digest: string, levels: nat)
    decreases levels
  {
    exists i | 0 <= i < |ChildrenOf(doc)| :: Lists(reg, ChildrenOf(doc)[i], id, digest, levels)
  }

  predicate Lists(reg: Registry, d: Value, id: string, digest: string, levels: nat)
    decreases levels, 0
  {
    if ImageName(d).Some? then ImageName(d) == Some(id) && Member(d, "digest") == Str(digest)
    else
      && !IsUnknown(d) && levels > 0
      && Member(d, "digest").Str?
      && reg(Member(d, "digest").s).Some?
      && var served := reg(Member(d, "digest").s).value;
         && served.doc.Some? && Serves(reg, d, served.doc.value)
         && Publishes(reg, served.doc.value, id, digest, levels - 1)
  }

  lemma {:induction false} EntryPublishes(reg: Registry, m: map<string, string>, d: Value, depth: nat,
                                          id: string, digest: string)
    requires depth <= MAX_REGISTRY_DEPTH && PublicOne(reg, m, d, depth).Some?
    ensures var m' := PublicOne(reg, m, d, depth).value;
            (id in m' && m'[id] == digest) <==> (id in m && m[id] == digest) || Lists(reg, d, id, digest, 4 - depth)
    ensures forall k | k in m :: k in PublicOne(reg, m, d, depth).value && PublicOne(reg, m, d, depth).value[k] == m[k]
    decreases MAX_REGISTRY_DEPTH + 1 - depth, 0
  {
    ImageNameIs(d);
    assert PublicDigestOk(d) ==> d.Obj? && Member(d, "digest") == Str(DigestOf(d));
    hide PublicDigestOk, Unhashable, PlatformKey, IsManifestType, IsIndexType, IsUnknownPlatform, Publishes, Serves,
         ImageName, IsUnknown, Child, DigestOf, Member;
    if PlatformKey(PlatformOf(d)).None? && !IsUnknownPlatform(PlatformOf(d)) {
      var served := Child(reg, d).value;
      ServedAt(reg, d);
      assert RegistryPlatforms(reg, served.doc, depth + 1).Some?;
      DocumentPublishes(reg, served.doc.value, depth + 1, id, digest);
    }
  }

  lemma ServedAt(reg: Registry, d: Value)
    requires PublicDigestOk(d) && Child(reg, d).Some? && Child(reg, d).value.doc.Some?
    ensures Member(d, "digest").Str? && reg(Member(d, "digest").s) == Child(reg, d)
    ensures Serves(reg, d, Child(reg, d).value.doc.value)
  {
    hide SizeEquals, IsLength;
    assert Member(d, "digest").s == DigestOf(d);
    SizeIs(Member(d, "size"), Child(reg, d).value.size);
  }

  lemma SizeIs(v: Value, n: nat)
    ensures SizeEquals(v, n) <==> IsLength(v, n)
  {
  }

  lemma {:induction false} EntriesPublish(reg: Registry, m: map<string, string>, items: seq<Value>, depth: nat,
                                          id: string, digest: string)
    requires depth <= MAX_REGISTRY_DEPTH && PublicAll(reg, m, items, depth).Some?
    ensures var m' := PublicAll(reg, m, items, depth).value;
            (id in m' && m'[id] == digest) <==>
            (id in m && m[id] == digest) || exists i | 0 <= i < |items| :: Lists(reg, items[i], id, digest, 4 - depth)
    decreases MAX_REGISTRY_DEPTH + 1 - depth, 1, |items|
  {
    hide PublicOne, Lists;
    if items != [] {
      EntryPublishes(reg, m, items[0], depth, id, digest);
      EntriesPublish(reg, PublicOne(reg, m, items[0], depth).value, items[1..], depth, id, digest);
      assert (exists i | 0 <= i < |items| :: Lists(reg, items[i], id, digest, 4 - depth)) <==>
             Lists(reg, items[0], id, digest, 4 - depth) ||
             exists i | 0 <= i < |items[1..]| :: Lists(reg, items[1..][i], id, digest, 4 - depth) by {
        if i :| 0 <= i < |items| && Lists(reg, items[i], id, digest, 4 - depth) {
          assert i > 0 ==> items[1..][i - 1] == items[i];
        }
        if i :| 0 <= i < |items[1..]| && Lists(reg, items[1..][i], id, digest, 4 - depth) {
          assert items[i + 1] == items[1..][i];
        }
      }
    }
  }

  /** Main result: where the third walk returns, it returns exactly the images that the document
      publishes, through indexes the registry serves under the digests that name them. */
  lemma {:induction false} DocumentPublishes(reg: Registry, doc: Fields, depth: nat, id: string, digest: string)
    requires depth <= MAX_REGISTRY_DEPTH && RegistryPlatforms(reg, Some(doc), depth).Some?
    ensures var m := RegistryPlatforms(reg, Some(doc), depth).value;
            (id in m && m[id] == digest) <==> Publishes(reg, doc, id, digest, 4 - depth)
    decreases MAX_REGISTRY_DEPTH + 1 - depth, 2
  {
    hide PublicAll, Lists;
    EntriesPublish(reg, map[], ChildrenOf(doc), depth, id, digest);
  }

  predicate DigestText(v: Value) {
    v.Str? && |v.s| == 71 && v.s[..7] == "sha256:" && LowerHex(v.s[7..])
  }

  /** A platform whose lookup raises. */
  predicate CannotBeLookedUp(d: Value) {
    Member(Member(d, "platform"), "os") == Str("linux") &&
    (Member(Member(d, "platform"), "architecture").Arr? || Member(Member(d, "platform"), "architecture").Obj?)
  }

  // ----- when the third walk succeeds

  /** The document lists this image, under some digest. */
  ghost predicate Offers(reg: Registry, d: Value, id: string, levels: nat) {
    exists digest :: Lists(reg, d, id, digest, levels)
  }

  /** An entry the third walk can read: an image, an attestation, or an index that the registry
      serves as described and that can be read in turn. */
  ghost predicate EntryFits(reg: Registry, d: Value, levels: nat)
    decreases levels, 0
  {
    && d.Obj? && DigestText(Member(d, "digest")) && !CannotBeLookedUp(d)
    && if ImageName(d).Some? || IsUnknown(d) then ManifestMedia(Member(d, "mediaType"))
       else
         && IndexMedia(Member(d, "mediaType")) && levels > 0
         && reg(Member(d, "digest").s).Some?
         && var served := reg(Member(d, "digest").s).value;
            && served.doc.Some? && Serves(reg, d, served.doc.value)
            && Fits(reg, served.doc.value, levels - 1)
  }

  /** A document the third walk can read: between 1 and 64 entries, each of which fits, and no image
      offered by two of them. */
  ghost predicate Fits(reg: Registry, doc: Fields, levels: nat)
    decreases levels, 1
  {
    && 1 <= |ChildrenOf(doc)| <= 64
    && (forall i | 0 <= i < |ChildrenOf(doc)| :: EntryFits(reg, ChildrenOf(doc)[i], levels))
    && NoneTwice(reg, ChildrenOf(doc), levels)
  }

  ghost predicate NoneTwice(reg: Registry, items: seq<Value>, levels: nat) {
    forall i, j, id | 0 <= i < j < |items| :: !(Offers(reg, items[i], id, levels) && Offers(reg, items[j], id, levels))
  }

  lemma DigestTextIs(d: Value)
    ensures d.Obj? && DigestText(Member(d, "digest")) <==> PublicDigestOk(d)
  {
    var v := Member(d, "digest");
    if v.Str? && |v.s| == 71 {
      HexIsLower(v.s[7..]);
    }
    hide LowerHex, IsHex;
  }

  lemma MediaTypesAre(d: Value)
    ensures IndexMedia(Member(d, "mediaType")) <==> IsIndexType(MediaOf(d))
    ensures ManifestMedia(Member(d, "mediaType")) <==> IsManifestType(MediaOf(d))
  {
    if Member(d, "mediaType").Str? {
      MediaIs(d);
    } else {
      NoType();
    }
    hide IndexMedia, ManifestMedia, IsIndexType, IsManifestType;
    NoMedia(Member(d, "mediaType"));
  }

  lemma NoType()
    ensures !IsIndexType("") && !IsManifestType("")
  {
  }

  lemma NoMedia(m: Value)
    ensures IndexMedia(m) || ManifestMedia(m) ==> m.Str?
  {
  }

  lemma LookupIs(d: Value)
    ensures CannotBeLookedUp(d) <==> Unhashable(PlatformOf(d))
  {
  }

  /** What the leaf tests of both walks say, in raw fields. */
  lemma EntryIs(d: Value)
    ensures d.Obj? && DigestText(Member(d, "digest")) <==> PublicDigestOk(d)
    ensures CannotBeLookedUp(d) <==> Unhashable(PlatformOf(d))
    ensures ImageName(d) == PlatformKey(PlatformOf(d)) && (IsUnknown(d) <==> IsUnknownPlatform(PlatformOf(d)))
    ensures IndexMedia(Member(d, "mediaType")) <==> IsIndexType(MediaOf(d))
    ensures ManifestMedia(Member(d, "mediaType")) <==> IsManifestType(MediaOf(d))
  {
    DigestTextIs(d);
    LookupIs(d);
    ImageNameIs(d);
    MediaTypesAre(d);
    hide *;
  }

  lemma DigestIsText(d: Value)
    requires DigestText(Member(d, "digest"))
    ensures Member(d, "digest") == Str(DigestOf(d))
  {
  }

  /** Where an entry is read, the images known afterwards are those known before and those it offers. */
  lemma OffersAre(reg: Registry, m: map<string, string>, d: Value, depth: nat, id: string)
    requires depth <= MAX_REGISTRY_DEPTH && PublicOne(reg, m, d, depth).Some?
    ensures id in PublicOne(reg, m, d, depth).value <==> id in m || Offers(reg, d, id, 4 - depth)
  {
    hide PublicOne, Lists;
    var m' := PublicOne(reg, m, d, depth).value;
    if id in m' {
      EntryPublishes(reg, m, d, depth, id, m'[id]);
    }
    if Offers(reg, d, id, 4 - depth) {
      var digest :| Lists(reg, d, id, digest, 4 - depth);
      EntryPublishes(reg, m, d, depth, id, digest);
    }
    if id in m {
      EntryPublishes(reg, m, d, depth, id, m[id]);
    }
  }

  /** An entry that is an image offers it and nothing else. */
  lemma ImageOffers(reg: Registry, d: Value, id: string, levels: nat)
    requires ImageName(d).Some? && Member(d, "digest").Str?
    ensures Offers(reg, d, id, levels) <==> ImageName(d) == Some(id)
  {
    hide ImageName;
    if ImageName(d) == Some(id) {
      assert Lists(reg, d, id, Member(d, "digest").s, levels);
    }
  }

  lemma UnknownOffersNothing(reg: Registry, d: Value, id: string, levels: nat)
    requires IsUnknown(d)
    ensures !Offers(reg, d, id, levels)
  {
    assert "linux"[0] != "unknown"[0];
    assert ImageName(d).None?;
    hide ImageName, IsUnknown;
  }

  /** An index offers what the document behind it publishes. */
  lemma IndexOffers(reg: Registry, d: Value, doc: Fields, id: string, levels: nat, m: map<string, string>)
    requires ImageName(d).None? && !IsUnknown(d) && 1 <= levels <= 4 && Serves(reg, d, doc)
    requires RegistryPlatforms(reg, Some(doc), 5 - levels) == Some(m)
    ensures Offers(reg, d, id, levels) <==> id in m
  {
    hide ImageName, IsUnknown, RegistryPlatforms, Publishes;
    if id in m {
      DocumentPublishes(reg, doc, 5 - levels, id, m[id]);
      assert Lists(reg, d, id, m[id], levels);
    }
    if Offers(reg, d, id, levels) {
      var digest :| Lists(reg, d, id, digest, levels);
      DocumentPublishes(reg, doc, 5 - levels, id, digest);
    }
  }

  /** The entry is read exactly when it fits and offers no image that is already known. */
  lemma {:induction false} EntryFitsExactly(reg: Registry, m: map<string, string>, d: Value, depth: nat)
    requires depth <= MAX_REGISTRY_DEPTH
    ensures PublicOne(reg, m, d, depth).Some? <==>
            EntryFits(reg, d, 4 - depth) && forall id | id in m :: !Offers(reg, d, id, 4 - depth)
    decreases MAX_REGISTRY_DEPTH + 1 - depth, 1
  {
    EntryIs(d);
    hide PublicDigestOk, DigestText, Unhashable, CannotBeLookedUp, PlatformKey, ImageName, IsUnknown, IsUnknownPlatform,
         IsIndexType, IsManifestType, IndexMedia, ManifestMedia, Offers, Serves, Child, Fits, RegistryPlatforms, Member,
         DigestOf, MediaOf, PlatformOf;
    if PublicDigestOk(d) && !Unhashable(PlatformOf(d)) {
      DigestIsText(d);
      if ImageName(d).Some? {
        forall id | id in m ensures Offers(reg, d, id, 4 - depth) <==> ImageName(d) == Some(id) {
          ImageOffers(reg, d, id, 4 - depth);
        }
      } else if IsUnknown(d) {
        forall id | id in m ensures !Offers(reg, d, id, 4 - depth) {
          UnknownOffersNothing(reg, d, id, 4 - depth);
        }
      } else if IsIndexType(MediaOf(d)) {
        IndexFitsExactly(reg, m, d, depth);
      }
    }
  }

  lemma ChildIs(reg: Registry, d: Value)
    requires Member(d, "digest") == Str(DigestOf(d))
    ensures Child(reg, d).Some? ==> Child(reg, d) == reg(DigestOf(d))
    ensures forall doc :: Serves(reg, d, doc) <==> Child(reg, d).Some? && Child(reg, d).value.doc == Some(doc)
  {
    hide Serves, DigestOf, Member;
    forall doc ensures Serves(reg, d, doc) <==> Child(reg, d).Some? && Child(reg, d).value.doc == Some(doc) {
      ServesIs(reg, d, doc);
    }
  }

  lemma {:induction false} IndexFitsExactly(reg: Registry, m: map<string, string>, d: Value, depth: nat)
    requires depth <= MAX_REGISTRY_DEPTH && Member(d, "digest") == Str(DigestOf(d))
    requires ImageName(d).None? && !IsUnknown(d)
    ensures (&& Child(reg, d).Some?
             && var nested := RegistryPlatforms(reg, Child(reg, d).value.doc, depth + 1);
                nested.Some? && Merge(m, nested.value).Some?) <==>
            (&& depth < 4 && reg(DigestOf(d)).Some?
             && (var served := reg(DigestOf(d)).value;
                 && served.doc.Some? && Serves(reg, d, served.doc.value) && Fits(reg, served.doc.value, 3 - depth))
             && forall id | id in m :: !Offers(reg, d, id, 4 - depth))
    decreases MAX_REGISTRY_DEPTH + 1 - depth, 0
  {
    hide ImageName, IsUnknown, Offers, Serves, Child, Fits, PublicAll, Member, DigestOf;
    ChildIs(reg, d);
    if Child(reg, d).Some? && depth < 4 {
      var doc := Child(reg, d).value.doc;
      DocumentFitsExactly(reg, doc, depth + 1);
      hide RegistryPlatforms;
      var nested := RegistryPlatforms(reg, doc, depth + 1);
      if nested.Some? {
        forall id | id in m ensures Offers(reg, d, id, 4 - depth) <==> id in nested.value {
          IndexOffers(reg, d, doc.value, id, 4 - depth, nested.value);
        }
      }
    }
  }

  /** Stretch by stretch. */
  lemma {:induction false} EntriesFitExactly(reg: Registry, m: map<string, string>, items: seq<Value>, depth: nat)
    requires depth <= MAX_REGISTRY_DEPTH
    ensures PublicAll(reg, m, items, depth).Some? <==>
            && (forall i | 0 <= i < |items| :: EntryFits(reg, items[i], 4 - depth))
            && NoneTwice(reg, items, 4 - depth)
            && (forall i, id | 0 <= i < |items| && id in m :: !Offers(reg, items[i], id, 4 - depth))
    decreases MAX_REGISTRY_DEPTH + 1 - depth, 2, |items|
  {
    hide PublicOne, EntryFits, Offers;
    if items != [] {
      var d, rest := items[0], items[1..];
      EntryFitsExactly(reg, m, d, depth);
      assert forall i | 0 <= i < |rest| :: rest[i] == items[i + 1];
      assert forall i | 1 <= i < |items| :: items[i] == rest[i - 1];
      if PublicOne(reg, m, d, depth).Some? {
        var m' := PublicOne(reg, m, d, depth).value;
        EntriesFitExactly(reg, m', rest, depth);
        forall id ensures id in m' <==> id in m || Offers(reg, d, id, 4 - depth) {
          OffersAre(reg, m, d, depth, id);
        }
        SplitFirst(reg, m, m', items, depth);
      }
    }
  }

  /** Entries offer nothing twice and nothing known exactly when the first does not, and the others do
      not on top of what the first offers. */
  lemma SplitFirst(reg: Registry, m: map<string, string>, m': map<string, string>, items: seq<Value>, depth: nat)
    requires depth <= 4 && items != []
    requires forall id :: id in m' <==> id in m || Offers(reg, items[0], id, 4 - depth)
    requires forall id | id in m :: !Offers(reg, items[0], id, 4 - depth)
    ensures NoneTwice(reg, items[1..], 4 - depth)
            && (forall i, id | 0 <= i < |items[1..]| && id in m' :: !Offers(reg, items[1..][i], id, 4 - depth)) <==>
            NoneTwice(reg, items, 4 - depth)
            && (forall i, id | 0 <= i < |items| && id in m :: !Offers(reg, items[i], id, 4 - depth))
  {
    hide Offers;
    var rest, levels := items[1..], 4 - depth;
    assert forall i | 0 <= i < |rest| :: rest[i] == items[i + 1];
    if NoneTwice(reg, rest, levels) && forall i, id | 0 <= i < |rest| && id in m' :: !Offers(reg, rest[i], id, levels) {
      forall i, j, id | 0 <= i < j < |items|
        ensures !(Offers(reg, items[i], id, levels) && Offers(reg, items[j], id, levels))
      {
        assert items[j] == rest[j - 1];
        if i > 0 {
          assert items[i] == rest[i - 1];
        } else {
          assert id in m' <==> id in m || Offers(reg, items[0], id, levels);
          assert id in m' ==> !Offers(reg, rest[j - 1], id, levels);
        }
      }
      forall i, id | 0 <= i < |items| && id in m ensures !Offers(reg, items[i], id, levels) {
        if i > 0 {
          assert items[i] == rest[i - 1];
        }
      }
    }
    if NoneTwice(reg, items, levels) &&
       forall i, id | 0 <= i < |items| && id in m :: !Offers(reg, items[i], id, levels)
    {
      forall i, j, id | 0 <= i < j < |rest|
        ensures !(Offers(reg, rest[i], id, levels) && Offers(reg, rest[j], id, levels))
      {
        assert !(Offers(reg, items[i + 1], id, levels) && Offers(reg, items[j + 1], id, levels));
      }
      forall i, id | 0 <= i < |rest| && id in m' ensures !Offers(reg, rest[i], id, levels) {
        assert !Offers(reg, items[0], id, levels) || !Offers(reg, items[i + 1], id, levels);
      }
    }
  }

  /** Main result: the third walk succeeds on a document exactly when every document down to four
      levels below has between 1 and 64 entries, all of them images, attestations or served indexes,
      and no document offers an image twice. */
  lemma {:induction false} DocumentFitsExactly(reg: Registry, doc: Option<Fields>, depth: nat)
    ensures RegistryPlatforms(reg, doc, depth).Some? <==> depth <= 4 && doc.Some? && Fits(reg, doc.value, 4 - depth)
    decreases MAX_REGISTRY_DEPTH + 1 - depth, 3
  {
    hide PublicAll, EntryFits, NoneTwice;
    if depth <= 4 && doc.Some? {
      EntriesFitExactly(reg, map[], ChildrenOf(doc.value), depth);
    }
  }
}
