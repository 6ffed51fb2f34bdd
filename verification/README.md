# xferry release and transfer verification

xferry is a file-transfer server whose release tooling builds a candidate tree, proves that its
container image, archive and documentation are what they claim to be, and publishes it.  This
project models the parts of that code where a mistake is hardest to see, as Dafny programs, and
proves what they guarantee.  `dafny verify dfyconfig.toml` checks all of it.

- **OCI candidates** (`OciLayout`, `OciVerify`, `OciReach`, `OciExactly`, `OciEntries`,
  `OciMeaning`, `OciExample`, `CandidateInventory`).  A candidate carries an OCI layout (OCI Image
  Format Specification, "Content Descriptors" and "Image Layout"): content-addressed indexes,
  manifests, configs, layers and attestation statements.  `_OCI` walks it from `oci/index.json`
  with mutable accumulators, a depth bound and a descriptor budget.  `OciVerify.Verifier` is that
  class; `OciReach` says what its accumulators mean in terms of routes through the graph,
  `OciExactly` and `OciEntries` say which layouts and entries are accepted, in both directions and
  in document fields, and `OciMeaning` says what an accepted layout promises.  `OciExample` is a
  layout that all three walks accept.
- **Two more walks over the same graph** (`RegistrySummary`, `RegistryAgreement`,
  `PublicRegistry`, `SummaryExactly`, `RegistryExactly`).  Publishing to the registry walks the
  layout again without any guard, and checking the public registry walks it a third time over
  HTTP.  The three walkers were written independently; the project proves that they agree, and
  exactly when the second and third succeed and what they return, with and without an earlier
  walk.
- **Candidate archives** (`PathNames`, `PathResolution`, `CandidateArchive`, `ArchiveContents`,
  `CandidateRoundTrip`).  A tree becomes a tar member list and is extracted and chmodded again on
  a file system with permissions.
- **Advanced sessions** (`AdvancedSessions`, `SessionHistory`, `SessionOutcomes`,
  `SessionPrefixes`).  A bounded table of bearer sessions with absolute and idle expiry, collision
  retry and private touch handles.  `SessionOutcomes` gives each operation's result from the
  history alone.
- **Generated regions** (`ByteStrings`, `MarkerLines`, `RegionSplicer`, `RegionBodies`,
  `RenderTargets`, `TargetContents`).  Byte surgery between marker lines, proved to be a
  line-by-line replacement that leaves exactly the generated text between the markers.
- **EUF v1** (`Base64Url`, `EncryptedTransfer`, `EncryptedContexts`).  Chunk arithmetic, canonical
  base64url (sections 3.5 and 5 of RFC 4648), and nonces and contexts (IV construction as in
  section 8.2.1 of NIST SP 800-38D) over an abstract authenticated cipher.
- **Production releases** (`ReleasePages`, `ReleaseState`, `ReleaseRuns`, `ReleaseResults`).
  Draft creation and publication against a paginated release service, with a crash possible around
  any API call.

Code that updates state is a class or a method here and is proved equal to a specification
function; the lemmas are about those functions.  A Python call that raises returns `None` (or
`Raised`, where running out of stack or dying is a third outcome).

Four results contradict what one would expect of the code, and are stated as exact conditions,
each with a concrete input that reaches the failing side:

- A directory its owner may enter but not list is packed as if it were empty, so a pack and unpack
  round trip can silently lose files (`RoundTripExactly`, `UnlistableDirectoryLosesContent`).
- A touch handle of a revoked session refreshes a session minted later under the same token when
  both creations share a clock reading (`StaleHandleIsDead`, `SharedReadingRevivesHandle`).
- A retry of `expose_release` does not see that the first attempt's publication changed the
  assets, so it can succeed where one uninterrupted run would fail (`ExposeRetryConverges`,
  `RetryMissesChangedAssets`).
- A draft that becomes the hundred-thousandth listed release can never be found again
  (`DraftRetryConverges`, `CrowdedDraftIsLost`).

## Assumptions

- `OneCodec`: where both JSON readers of the tooling return an object for the same bytes, it is
  the same object; `Lawful` asks the same of the codec.  `ReadsBack`: the canonical text of a
  tree's own inventory document reads back as that document, as long as it holds no float.
- `Genuine`: a registry document with the same SHA-256 as a local blob parses like that blob.
- `Cipher`'s `Lawful`: decryption under the same key, nonce and context inverts encryption, which
  adds 16 bytes.
- `Honest` and `HubOk`: the release service pages its listings correctly, answers single requests
  from its current state, and never hands out an ID twice.  `republish` stands for whatever
  publishing does to a release's assets; nothing is assumed about it.
- File systems are those of an unprivileged user; the umask leaves the owner write and search
  permission on new directories.

## Model

| member | source | states |
|---|---|---|
| OciReach.BlobsAreReached | tools/candidate_inventory.py:518-545 | In an accepted layout the blobs present are exactly the paths named by a descriptor met on some route from oci/index.json (configs, layers and subjects included), and `used` is that set: nothing unreferenced, nothing missing |
| OciReach.RoutesAreBounded | tools/candidate_inventory.py:339-343 | Below an accepted index every route has at most 33 entries and never meets a digest twice, although shared nodes are allowed |
| OciReach.PlatformsAreReached | tools/candidate_inventory.py:417-431 | The accepted platform map holds a digest for a platform exactly when some route ends at a runnable manifest of that platform with that digest; both platforms are present and their manifests differ |
| OciReach.RunnablesAreVisitedOnce | tools/candidate_inventory.py:417-419 | A platform's runnable manifest is met on one route only |
| OciReach.PredicatesAreReached | tools/candidate_inventory.py:433-516 | A predicate type is recorded for a manifest exactly when some attestation on a route references that manifest and carries it |
| OciReach.Keeps | tools/candidate_inventory.py:339-375 | Any accepted stretch of the walk restores `visiting`, overwrites no platform, loses no blob, attestation or predicate, and stays within the descriptor budget |
| OciReach.NodeSteps | tools/candidate_inventory.py:339-368 | An accepted node is within depth 32, not on its own path, accounts for itself, its subject, config and layers in the budget, and either descends with its digest on the path or records one finding |
| OciReach.VisitingIsThePath | tools/candidate_inventory.py:334-368 | Whenever an accepted walk comes to an entry, `visiting` holds exactly the digests on the route to it, and the entry is accepted at the depth its route's length says |
| OciReach.TrailFresh | tools/candidate_inventory.py:342-344 | While an accepted walk runs, no digest along a route is on the path above it |
| OciReach.RouteAccounted | tools/candidate_inventory.py:303-431 | At the end of every route of an accepted walk the named blobs are used and the finding is recorded, with the depth bound met |
| OciReach.OneRoute | tools/candidate_inventory.py:417-419 | Two routes to runnable manifests of one platform are the same route, from any point of the walk |
| OciReach.DigestDecidesPlatform | tools/candidate_inventory.py:380-416 | Two descriptors of one digest cannot be runnable on different platforms |
| OciExactly.VerifyAcceptsExactly | tools/candidate_inventory.py:518-545 | A layout is accepted if and only if its root is a root index, its graph is bounded (every entry on every route acceptable, at most 33 long, no digest twice, at most 10000 descriptors in all), its images and attestations are complete, and the blobs present are the blobs reached |
| OciExactly.WalkableIsAccepted | tools/candidate_inventory.py:339-375 | From any point of the walk, entries that are fine on all their routes are accepted |
| OciEntries.NestedExactly | tools/candidate_inventory.py:370-375 | An entry is a nested index if and only if it is a sound descriptor of an index document, headed as required, with entries |
| OciEntries.RunnableExactly | tools/candidate_inventory.py:377-431 | An entry is an image for an architecture if and only if it is a sound descriptor of a manifest whose config is for linux on it and carries version and revision, that is no artifact and has no subject, and whose layers are sound tar layers |
| OciEntries.AttestsExactly | tools/candidate_inventory.py:433-516 | An entry is an attestation of a digest, recording a set of predicate types, if and only if it is a sound, annotated unknown/unknown manifest whose subject, if any, is a manifest of that digest and whose layers are all statements about it, with exactly those types |
| OciEntries.StatementIs | tools/candidate_inventory.py:450-516 | A statement is accepted if and only if it has a known type, lists the image by its SHA-256 (or lists nothing, where the attestation names the image itself), and its predicate holds what its type demands |
| OciMeaning.ContentIs | tools/candidate_inventory.py:474-516 | What each predicate type demands of its predicate: SPDX version and packages, CycloneDX components, SLSA build type and builder, with non-blank texts |
| OciMeaning.CheckedDescriptorIs | tools/candidate_inventory.py:303-337 | A descriptor is accepted if and only if it names a local blob by SHA-256 and size, links nowhere, and any inline copy of at most 32 MiB decodes to the blob |
| OciMeaning.BlobsAreContentAddressed | tools/candidate_inventory.py:303-337 | In an accepted layout every blob lies under the SHA-256 of its own bytes |
| OciMeaning.PredicatesAreAttested | tools/candidate_inventory.py:433-516 | Every predicate type recorded for an image is that of a statement in the layout about that image: it lists the image, or lists nothing while the attestation manifest's subject is the image |
| OciMeaning.PlatformsAreImages | tools/candidate_inventory.py:377-431 | Each platform of an accepted layout is the manifest of an image for it, labelled with this version and commit |
| OciExample.ExampleIsAccepted | tools/candidate_inventory.py:518-545 | A layout of two images and two attestations, given by its documents under any distinct digests, is accepted with exactly its platforms and predicates |
| OciExample.SomeLayoutIsAccepted | tools/candidate_inventory.py:518-545 | For every version and commit there is a layout that is accepted |
| OciVerify.Verifier.VerifyLayout | tools/candidate_inventory.py:518-545 | The in-place verifier accepts exactly the layouts the specification accepts, leaves exactly its accumulators, returns its platform map, and never checks more than 10001 descriptors |
| OciVerify.Verifier.CheckDescriptor | tools/candidate_inventory.py:303-337 | A descriptor passes exactly when it is well formed, matches its local blob and inline data, and fits the budget; then exactly its path and one unit of budget are charged |
| OciVerify.Verifier.VisitNode | tools/candidate_inventory.py:339-368 | Success and new state of one node, for any starting state, terminating by depth |
| OciVerify.Verifier.VisitNodes | tools/candidate_inventory.py:370-375 | The loop over an index's entries threads the state through them in order and stops at the first failure |
| OciVerify.Verifier.VisitManifest | tools/candidate_inventory.py:377-431 | Success and new state of one manifest: its descriptors charged and one image or attestation recorded |
| OciVerify.Verifier.VisitAttestation | tools/candidate_inventory.py:433-450 | Success and new state of one attestation, whose subject, when present, must be the referenced manifest |
| OciVerify.Verifier.CheckStatements | tools/candidate_inventory.py:450-516 | The statement loop adds exactly the predicate types of the layers to the reference's set when every layer is a valid statement binding the reference |
| RegistryAgreement.SummaryAgrees | tools/ghcr_publish.py:204-255 | When the inventory walk accepts a layout and the registry summary returns, both hold the same platform map and the same predicate set for every manifest, and the attestation manifests reference exactly the platform manifests |
| RegistryAgreement.SummarySucceedsExactly | tools/ghcr_publish.py:123-255 | On an accepted layout the unguarded walk never needs more than 32 nested calls, and it succeeds if and only if every descriptor on every route states its platform as the content has it and can be read by the second reader; its closing checks then hold |
| RegistryAgreement.Lockstep | tools/ghcr_publish.py:123-201 | From equal findings, both walks over the same entries end with equal findings |
| RegistryAgreement.NoOverflow | tools/ghcr_publish.py:123-166 | Below any accepted stretch at depth d the unguarded walk fits in 32 - d further calls, even where it goes on to fail |
| RegistryAgreement.ExplicitSuffices | tools/ghcr_publish.py:123-201 | Explicit descriptors on all routes are enough for the second walk |
| RegistryAgreement.ExplicitIsNeeded | tools/ghcr_publish.py:123-201 | If the second walk returns, every descriptor on every route was explicit |
| RegistrySummary.Collector.CollectIndex | tools/ghcr_publish.py:123-166 | The recursive collector, filling its dictionaries in place, ends with exactly the specified findings, an error, or an exhausted stack |
| RegistrySummary.Collector.CollectStatements | tools/ghcr_publish.py:169-201 | Success and dictionaries after one attestation: the manifest's digest and all its predicate types are added under the reference |
| PublicRegistry.PublicPlatformsAgree | tools/docs_publication.py:844-887 | Whatever the public registry serves under the published digest, if the third walk accepts it, it yields the platform map of the verified candidate, so the final comparison cannot fail |
| PublicRegistry.PublicSucceedsExactly | tools/docs_publication.py:782-841 | On a candidate both local walks accept, reading the published bytes from a genuine registry succeeds if and only if they parse, no index has more than 64 entries, no route is longer than five, and the registry serves every nested index; platforms add no condition |
| SummaryExactly.SummarizesExactly | tools/ghcr_publish.py:204-255 | On any layout, verified or not, the summary returns if and only if the layout file is right, the root or the index it points at has entries that can all be read within the stack, and the entries that are no index are complete; it returns exactly what those say, the last image of a platform winning, under the digest of the index walked |
| SummaryExactly.EntriesAdd | tools/ghcr_publish.py:123-201 | The recursive collector succeeds if and only if every entry is readable, and adds exactly what the entries that are no index say, in order |
| RegistryExactly.DocumentFitsExactly | tools/docs_publication.py:782-841 | For any registry and document the third walk succeeds if and only if every document down to four levels has 1 to 64 entries, each an image, an attestation or an index served as described, and offers no image twice |
| RegistryExactly.DocumentPublishes | tools/docs_publication.py:782-841 | Where it succeeds it returns exactly the images the document publishes, itself or through indexes served under their digests |
| OciExample.ExampleIsSummarized | tools/ghcr_publish.py:204-255 | The second walk returns on the example, with both images, publishing its index |
| OciExample.ExampleIsPublished | tools/docs_publication.py:782-841 | The third walk finds both images where a genuine registry serves that index |
| PublicRegistry.ServedSuffices | tools/docs_publication.py:782-841 | Descriptors that state their platforms, bounded depth and width, and served indexes are enough for the third walk, from any map without the platforms still to come |
| PublicRegistry.ServedIsNeeded | tools/docs_publication.py:782-841 | If the third walk returns, every entry on every route met those conditions |
| PublicRegistry.PublicLockstep | tools/docs_publication.py:782-841 | The recursive walk that merges maps adds, over any entries, exactly the platforms the inventory walk adds |
| PublicRegistry.ReadPlatforms | tools/docs_publication.py:782-841 | The third walk as coded, with its own depth bound of 4 and 64 entries per index, computes the specified merge or fails |
| CandidateInventory.CreatedIsAccepted | tools/candidate_inventory.py:599-632 | The tree an inventory was just written for is verified, with the same digest, if and only if the inventory is at most 16 MiB, whether or not a digest is expected |
| CandidateInventory.AcceptedIsCreated | tools/candidate_inventory.py:609-632 | A verified tree's inventory is byte for byte what creation writes for the rest of that tree, and the returned digest is creation's |
| CandidateInventory.PreparedPlatformsMatch | tools/ghcr_publish.py:301-320 | After verification, the platform map read back from the inventory file equals the one a second walk finds, so staging never rejects there |
| CandidateInventory.DocumentsAreExact | tools/candidate_inventory.py:548-596 | No inventory document contains a float, so its canonical text is covered by the codec law |
| CandidateInventory.CreatesExactly | tools/candidate_inventory.py:599-606 | For a candidate in order without an inventory the file written is the canonical text of the one document that names the release, every file's size, SHA-256 and mode, and the OCI identity |
| CandidateInventory.OnlyCandidatesAreInventoried | tools/candidate_inventory.py:599-606 | An inventory is created if and only if the candidate is in order and has none, and just the candidates in order have such a document |
| CandidateInventory.VerifiesExactly | tools/candidate_inventory.py:609-632 | An inventory is verified if and only if it has the expected digest, at most 16 MiB, plain permissions, and the bytes of the document that describes this candidate |
| CandidateInventory.AcceptedInventorySays | tools/candidate_inventory.py:609-632 | What is read from an accepted inventory names the release and describes exactly the scanned files; the digest returned is that of its bytes |
| CandidateInventory.EqualInventoriesDescribeEqualTrees | tools/candidate_inventory.py:609-632 | Two accepted candidates with equal inventories have equal file records, tag, commit, run and version |
| CandidateRoundTrip.PackCandidate | tools/candidate_inventory.py:654-677 | Packing succeeds exactly when the archive lies outside the root and can be created, the root is a real directory and every listed entry passes the scan, and it emits exactly one header per listed entry, in sorted order, with its mode and content |
| CandidateRoundTrip.UnpackRestoresListed | tools/candidate_inventory.py:654-729 | Every packed tree validates and extracts, and the result is the listed tree: same names, kinds, permission bits and contents, nothing else |
| CandidateRoundTrip.RoundTripExactly | tools/candidate_inventory.py:146-163 | The round trip restores the whole tree if and only if every directory that holds something can be read by its owner |
| CandidateRoundTrip.UnlistableDirectoryLosesContent | tools/candidate_inventory.py:146-163 | A concrete accepted tree whose file is lost because its directory cannot be listed |
| CandidateRoundTrip.MemberOrderIsIrrelevant | tools/candidate_inventory.py:689-704 | Any permutation of an archive's members validates to the same result, and so extracts to the same tree |
| CandidateRoundTrip.NoFileIsADirectory | tools/candidate_inventory.py:701-704 | In a validated archive only directories lie above other entries |
| ArchiveContents.ValidatesExactly | tools/candidate_inventory.py:689-704 | An archive's members validate if and only if every header is acceptable by itself, no path occurs twice and nothing lies below a file |
| ArchiveContents.UnpackedExactly | tools/candidate_inventory.py:705-729 | The extracted tree has exactly the members' paths and the directories above them, each member with its kind, mode and data, every other directory with the default mode |
| PathResolution.SafeNameIsResolved | tools/candidate_inventory.py:129-143 | A name is safe if and only if it is not empty, has no refused character, and following its pieces from the root, where dots stay and double dots go up, never leaves the root and gives the name back |
| PathResolution.ExtractedNamesStayInside | tools/candidate_inventory.py:689-729 | Every path extraction creates is its own resolution below the extraction root |
| PathResolution.PackedEntriesAre | tools/candidate_inventory.py:146-163 | The scan accepts a tree if and only if every listed entry has such a name, plain permission bits, and is a directory or a readable singly linked file |
| CandidateArchive.UnpackCandidate | tools/candidate_inventory.py:680-729 | Extraction succeeds exactly on regular archives with the expected digest whose members validate and whose files carry their promised size, whatever permissions they ask for, when the root is new or empty before and after; it leaves exactly the described tree |
| CandidateArchive.ValidateMembers | tools/candidate_inventory.py:689-704 | Validation returns the members by path exactly when each is safe, none repeats and no file lies above another entry |
| CandidateArchive.Extract | tools/candidate_inventory.py:709-723 | Creating entries in sorted order never meets a missing or restricted parent; it fails only on a size mismatch |
| CandidateArchive.RestoreModes | tools/candidate_inventory.py:724-726 | Restoring directory modes in reverse order never locks out an entry still to be restored |
| CandidateArchive.MakeDirectory | tools/candidate_inventory.py:711-712 | One directory of the creation loop, with its parents, whatever is already made |
| CandidateArchive.MakeFile | tools/candidate_inventory.py:713-723 | One file of the creation loop: its path is free, its parents usable, and its mode is set at once without affecting anything else |
| CandidateArchive.RestoreMode | tools/candidate_inventory.py:724-726 | One chmod of the last loop succeeds while everything above still has its default mode |
| PathNames.Sorted | tools/candidate_inventory.py:709 | Sorting a set of names gives the one strictly ascending list of exactly those names |
| PathNames.AncestorsSortFirst | tools/candidate_inventory.py:709 | A path sorts before everything below it, so sorted creation makes parents first |
| SessionHistory.EagerMatchesLazy | xferry/advanced_sessions.py:430-440 | Under a non-decreasing clock every call of every run returns what a store that never deletes expired entries returns, capacity and collision outcomes included |
| SessionHistory.ClockRegressionIsObservable | xferry/advanced_sessions.py:430-440 | A run with a clock that goes back where the two stores differ |
| SessionHistory.ReachableTableOk | xferry/advanced_sessions.py:310-452 | In every reachable table, whatever the clock does: at most 64 entries, every key its entry's digest, every absolute limit creation plus 60 minutes |
| SessionHistory.ResolvesExactly | xferry/advanced_sessions.py:364-384 | Under a non-decreasing clock a token resolves for a principal at t exactly when it was created for that principal and not revoked or invalidated since, and creation, successful touches and t form a chain with gaps under 15 minutes, ending under 60 minutes after creation |
| SessionHistory.OthersAreUntouched | xferry/advanced_sessions.py:364-428 | Apart from purging, an operation changes no entry its own token or handle does not name, and creation never lands on a live entry |
| SessionHistory.ForeignSessionsLookAbsent | xferry/advanced_sessions.py:364-422 | To another principal a session answers exactly as if it did not exist, for lookup and revocation |
| SessionHistory.RevokedAtMostOncePerCreation | xferry/advanced_sessions.py:412-422 | Over every run, successful revocations of a digest never outnumber its creations |
| SessionHistory.TouchSucceedsExactly | xferry/advanced_sessions.py:397-410 | A handle refreshes exactly when its digest is live and it carries the reading of the digest's latest creation |
| SessionHistory.StaleHandleIsDead | xferry/advanced_sessions.py:397-410 | If creations of a digest never share a reading, a handle from an earlier creation never refreshes a re-minted session |
| SessionHistory.SharedReadingRevivesHandle | xferry/advanced_sessions.py:397-410 | A run with a shared reading in which an old handle refreshes the new session |
| SessionOutcomes.CreateReturns | xferry/advanced_sessions.py:324-362 | Under a non-decreasing clock creation is refused for capacity if and only if 64 sessions are alive, and otherwise creates the session of the first of at most three draws whose token names nothing alive; how it ends in every other case |
| SessionOutcomes.ResolveReturns | xferry/advanced_sessions.py:364-384 | A lookup finds exactly the owner's living session, with the settings, creation and last use its history says |
| SessionOutcomes.TouchReturns | xferry/advanced_sessions.py:397-410 | A handle refreshes exactly the living session whose creation it carries |
| SessionOutcomes.RevokeReturns | xferry/advanced_sessions.py:412-422 | Revocation returns true exactly for the owner of a living session, whose life ends with it |
| SessionOutcomes.InvalidateReturns | xferry/advanced_sessions.py:424-428 | Invalidation always succeeds, and after it no token resolves for anyone at any time |
| AdvancedSessions.AdvancedSessionStore.Create | xferry/advanced_sessions.py:324-362 | Result and new table: purge, then capacity, then up to three draws until a digest is not live |
| AdvancedSessions.AdvancedSessionStore.Resolve | xferry/advanced_sessions.py:364-384 | Result and new table: the owner's live session, refreshed only when asked |
| AdvancedSessions.AdvancedSessionStore.TouchDispatch | xferry/advanced_sessions.py:397-410 | Result and new table; without a handle neither the clock nor the table is used |
| AdvancedSessions.AdvancedSessionStore.Revoke | xferry/advanced_sessions.py:412-422 | Result and new table: the owner's live session is removed and nothing else |
| AdvancedSessions.AdvancedSessionStore.InvalidateAll | xferry/advanced_sessions.py:424-428 | The table is emptied, unless the clock fails first |
| AdvancedSessions.AdvancedSessionStore.Purge | xferry/advanced_sessions.py:430-440 | Exactly the entries past their absolute or idle limit are removed |
| AdvancedSessions.AdvancedSessionStore.LocateDigest | xferry/advanced_sessions.py:447-452 | In a valid store the full scan finds what dictionary lookup finds |
| SessionPrefixes.MatchesBySegments | xferry/advanced_sessions.py:260-300 | A validated prefix claims a request exactly when its segments are the first segments of the raw path and neither path form is reserved |
| PathResolution.ValidPrefixIsResolved | xferry/advanced_sessions.py:260-283 | A prefix is valid if and only if it is the root, or an absolute path that resolves to itself, without special characters and outside the reserved namespace |
| RegionSplicer.ReplaceGeneratedRegions | tools/render_contracts.py:283-335 | Replacement succeeds if and only if the marker lines are the expected list, the generated keys match and each marker's bytes occur once; the inner order and line-shape checks then never fire, and the result is the line-by-line replacement |
| RegionSplicer.RegionShape | tools/render_contracts.py:308-331 | For the next expected region, the byte searches find exactly the end of its opening line and the start of its closing line, and splicing there is one region of the line-by-line replacement |
| RegionSplicer.OneRegionAgrees | tools/render_settings.py:54-85 | With one region and the same markers, the single-region splicer is the same function, acceptance included |
| RegionBodies.ReplacedBodiesAreGenerated | tools/render_contracts.py:328-335 | After replacement with clean bodies, the k-th body is the text generated for the k-th region without the carriage returns and line feeds at its end, and one line feed |
| RegionBodies.OneRegionIsReplaced | tools/render_contracts.py:283-335 | A document with one region whose markers stand alone on their lines is accepted, and exactly the lines between them become the generated text |
| RegionBodies.MarkerLineIs | tools/render_contracts.py:25 | A line is a marker line if and only if it reads begin or end, any text, the tail and at most one line end |
| RegionBodies.MarkersRead | tools/render_contracts.py:48-55 | The markers of both tools, letter by letter |
| RegionBodies.CountIsOne | tools/render_contracts.py:305-306 | A text is counted once if and only if it stands at one position and nowhere else |
| RenderTargets.ReplacementKeepsFrame | tools/render_contracts.py:328-335 | The document and its replacement are one frame, marker lines and line ends included, woven with the old and the new bodies |
| RenderTargets.SecondWriteAccepted | tools/render_contracts.py:290-306 | A replaced document is accepted again if and only if the generated bodies contained no marker line and no marker text |
| RenderTargets.LastWriteWins | tools/render_contracts.py:283-335 | After clean bodies, replacing again gives what replacing the original with the second bodies gives |
| RenderTargets.NoDriftAfterWrite | tools/render_contracts.py:344-382 | After a write with clean bodies, checking finds no drift on any target |
| RenderTargets.WrittenAt | tools/render_contracts.py:358-366 | With distinct paths, as registered, every target ends with its wanted content |
| RenderTargets.WrittenElsewhere | tools/render_contracts.py:358-366 | A file no drifted target stands for keeps its bytes |
| TargetContents.WantedExactly | tools/render_contracts.py:338-356 | A file gets a wanted content if and only if it can be read, every renderer returns, its marker lines are the regions' pairs in order, and each marker's text stands at one position only |
| TargetContents.WantedHolds | tools/render_contracts.py:338-341 | Where the renderings are clean, the k-th body of the wanted content is the k-th rendering, trimmed at its end and closed by one line feed |
| TargetContents.AcceptsExactly | tools/render_contracts.py:283-306 | A replacement is accepted if and only if the document is ready in that sense and the dictionary has just the regions' names |
| RenderTargets.Checkout.RenderAll | tools/render_contracts.py:344-382 | A failure on any target writes nothing; checking writes nothing and reports drift exactly when a file differs; writing replaces exactly the drifted targets, and raises at the first one that refuses to be opened, with those before it written |
| MarkerLines.SpliceIsWoven | tools/render_contracts.py:328-335 | Replacement changes only the bodies between marker lines |
| MarkerLines.SpliceTwice | tools/render_contracts.py:328-335 | On lines, a second replacement erases an unmarked first one |
| MarkerLines.MarkersOfSplice | tools/render_contracts.py:290-297 | A replaced document has exactly as many more marker lines as its new bodies contain |
| MarkerLines.CountOfSplice | tools/render_contracts.py:305-306 | After a replacement a text is counted exactly as often as in the frame and the new bodies together; the frame holds a marker at least once and no text more often than the document did |
| ByteStrings.UniqueAtLineStart | tools/render_contracts.py:305-309 | Text counted once in a document and standing at a line start is where the byte search finds it |
| EncryptedTransfer.FileRoundTrip | xferry/encrypted_transfer.py:316-350 | Any file of admissible size, split into chunks, encrypted at its indices and decrypted in order, comes back, and the ciphertexts have together exactly the manifest's ciphertext size |
| EncryptedTransfer.ChunkRoundTrip | xferry/encrypted_transfer.py:316-350 | A chunk of the prescribed length encrypts without error, grows by 16 bytes and decrypts to itself at its index |
| EncryptedTransfer.ChunkLengths | xferry/encrypted_transfer.py:55-89 | Every chunk has between 1 and 8 MiB bytes, exactly what its index prescribes, all but the last are full, and together they cover the file |
| EncryptedTransfer.NoncesDistinct | xferry/encrypted_transfer.py:237-238 | All chunk nonces of a file and its metadata nonce are pairwise distinct and 12 bytes long |
| EncryptedTransfer.ChunkContextInjective | xferry/encrypted_transfer.py:197-229 | Equal chunk contexts come from equal file IDs, sizes, counts, indices and lengths, across manifests |
| EncryptedTransfer.MetadataContextInjective | xferry/encrypted_transfer.py:183-194 | Equal metadata contexts come from equal file IDs, sizes and counts |
| EncryptedTransfer.ResumeMessageInjective | xferry/encrypted_transfer.py:353-370 | Equal resume messages come from equal file IDs, indices and plaintexts |
| EncryptedTransfer.DomainsSeparate | xferry/encrypted_transfer.py:33-35 | A metadata context, a chunk context and a resume message are never equal |
| EncryptedTransfer.FileIdInjective | xferry/encrypted_transfer.py:143-149 | Distinct canonical file IDs have distinct bytes |
| EncryptedContexts.ChunkEncryption | xferry/encrypted_transfer.py:316-350 | Encrypting or decrypting a chunk is one call of the cipher, whatever cipher, under the nonce that is the file's prefix and the index in four bytes, and the context that spells file ID, sizes, index and length |
| EncryptedContexts.OnlyChunksAreEncrypted | xferry/encrypted_transfer.py:316-328 | Encryption succeeds if and only if the key has 32 bytes and the plaintext the length of the chunk at the index |
| EncryptedContexts.NoNonceIsReused | xferry/encrypted_transfer.py:237-238 | For a cipher that shows its nonces, equal ciphertexts of one file come from one index |
| EncryptedContexts.CiphertextsAreBound | xferry/encrypted_transfer.py:197-229 | For a cipher that shows its contexts, equal ciphertexts come from one file ID, size, index and length |
| EncryptedContexts.MetadataEncryption | xferry/encrypted_transfer.py:183-194 | The metadata nonce is the prefix and 2^32 - 1, and its context spells the manifest |
| EncryptedContexts.ResumeMessageIs | xferry/encrypted_transfer.py:353-370 | The authenticated resume message spells file ID, index, length and plaintext |
| EncryptedContexts.ManifestIsOkExactly | xferry/encrypted_transfer.py:55-84 | A manifest is valid if and only if it is version 1 for at most 32 GiB in the least number of 8 MiB chunks, with fields of the prescribed lengths |
| Base64Url.DecodeInvertsEncode | xferry/encrypted_transfer.py:119-140 | Decoding inverts encoding on all byte strings |
| Base64Url.DecodeAcceptsCanonical | xferry/encrypted_transfer.py:124-140 | Decoding accepts exactly the alphabet-only texts of length not 1 modulo 4 whose unused bits are zero, and each is the encoding of what it decodes to |
| Base64Url.EncodeKeepsBits | xferry/encrypted_transfer.py:119-121 | Read in the alphabet of section 5 of RFC 4648, an encoding is the bits of the bytes in order, in sixes, filled with zeros, and no character more |
| Base64Url.EncodeInjective | xferry/encrypted_transfer.py:119-121 | Distinct byte strings have distinct encodings |
| Base64Url.DecodeInjective | xferry/encrypted_transfer.py:124-140 | Distinct accepted texts decode to distinct byte strings |
| Base64Url.TokenLength | xferry/advanced_sessions.py:341-345 | 32 random bytes make a 43-character token |
| ReleasePages.PagesReadEverything | tools/production_release_state.py:168-182 | Against an honest server with or without Link, paging returns the whole list in order after floor(n/100)+1 requests when n is below 100000, and from there on fails after 1000 |
| ReleasePages.PagesReadExactly | tools/production_release_state.py:168-182 | Against any server, honest or not, paging returns if and only if the pages up to some page, at most the thousandth, are full with readable headers and that one is not full and names no next page; it returns exactly those pages, joined |
| ReleasePages.LinkSaysExactly | tools/production_release_state.py:150-165 | There is a next page if and only if every header item is well formed, no relation repeats, and the next relation is there with exactly the following page's address |
| ReleasePages.Pages | tools/production_release_state.py:168-182 | The loop's requests and result against any server, honest or not |
| ReleasePages.HasNext | tools/production_release_state.py:150-165 | The header loop rejects malformed or repeated relations and any next address but the exact one |
| ReleaseRuns.RunsAreSafe | tools/production_release_state.py:314-412 | At every moment of every run of both programs, dying around any call, at most one release per tag exists; between any two moments no release, drafted during the run or before, disappears or changes ID, tag, target or place, and one published by the first moment does not change at all |
| ReleaseRuns.DraftRetryConverges | tools/production_release_state.py:314-352 | After an attempt that died anywhere, a fresh attempt ends in the same service state as one uninterrupted attempt, and with the same result if and only if the listing with the new draft is still below 100000 |
| ReleaseRuns.CrowdedDraftIsLost | tools/production_release_state.py:168-203 | A service with 99999 listed releases where an attempt that dies after its POST leaves a draft that a retry fails to find, while one uninterrupted attempt returns it |
| ReleaseRuns.DraftRetriesConverge | tools/production_release_state.py:314-352 | Any number of attempts, then an uninterrupted one, is one uninterrupted attempt: one draft, one ID |
| ReleaseRuns.ExposeRetryConverges | tools/production_release_state.py:361-412 | After an attempt that died anywhere, a fresh attempt leaves the same service state, and returns the same if and only if publishing left the asset identities alone or the assets unreadable |
| ReleaseRuns.ExposeRetriesConverge | tools/production_release_state.py:361-412 | The same for any number of attempts, each dying anywhere, before the uninterrupted one |
| ReleaseRuns.RetryMissesChangedAssets | tools/production_release_state.py:404-412 | A service whose publication adds an asset, where the retry of a died attempt succeeds and one uninterrupted attempt fails |
| ReleaseRuns.ExposeKeepsAssets | tools/production_release_state.py:355-412 | A successful publication returns the bound release as the service holds it, published with the notes, with the asset identities it started from |
| ReleaseResults.DraftSucceedsExactly | tools/production_release_state.py:314-352 | An uninterrupted draft program succeeds if and only if the release is a bound release version on a service listing fewer than 100000 releases, and either no release has the tag and the tag leads to the commit, or the one that has it is that draft already with complete assets; which release it returns |
| ReleaseResults.ExposeSucceedsExactly | tools/production_release_state.py:361-412 | An uninterrupted publication succeeds if and only if the release with the ID is the bound one with complete assets and is a draft whose assets publishing leaves alone, or is published with these notes; what it returns |
| ReleaseResults.DraftReturnsBound | tools/production_release_state.py:233-258 | A release the draft program returns has the tag, the commit and the notes, and is an unpublished full release |
| ReleaseResults.ExposeReturnsBound | tools/production_release_state.py:233-258 | A release the publishing program returns has the ID, tag, commit and notes, and is a published full release |
| ReleaseRuns.AbsenceIsAuthoritative | tools/production_release_state.py:185-203 | When the search returns nothing, no release of the service has the tag |
| ReleaseRuns.TagVerifiedExactly | tools/production_release_state.py:289-311 | A tag is accepted exactly when at most fifteen annotated tags lead from it to the bound commit |
| ReleaseRuns.DraftEffect | tools/production_release_state.py:314-352 | Draft creation changes the service only by one new draft for a tag no release has |
| ReleaseRuns.ExposeEffect | tools/production_release_state.py:361-412 | Publication changes the service only by publishing the one draft it is bound to |
| ReleaseRuns.DraftCalls | tools/production_release_state.py:314-352 | 2019 calls always suffice, and any number that suffices leads to the same service state and result |
| ReleaseRuns.ListingIsPaging | tools/production_release_state.py:168-182 | The listing step the programs use is paging against any honest server, call for call |
| ReleaseState.Operator.Ensure | tools/production_release_state.py:314-352 | Service state, result and calls used by the draft program, dying included |
| ReleaseState.Operator.Publish | tools/production_release_state.py:361-412 | Service state, result and calls used by the publishing program, dying included |
| ReleaseState.Operator.Find | tools/production_release_state.py:185-203 | The one listed release with the tag, none, or an error for repeated IDs, malformed entries or two matches |
| ReleaseState.Operator.CheckTag | tools/production_release_state.py:289-311 | The tag chase as a loop of at most 16 objects, rejecting answers about another tag or tag object |
| ReleaseState.Operator.Read | tools/production_release_state.py:261-286 | The bound release with complete, distinct assets, or an error |
| ReleaseState.Operator.CheckAssets | tools/production_release_state.py:206-230 | The asset loop accepts exactly complete assets whose IDs and names are distinct |

## Left out

- Cryptography: SHA-256, AES-GCM, PBKDF2, HKDF and HMAC are abstract functions; key derivation, metadata encryption and resume-MAC comparison are not modelled.
- JSON text, tar bytes and HTTP: the model starts from parsed documents, member lists and responses. A Link header starts from its items, matched against the header pattern or malformed.
- `_python`, `_scie`, `_installer`, the identity validators and the exact set of candidate files and directories are one abstract predicate of the tree, `artifactsOk`; `version_from_tag` is the flag `tagOk`.
- Exceptions are not told apart; only whether a call raises is modelled.
- CandidateRoundTrip.PackCandidate: the scan and the reading happen at one instant; a tree that changes while it is packed is not modelled, nor is a directory listing that fails for a reason other than permission.
- CandidateArchive.UnpackCandidate: the tree is built in a temporary directory and renamed into place; operating-system failures in making or renaming that directory are not modelled.
- RenderTargets.Checkout.RenderAll: a write that opens its file and then fails half-way is not modelled.
- RegistryAgreement.SummarySucceedsExactly: Python's recursion limit is modelled as a number of further frames, counting one per nested index.
- AdvancedSessions: the lock makes each operation one step; datetime overflow and tokens that cannot be encoded as UTF-8 are not modelled.
- EncryptedTransfer: chunk arguments of the wrong Python type are ruled out by the types.
- ReleaseState: requests are answered or fail at once; a service that answers from stale state, or another operator changing the service at the same time, is not modelled.
- The rendering functions, the command lines, `normalize_oci_export`, the restore drill, probes, workflow and documentation policies, and the paging loops of `tools/docs_publication.py` are not modelled.
