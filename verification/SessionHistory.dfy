/** What runs of the session store guarantee: bounds that hold in every reachable table, the
    refinement to a store that never deletes expired entries, and a history-only account of
    when a token resolves. */
module SessionHistory {
  import opened Wrappers
  import opened ByteStrings
  import opened Base64Url
  import opened AdvancedSessions

  // ----- every reachable table

  ghost predicate TableOk(m: Table) {
    && |m| <= 64
    && (forall d | d in m :: m[d].tokenDigest == d)
    && (forall d | d in m :: m[d].session.expiresAt == m[d].session.createdAt + 60 * 60 * 1_000_000)
  }

  lemma FewerEntries(small: Table, big: Table)
    requires small.Keys <= big.Keys
    ensures |small| <= |big|
    decreases |small|
  {
    if small != map[] {
      var d :| d in small;
      assert |small - {d}| == |small| - 1 by { assert (small - {d}).Keys == small.Keys - {d}; }
      assert |big - {d}| == |big| - 1 by { assert (big - {d}).Keys == big.Keys - {d}; }
      FewerEntries(small - {d}, big - {d});
    }
  }

  /** Whatever the clock does, a run never holds more than 64 entries, keys every entry by its
      own digest, and fixes each absolute limit at creation. */
  lemma {:induction false} ReachableTableOk(h: Hash, calls: seq<Call>)
    ensures TableOk(Run(h, calls))
  {
    if calls != [] {
      var last, before := calls[|calls| - 1], Run(h, calls[..|calls| - 1]);
      ReachableTableOk(h, calls[..|calls| - 1]);
      if ReadsClock(last.op) && last.clock.Some? {
        var live := Live(before, last.clock.value);
        FewerEntries(live, before);
        var effect := Answer(h, live, last.op, last.clock.value).1;
        FewerEntries(Apply(live, effect), if effect.Put? then live[effect.digest := effect.entry] else live);
        assert effect.Put? && effect.digest in live ==> Apply(live, effect).Keys == live.Keys;
      }
    }
  }

  // ----- a store that never purges

  /** The same operation on a store that keeps expired entries and filters them on read. */
  function LazyStep(h: Hash, m: Table, op: Op, clock: Option<int>): (Table, Result) {
    if !ReadsClock(op) then (m, Missing)
    else if clock.None? then (m, BadClock)
    else
      var (result, effect) := Answer(h, Live(m, clock.value), op, clock.value);
      (Apply(m, effect), result)
  }

  function LazyRun(h: Hash, calls: seq<Call>): Table {
    if calls == [] then map[] else
    var last := calls[|calls| - 1];
    LazyStep(h, LazyRun(h, calls[..|calls| - 1]), last.op, last.clock).0
  }

  function LazyLastResult(h: Hash, calls: seq<Call>): Result
    requires calls != []
  {
    var last := calls[|calls| - 1];
    LazyStep(h, LazyRun(h, calls[..|calls| - 1]), last.op, last.clock).1
  }

  /** The clock reading a call made, if it made one. */
  function Reading(c: Call): Option<int> {
    if ReadsClock(c.op) then c.clock else None
  }

  /** No reading of the run is later than t. */
  ghost predicate ReadBy(calls: seq<Call>, t: int) {
    forall i | 0 <= i < |calls| :: Reading(calls[i]).Some? ==> Reading(calls[i]).value <= t
  }

  ghost predicate NonDecreasing(calls: seq<Call>) {
    forall i, j | 0 <= i < j < |calls| ::
      Reading(calls[i]).Some? && Reading(calls[j]).Some? ==> Reading(calls[i]).value <= Reading(calls[j]).value
  }

  lemma NonDecreasingPrefix(calls: seq<Call>)
    requires calls != [] && NonDecreasing(calls)
    ensures NonDecreasing(calls[..|calls| - 1])
    ensures var r := Reading(calls[|calls| - 1]); r.Some? ==> ReadBy(calls[..|calls| - 1], r.value)
  {
    var n := |calls| - 1;
    var before := calls[..n];
    forall i | 0 <= i < n ensures before[i] == calls[i] {
    }
    if Reading(calls[n]).Some? {
      forall i | 0 <= i < n && Reading(before[i]).Some? ensures Reading(before[i]).value <= Reading(calls[n]).value {
        assert before[i] == calls[i];
      }
    }
  }

  /** One effect keeps the two stores alike at every later time. */
  lemma EffectKeepsLive(m: Table, z: Table, effect: Effect, now: int, t: int)
    requires Live(m, now) == Live(z, now) && now <= t
    ensures Live(Apply(Live(m, now), effect), t) == Live(Apply(z, effect), t)
  {
    var a, b := Apply(Live(m, now), effect), Apply(z, effect);
    forall d ensures d in Live(a, t) <==> d in Live(b, t) {
      assert d in Live(m, now) <==> d in Live(z, now);
    }
    forall d | d in Live(a, t) ensures Live(a, t)[d] == Live(b, t)[d] {
      assert d in Live(m, now) ==> Live(m, now)[d] == Live(z, now)[d];
    }
  }

  lemma {:induction false} SameLive(h: Hash, calls: seq<Call>, t: int)
    requires NonDecreasing(calls) && ReadBy(calls, t)
    ensures Live(Run(h, calls), t) == Live(LazyRun(h, calls), t)
  {
    hide Live, Answer, Apply;
    if calls != [] {
      var last, rest := calls[|calls| - 1], calls[..|calls| - 1];
      NonDecreasingPrefix(calls);
      if Reading(last).Some? {
        assert Reading(calls[|calls| - 1]).value <= t;
        SameLive(h, rest, last.clock.value);
        EffectKeepsLive(Run(h, rest), LazyRun(h, rest),
                        Answer(h, Live(Run(h, rest), last.clock.value), last.op, last.clock.value).1,
                        last.clock.value, t);
      } else {
        assert forall i | 0 <= i < |rest| :: rest[i] == calls[i];
        SameLive(h, rest, t);
      }
    }
  }

  /** Main result: under a non-decreasing clock, deleting expired entries eagerly cannot be
      observed.  Every call of every run returns what the store that never deletes them returns,
      capacity and collision outcomes included. */
  lemma EagerMatchesLazy(h: Hash, calls: seq<Call>, k: nat)
    requires NonDecreasing(calls) && 0 < k <= |calls|
    ensures LastResult(h, calls[..k]) == LazyLastResult(h, calls[..k])
  {
    hide Live, Answer, Apply;
    var run := calls[..k];
    assert forall i | 0 <= i < k :: run[i] == calls[i];
    NonDecreasingPrefix(run);
    if Reading(run[k - 1]).Some? {
      SameLive(h, run[..k - 1], Reading(run[k - 1]).value);
    }
  }

  /** The clock assumption is needed: when a reading goes back, an entry that was deleted on
      time stays gone, while the other store would still find it. */
  lemma ClockRegressionIsObservable(h: Hash, data: Bytes, s: Settings)
    requires |data| == TOKEN_BYTES
    ensures var token := Some(Encode(data));
            var calls := [Call(Create(s, NoAuth, [data]), Some(0)),
                          Call(Resolve(token, NoAuth, false), Some(IDLE_TIMEOUT)),
                          Call(Resolve(token, NoAuth, false), Some(0))];
            LastResult(h, calls) == Missing && LazyLastResult(h, calls) == Found(NewSession(s, 0))
  {
    var token := Some(Encode(data));
    var calls := [Call(Create(s, NoAuth, [data]), Some(0)),
                  Call(Resolve(token, NoAuth, false), Some(IDLE_TIMEOUT)),
                  Call(Resolve(token, NoAuth, false), Some(0))];
    var d := h(token.value);
    var entry := Stored(d, NewSession(s, 0), NoAuth);
    assert calls[..2][..1] == calls[..1] && calls[..1][..0] == [];
    assert Live(map[], 0) == map[];
    assert Run(h, calls[..1]) == map[d := entry] == LazyRun(h, calls[..1]);
    assert Live(map[d := entry], IDLE_TIMEOUT) == map[];
    assert Run(h, calls[..2]) == map[] && LazyRun(h, calls[..2]) == map[d := entry];
    assert Live(map[d := entry], 0) == map[d := entry];
  }

  // ----- a token's life, read off the calls and their results alone

  /** Who created the session a digest currently stands for, and when it was used since. */
  datatype Life = Life(principal: Principal, settings: Settings, uses: seq<int>)

  /** The digest a call's token or handle names. */
  function Names(h: Hash, op: Op): Option<Digest> {
    match op
    case Create(_, _, _) => None
    case Resolve(token, _, _) => if token.Some? then Some(h(token.value)) else None
    case TouchDispatch(handle) => if handle.Some? then Some(handle.value.tokenDigest) else None
    case Revoke(token, _) => if token.Some? then Some(h(token.value)) else None
    case InvalidateAll => None
  }

  predicate Touches(op: Op) {
    op.TouchDispatch? || (op.Resolve? && op.touch)
  }

  /** The last call's reading, for a call that returned something only a reading can produce. */
  function ReadingOr0(c: Call): int {
    if Reading(c).Some? then Reading(c).value else 0
  }

  /** One call's mark on a digest's life: creation starts it, a successful touch extends it, a
      successful revocation or invalidation ends it, and everything else leaves it alone. */
  function Marked(h: Hash, before: Option<Life>, c: Call, result: Result, d: Digest): Option<Life> {
    match result
    case Created(token, _) =>
      if c.op.Create? && h(token) == d then Some(Life(c.op.principal, c.op.settings, [ReadingOr0(c)])) else before
    case Found(_) =>
      if Touches(c.op) && Names(h, c.op) == Some(d) && before.Some?
      then Some(before.value.(uses := before.value.uses + [ReadingOr0(c)])) else before
    case Revoked(done) => if done && Names(h, c.op) == Some(d) then None else before
    case Cleared => None
    case _ => before
  }

  function LifeOf(h: Hash, calls: seq<Call>, d: Digest): Option<Life> {
    if calls == [] then None else
    Marked(h, LifeOf(h, calls[..|calls| - 1], d), calls[|calls| - 1], LastResult(h, calls), d)
  }

  /** Each use comes less than 15 minutes after the one before it and less than an hour after
      the first. */
  ghost predicate Unbroken(uses: seq<int>) {
    var n := |uses|;
    n > 1 ==>
      && uses[n - 1] < uses[n - 2] + 15 * 60 * 1_000_000
      && uses[n - 1] < uses[0] + 60 * 60 * 1_000_000
      && Unbroken(uses[..n - 1])
  }

  lemma UnbrokenAppend(uses: seq<int>, t: int)
    requires uses != []
    ensures Unbroken(uses + [t]) <==>
            Unbroken(uses) && t < uses[|uses| - 1] + IDLE_TIMEOUT && t < uses[0] + ABSOLUTE_LIFETIME
  {
    assert (uses + [t])[..|uses|] == uses;
  }

  /** The table entry a life stands for. */
  function EntryOf(life: Life, d: Digest): Stored
    requires life.uses != []
  {
    Stored(d, Session(life.settings, life.uses[0], life.uses[0] + 60 * 60 * 1_000_000, life.uses[|life.uses| - 1]),
           life.principal)
  }

  /** At a time t no earlier than the run's readings: the digest's entry is live exactly when
      its life, used once more at t, is unbroken. */
  ghost predicate Tracks(h: Hash, calls: seq<Call>, d: Digest, t: int) {
    var live, life := Live(Run(h, calls), t), LifeOf(h, calls, d);
    && (life.Some? ==> life.value.uses != [])
    && (d in live <==> life.Some? && Unbroken(life.value.uses + [t]))
    && (d in live ==> live[d] == EntryOf(life.value, d))
  }

  /** Idling from now to t only lets sessions lapse, on both accounts alike. */
  lemma TracksIdle(h: Hash, calls: seq<Call>, d: Digest, now: int, t: int)
    requires now <= t && Tracks(h, calls, d, now)
    ensures Tracks(h, calls, d, t)
  {
    hide Run, LifeOf, Unbroken;
    var life := LifeOf(h, calls, d);
    if life.Some? {
      UnbrokenAppend(life.value.uses, now);
      UnbrokenAppend(life.value.uses, t);
    }
  }

  /** A created session is live from its creation on for as long as one idle period. */
  lemma OneUse(now: int, t: int)
    ensures Unbroken([now] + [t]) <==> t < now + IDLE_TIMEOUT
  {
    UnbrokenAppend([now], t);
  }

  /** The mark a call leaves on a life is the effect it has on the digest's entry. */
  ghost predicate MarkIsEffect(live: Table, c: Call, effect: Effect, now: int, d: Digest, before: Option<Life>,
                               after: Option<Life>) {
    match effect
    case Put(e, entry) =>
      if e != d then after == before
      else if c.op.Create? then
        after == Some(Life(c.op.principal, c.op.settings, [now])) && entry == EntryOf(after.value, d)
      else
        && d in live && entry == Touched(live[d], now)
        && after == (if before.Some? then Some(before.value.(uses := before.value.uses + [now])) else None)
    case Remove(e) => after == if e == d then None else before
    case RemoveAll => after == None
    case Keep => after == before
  }

  lemma CallMarks(h: Hash, live: Table, c: Call, now: int, d: Digest, before: Option<Life>)
    requires Reading(c) == Some(now)
    ensures var (result, effect) := Answer(h, live, c.op, now);
            MarkIsEffect(live, c, effect, now, d, before, Marked(h, before, c, result, d))
  {
    hide Mint;
  }

  /** One call at `now` keeps the two accounts together at `now`. */
  lemma TracksCall(h: Hash, calls: seq<Call>, d: Digest, now: int)
    requires calls != [] && Reading(calls[|calls| - 1]) == Some(now)
    requires Tracks(h, calls[..|calls| - 1], d, now)
    ensures Tracks(h, calls, d, now)
  {
    hide Unbroken, Marked, Answer, Live;
    var rest, c := calls[..|calls| - 1], calls[|calls| - 1];
    var before, after := LifeOf(h, rest, d), LifeOf(h, calls, d);
    var live := Live(Run(h, rest), now);
    CallMarks(h, live, c, now, d, before);
    LiveAgain(Run(h, rest), now, Answer(h, live, c.op, now).1, d);
    OneUse(now, now);
    if before.Some? {
      UnbrokenAppend(before.value.uses, now);
      UnbrokenAppend(before.value.uses + [now], now);
    }
  }

  /** Reading the table again at the same time drops only what the effect wrote already expired. */
  lemma LiveAgain(m: Table, now: int, effect: Effect, d: Digest)
    ensures var live := Live(m, now);
            var again := Live(Apply(live, effect), now);
            match effect
            case Put(e, entry) =>
              if e == d then (d in again <==> !Expired(entry.session, now)) && (d in again ==> again[d] == entry)
              else (d in again <==> d in live) && (d in again ==> again[d] == live[d])
            case Remove(e) => d != e ==> (d in again <==> d in live) && (d in again ==> again[d] == live[d])
            case RemoveAll => d !in again
            case Keep => (d in again <==> d in live) && (d in again ==> again[d] == live[d])
    ensures effect.Remove? && effect.digest == d ==> d !in Live(Apply(Live(m, now), effect), now)
  {
  }

  lemma {:induction false} RunTracks(h: Hash, calls: seq<Call>, d: Digest, t: int)
    requires NonDecreasing(calls) && ReadBy(calls, t)
    ensures Tracks(h, calls, d, t)
  {
    hide Unbroken, Tracks, Answer, Mint, Marked;
    if calls == [] {
      assert Tracks(h, calls, d, t) by { EmptyTracks(h, d, t); }
    } else {
      var rest, c := calls[..|calls| - 1], calls[|calls| - 1];
      NonDecreasingPrefix(calls);
      if Reading(c).Some? {
        assert Reading(calls[|calls| - 1]).value <= t;
        RunTracks(h, rest, d, Reading(c).value);
        TracksCall(h, calls, d, Reading(c).value);
        TracksIdle(h, calls, d, Reading(c).value, t);
      } else {
        assert forall i | 0 <= i < |rest| :: rest[i] == calls[i];
        RunTracks(h, rest, d, t);
        UnreadCallTracks(h, calls, d, t);
      }
    }
  }

  lemma EmptyTracks(h: Hash, d: Digest, t: int)
    ensures Tracks(h, [], d, t)
  {
  }

  lemma UnreadCallTracks(h: Hash, calls: seq<Call>, d: Digest, t: int)
    requires calls != [] && Reading(calls[|calls| - 1]).None?
    requires Tracks(h, calls[..|calls| - 1], d, t)
    ensures Tracks(h, calls, d, t)
  {
    hide Unbroken;
  }

  /** Main result: under a non-decreasing clock, a token resolves for a principal at t exactly
      when its history says so: it was created for that principal and not revoked or invalidated
      since, and creation, successful touches and t are an unbroken chain of uses. */
  lemma ResolvesExactly(h: Hash, calls: seq<Call>, token: string, principal: Principal, t: int)
    requires NonDecreasing(calls) && ReadBy(calls, t)
    ensures var result := Step(h, Run(h, calls), Resolve(Some(token), principal, false), Some(t)).1;
            var life := LifeOf(h, calls, h(token));
            if life.Some? && life.value.principal == principal && Unbroken(life.value.uses + [t])
            then life.value.uses != [] && result == Found(EntryOf(life.value, h(token)).session)
            else result == Missing
  {
    hide Unbroken, Run, LifeOf;
    RunTracks(h, calls, h(token), t);
  }

  // ----- isolation, revocation and stale handles

  /** Apart from purging, an operation leaves every entry alone that its own token or handle
      does not name; creating a session never lands on a live entry. */
  lemma OthersAreUntouched(h: Hash, m: Table, op: Op, now: int, d: Digest)
    requires !op.InvalidateAll? && Names(h, op) != Some(d)
    requires op.Create? ==> d in Live(m, now)
    ensures var after := Step(h, m, op, Some(now)).0;
            var before := if ReadsClock(op) then Live(m, now) else m;
            (d in after <==> d in before) && (d in after ==> after[d] == before[d])
  {
    hide Live;
    if op.Create? {
      MintIsFresh(h, Live(m, now), op.draws, 0);
    }
  }

  lemma {:induction false} MintIsFresh(h: Hash, live: Table, draws: seq<Bytes>, attempt: nat)
    ensures Mint(h, live, draws, attempt).Fresh? ==> h(Mint(h, live, draws, attempt).token) !in live
    decreases MAX_COLLISION_ATTEMPTS - attempt
  {
    if attempt < MAX_COLLISION_ATTEMPTS && attempt < |draws| {
      MintIsFresh(h, live, draws, attempt + 1);
    }
  }

  /** For anyone but its owner, a live session is indistinguishable from one that does not exist:
      lookups and revocations return what they return when the entry is absent, and only purge. */
  lemma ForeignSessionsLookAbsent(h: Hash, m: Table, op: Op, now: int, d: Digest)
    requires op.Resolve? || op.Revoke?
    requires Names(h, op) == Some(d) && d in m && m[d].principal != op.principal
    ensures Step(h, m, op, Some(now)).1 == Step(h, m - {d}, op, Some(now)).1
    ensures Step(h, m, op, Some(now)).0 == Live(m, now)
  {
  }

  /** The readings at which a run created sessions under a digest. */
  function Creations(h: Hash, calls: seq<Call>, d: Digest): seq<int> {
    if calls == [] then [] else
    var before := Creations(h, calls[..|calls| - 1], d);
    if Creates(h, LastResult(h, calls), d) then before + [LastResult(h, calls).session.createdAt] else before
  }

  function Revocations(h: Hash, calls: seq<Call>, d: Digest): nat {
    if calls == [] then 0 else
    Revocations(h, calls[..|calls| - 1], d) +
    (if Revokes(h, calls[|calls| - 1].op, LastResult(h, calls), d) then 1 else 0)
  }

  predicate Creates(h: Hash, r: Result, d: Digest) {
    r.Created? && h(r.token) == d
  }

  predicate Revokes(h: Hash, op: Op, r: Result, d: Digest) {
    op.Revoke? && Names(h, op) == Some(d) && r == Revoked(true)
  }

  /** Only a creation puts a digest in the table, only with its own creation reading, and a
      revocation that succeeds takes it out. */
  lemma OneCall(h: Hash, m: Table, op: Op, clock: Option<int>, d: Digest)
    ensures var (m', r) := Step(h, m, op, clock);
            && (Creates(h, r, d) ==> !op.Revoke? && (d in m' ==> m'[d].session.createdAt == r.session.createdAt))
            && (Revokes(h, op, r, d) ==> d in m && d !in m')
            && (d in m' && !Creates(h, r, d) ==> d in m && m'[d].session.createdAt == m[d].session.createdAt)
  {
    hide Mint;
  }

  lemma {:induction false} CreationsCover(h: Hash, calls: seq<Call>, d: Digest)
    ensures var m, created := Run(h, calls), Creations(h, calls, d);
            && (d in m ==> created != [] && m[d].session.createdAt == created[|created| - 1])
            && Revocations(h, calls, d) + (if d in m then 1 else 0) <= |created|
  {
    hide Step;
    if calls != [] {
      var rest, c := calls[..|calls| - 1], calls[|calls| - 1];
      CreationsCover(h, rest, d);
      OneCall(h, Run(h, rest), c.op, c.clock, d);
    }
  }

  /** Revocation succeeds at most once per creation, over every run and whatever the clock does. */
  lemma RevokedAtMostOncePerCreation(h: Hash, calls: seq<Call>, d: Digest)
    ensures Revocations(h, calls, d) <= |Creations(h, calls, d)|
  {
    CreationsCover(h, calls, d);
  }

  /** A touch handle refreshes a session exactly when the digest is live and the handle carries
      the reading of the digest's latest creation. */
  lemma TouchSucceedsExactly(h: Hash, calls: seq<Call>, handle: Handle, now: int)
    ensures var created := Creations(h, calls, handle.tokenDigest);
            Step(h, Run(h, calls), TouchDispatch(Some(handle)), Some(now)).1.Found? <==>
            && handle.tokenDigest in Live(Run(h, calls), now)
            && created != [] && created[|created| - 1] == handle.createdAt
  {
    CreationsCover(h, calls, handle.tokenDigest);
  }

  /** So when creations of a digest never share a reading, a handle from an earlier creation
      never refreshes a session minted again under the same token. */
  lemma StaleHandleIsDead(h: Hash, calls: seq<Call>, d: Digest, i: nat, now: int)
    requires var created := Creations(h, calls, d);
             && i < |created| - 1
             && forall j, k | 0 <= j < k < |created| :: created[j] != created[k]
    ensures Step(h, Run(h, calls), TouchDispatch(Some(Handle(d, Creations(h, calls, d)[i]))), Some(now)).1 == Missing
  {
    TouchSucceedsExactly(h, calls, Handle(d, Creations(h, calls, d)[i]), now);
  }

  /** The proviso is needed: a session revoked and minted again at the same reading is refreshed
      by the handle of the first one. */
  lemma SharedReadingRevivesHandle(h: Hash, data: Bytes, s: Settings)
    requires |data| == TOKEN_BYTES
    ensures var d := h(Encode(data));
            var create := Call(Create(s, NoAuth, [data]), Some(0));
            var calls := [create, Call(Revoke(Some(Encode(data)), NoAuth), Some(0)), create];
            && Creations(h, calls, d) == [0, 0]
            && Step(h, Run(h, calls), TouchDispatch(Some(Handle(d, Creations(h, calls, d)[0]))), Some(1)).1.Found?
  {
    var d := h(Encode(data));
    var create, revoke := Call(Create(s, NoAuth, [data]), Some(0)), Call(Revoke(Some(Encode(data)), NoAuth), Some(0));
    var calls := [create, revoke, create];
    var entry := Stored(d, NewSession(s, 0), NoAuth);
    assert calls[..3] == calls && calls[..2] == [create, revoke] && calls[..2][..1] == [create] && [create][..0] == [];
    assert Live(map[], 0) == map[] && Live(map[d := entry], 0) == map[d := entry];
    assert LastResult(h, [create]) == Created(Encode(data), NewSession(s, 0));
    assert Run(h, [create]) == map[d := entry] && Creations(h, [create], d) == [0];
    assert Run(h, calls[..2]) == map[] && Creations(h, calls[..2], d) == [0];
    assert LastResult(h, calls) == Created(Encode(data), NewSession(s, 0));
    assert Run(h, calls) == map[d := entry] && Creations(h, calls, d) == [0, 0];
  }
}
