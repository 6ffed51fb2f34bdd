/** What every operation of the session store returns, said in terms of the calls made so far and
    what they returned, and never in terms of the table. */
module SessionOutcomes {
  import opened Wrappers
  import opened ByteStrings
  import opened Base64Url
  import opened AdvancedSessions
  import opened SessionHistory

  /** The digests a run created sessions under. */
  function Made(h: Hash, calls: seq<Call>): set<Digest> {
    if calls == [] then {} else
    Made(h, calls[..|calls| - 1]) +
    (match LastResult(h, calls)
     case Created(token, _) => {h(token)}
     case _ => {})
  }

  /** Used once more at t, the digest's life is unbroken. */
  ghost predicate Alive(h: Hash, calls: seq<Call>, d: Digest, t: int) {
    LifeOf(h, calls, d).Some? && Unbroken(LifeOf(h, calls, d).value.uses + [t])
  }

  ghost function AliveAt(h: Hash, calls: seq<Call>, t: int): set<Digest> {
    set d | d in Made(h, calls) && Alive(h, calls, d, t)
  }

  lemma {:induction false} LivesAreMade(h: Hash, calls: seq<Call>, d: Digest)
    requires LifeOf(h, calls, d).Some?
    ensures d in Made(h, calls)
  {
    hide Run, Step;
    if calls != [] && d !in Made(h, calls[..|calls| - 1]) {
      if LifeOf(h, calls[..|calls| - 1], d).Some? {
        LivesAreMade(h, calls[..|calls| - 1], d);
      }
    }
  }

  /** The live table holds exactly the living. */
  lemma LiveIsAlive(h: Hash, calls: seq<Call>, t: int)
    requires NonDecreasing(calls) && ReadBy(calls, t)
    ensures Live(Run(h, calls), t).Keys == AliveAt(h, calls, t)
  {
    hide Run, LifeOf, Unbroken, Live, NonDecreasing, ReadBy;
    forall d ensures d in Live(Run(h, calls), t) <==> d in AliveAt(h, calls, t) {
      RunTracks(h, calls, d, t);
      if Alive(h, calls, d, t) {
        LivesAreMade(h, calls, d);
      }
    }
  }

  lemma FewAreAlive(h: Hash, calls: seq<Call>, t: int)
    requires NonDecreasing(calls) && ReadBy(calls, t)
    ensures |AliveAt(h, calls, t)| <= 64
    ensures |Live(Run(h, calls), t)| == |AliveAt(h, calls, t)|
  {
    hide Run, AliveAt, NonDecreasing, ReadBy;
    LiveIsAlive(h, calls, t);
    ReachableTableOk(h, calls);
    FewerEntries(Live(Run(h, calls), t), Run(h, calls));
  }

  /** A draw of 32 bytes whose token names something alive. */
  predicate Taken(h: Hash, alive: set<Digest>, draw: Bytes) {
    |draw| == 32 && h(Encode(draw)) in alive
  }

  /** The k-th draw is the first whose token is free, and it is one of the first three. */
  predicate FirstFree(h: Hash, alive: set<Digest>, draws: seq<Bytes>, k: nat) {
    && k < 3 && k < |draws|
    && (forall j | 0 <= j < k :: Taken(h, alive, draws[j]))
    && |draws[k]| == 32 && h(Encode(draws[k])) !in alive
  }

  lemma {:induction false} MintIs(h: Hash, live: Table, draws: seq<Bytes>, attempt: nat)
    requires attempt <= 3 && attempt <= |draws|
    requires forall j | 0 <= j < attempt :: Taken(h, live.Keys, draws[j])
    ensures var m := Mint(h, live, draws, attempt);
            && (m.Collided? <==> |draws| >= 3 && forall j | 0 <= j < 3 :: Taken(h, live.Keys, draws[j]))
            && (m.Fresh? <==> exists k: nat :: FirstFree(h, live.Keys, draws, k))
            && forall k: nat | FirstFree(h, live.Keys, draws, k) :: m == Fresh(Encode(draws[k]))
    decreases 3 - attempt
  {
    hide Encode;
    if attempt < 3 && attempt < |draws| {
      if Taken(h, live.Keys, draws[attempt]) {
        MintIs(h, live, draws, attempt + 1);
      } else {
        assert FirstFree(h, live.Keys, draws, attempt) <==> |draws[attempt]| == 32;
        forall k: nat | FirstFree(h, live.Keys, draws, k) ensures k == attempt {
        }
      }
    }
  }

  /** The session created at a reading: one absolute hour, and last used now. */
  function Newborn(settings: Settings, t: int): Session {
    Session(settings, t, t + 60 * 60 * 1_000_000, t)
  }

  /** How a creation ends, given what is alive. */
  ghost predicate CreateEnds(h: Hash, alive: set<Digest>, settings: Settings, draws: seq<Bytes>, t: int,
                             result: Result) {
    && (result == CapacityExhausted <==> |alive| == 64)
    && (result.Created? <==> |alive| < 64 && exists k: nat :: FirstFree(h, alive, draws, k))
    && (forall k: nat | FirstFree(h, alive, draws, k) ::
          |alive| < 64 ==> result == Created(Encode(draws[k]), Newborn(settings, t)))
    && (result == TokenCollision <==>
        |alive| < 64 && |draws| >= 3 && forall j | 0 <= j < 3 :: Taken(h, alive, draws[j]))
    && (result in {CapacityExhausted, TokenCollision, BadRandomSource} || result.Created?)
  }

  /** Main result: under a non-decreasing clock a creation is refused for capacity exactly when 64
      sessions are alive, and there are never more.  Otherwise it creates a session exactly when one
      of the first three draws is the first whose token names nothing alive, and returns that
      token's encoding; three taken draws are a collision, and anything else the random source does
      is its error. */
  lemma CreateReturns(h: Hash, calls: seq<Call>, settings: Settings, principal: Principal, draws: seq<Bytes>, t: int)
    requires NonDecreasing(calls) && ReadBy(calls, t)
    ensures |AliveAt(h, calls, t)| <= 64
    ensures CreateEnds(h, AliveAt(h, calls, t), settings, draws, t,
                       Step(h, Run(h, calls), Create(settings, principal, draws), Some(t)).1)
  {
    hide Run, AliveAt, Mint, FirstFree, Taken, NonDecreasing, ReadBy, Live, Encode;
    LiveIsAlive(h, calls, t);
    FewAreAlive(h, calls, t);
    MintIs(h, Live(Run(h, calls), t), draws, 0);
  }

  /** What looking a token up gives: its living session, when the principal owns it. */
  ghost predicate OwnsAlive(h: Hash, calls: seq<Call>, token: string, principal: Principal, t: int) {
    Alive(h, calls, h(token), t) && LifeOf(h, calls, h(token)).value.principal == principal
  }

  /** The session of a life last used at a reading. */
  function SessionOf(life: Life, lastUse: int): Session
    requires life.uses != []
  {
    Session(life.settings, life.uses[0], life.uses[0] + 60 * 60 * 1_000_000, lastUse)
  }

  lemma Tracked(h: Hash, calls: seq<Call>, d: Digest, t: int)
    requires NonDecreasing(calls) && ReadBy(calls, t)
    ensures d in Live(Run(h, calls), t) <==> Alive(h, calls, d, t)
    ensures Alive(h, calls, d, t) ==>
              var life := LifeOf(h, calls, d).value;
              life.uses != [] &&
              Live(Run(h, calls), t)[d] == Stored(d, SessionOf(life, life.uses[|life.uses| - 1]), life.principal)
  {
    hide Run, LifeOf, Unbroken, Live, NonDecreasing, ReadBy;
    RunTracks(h, calls, d, t);
  }

  /** Main result: resolving a token finds the owner's living session and nothing else; a touching
      lookup returns it as last used now. */
  lemma ResolveReturns(h: Hash, calls: seq<Call>, token: string, principal: Principal, touch: bool, t: int)
    requires NonDecreasing(calls) && ReadBy(calls, t)
    ensures var result := Step(h, Run(h, calls), Resolve(Some(token), principal, touch), Some(t)).1;
            var life := LifeOf(h, calls, h(token));
            if OwnsAlive(h, calls, token, principal, t)
            then life.value.uses != [] &&
                 result == Found(SessionOf(life.value, if touch then t else life.value.uses[|life.value.uses| - 1]))
            else result == Missing
  {
    hide Run, LifeOf, Alive, Live, NonDecreasing, ReadBy;
    Tracked(h, calls, h(token), t);
  }

  /** Main result: a touch handle refreshes exactly the living session whose creation it carries. */
  lemma TouchReturns(h: Hash, calls: seq<Call>, handle: Handle, t: int)
    requires NonDecreasing(calls) && ReadBy(calls, t)
    ensures var result := Step(h, Run(h, calls), TouchDispatch(Some(handle)), Some(t)).1;
            var life := LifeOf(h, calls, handle.tokenDigest);
            if Alive(h, calls, handle.tokenDigest, t) && life.value.uses != [] && life.value.uses[0] == handle.createdAt
            then result == Found(SessionOf(life.value, t))
            else result == Missing
  {
    hide Run, LifeOf, Alive, Live, NonDecreasing, ReadBy;
    Tracked(h, calls, handle.tokenDigest, t);
  }

  /** Main result: a revocation succeeds exactly for the owner of a living session, which from then
      on does not resolve until its digest is created again. */
  lemma RevokeReturns(h: Hash, calls: seq<Call>, token: string, principal: Principal, t: int)
    requires NonDecreasing(calls) && ReadBy(calls, t)
    ensures var op := Revoke(Some(token), principal);
            var result := Step(h, Run(h, calls), op, Some(t)).1;
            && result == Revoked(OwnsAlive(h, calls, token, principal, t))
            && (result == Revoked(true) ==> LifeOf(h, calls + [Call(op, Some(t))], h(token)).None?)
  {
    hide Run, Alive, Live, NonDecreasing, ReadBy;
    Tracked(h, calls, h(token), t);
    OneMoreCall(h, calls, Call(Revoke(Some(token), principal), Some(t)), h(token));
  }

  /** A run that goes on with one more call. */
  lemma OneMoreCall(h: Hash, calls: seq<Call>, c: Call, d: Digest)
    ensures (Run(h, calls + [c]), LastResult(h, calls + [c])) == Step(h, Run(h, calls), c.op, c.clock)
    ensures LifeOf(h, calls + [c], d) == Marked(h, LifeOf(h, calls, d), c, LastResult(h, calls + [c]), d)
  {
    hide Step;
    assert (calls + [c])[..|calls|] == calls;
  }

  /** Main result: invalidation always succeeds, whatever the table and the reading, and after it no
      token resolves for anyone at any time. */
  lemma InvalidateReturns(h: Hash, calls: seq<Call>, t: int)
    ensures var after := calls + [Call(InvalidateAll, Some(t))];
            && LastResult(h, after) == Cleared
            && (forall d :: LifeOf(h, after, d).None?)
            && forall token, principal, touch, t' ::
                 Step(h, Run(h, after), Resolve(Some(token), principal, touch), Some(t')).1 == Missing
  {
    hide Run, Live;
    var c := Call(InvalidateAll, Some(t));
    forall d ensures LifeOf(h, calls + [c], d).None? {
      OneMoreCall(h, calls, c, d);
    }
    OneMoreCall(h, calls, c, []);
    assert Run(h, calls + [c]) == map[];
    NothingIsLive();
  }

  lemma NothingIsLive()
    ensures forall t' :: Live(map[], t') == map[]
  {
  }

  /** Without a token, or without a reading, nothing is found and nothing changes but expiry. */
  lemma NothingToGoOn(h: Hash, m: Table, op: Op, principal: Principal, touch: bool, t: int)
    ensures Step(h, m, Resolve(None, principal, touch), Some(t)) == (Live(m, t), Missing)
    ensures Step(h, m, Revoke(None, principal), Some(t)) == (Live(m, t), Revoked(false))
    ensures Step(h, m, op, None) == (m, if op == TouchDispatch(None) then Missing else BadClock)
    ensures Step(h, m, TouchDispatch(None), Some(t)) == (m, Missing)
  {
    hide Live;
  }
}
