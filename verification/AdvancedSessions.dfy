/** xferry/advanced_sessions.py: a bounded table of bearer sessions with absolute and idle
    expiry.  Clock readings are microseconds; every operation runs under one lock, so each is
    one step.  The functions say what one operation does to the table; the class performs it. */
module AdvancedSessions {
  import opened Wrappers
  import opened ByteStrings
  import opened Base64Url

  type Digest = seq<Byte>

  /** SHA-256 of a token's UTF-8 bytes; nothing below needs it to be injective. */
  type Hash = string -> Digest

  datatype Principal = Basic(owner: string) | NoAuth

  datatype Settings = Settings(prefix: string, decoder: string, diagnosticHeaders: bool)

  datatype Session = Session(settings: Settings, createdAt: int, expiresAt: int, lastActivityAt: int)

  datatype Stored = Stored(tokenDigest: Digest, session: Session, principal: Principal)

  datatype Handle = Handle(tokenDigest: Digest, createdAt: int)

  type Table = map<Digest, Stored>

  const MINUTE := 60 * 1_000_000
  const ABSOLUTE_LIFETIME := 60 * MINUTE
  const IDLE_TIMEOUT := 15 * MINUTE
  const MAX_SESSIONS := 64
  const TOKEN_BYTES := 32
  const MAX_COLLISION_ATTEMPTS := 3

  /** A token that is not text is passed as None, and so is a dispatch without a handle. */
  datatype Op =
    | Create(settings: Settings, principal: Principal, draws: seq<Bytes>)
    | Resolve(token: Option<string>, principal: Principal, touch: bool)
    | TouchDispatch(handle: Option<Handle>)
    | Revoke(token: Option<string>, principal: Principal)
    | InvalidateAll

  datatype Result =
    | Created(token: string, session: Session)
    | CapacityExhausted
    | TokenCollision
    | BadRandomSource
    | BadClock
    | Found(session: Session)
    | Missing
    | Revoked(done: bool)
    | Cleared

  predicate Expired(s: Session, now: int) {
    now >= s.expiresAt || now >= s.lastActivityAt + IDLE_TIMEOUT
  }

  function Live(m: Table, now: int): Table {
    map d | d in m && !Expired(m[d].session, now) :: m[d]
  }

  function NewSession(settings: Settings, now: int): Session {
    Session(settings, now, now + ABSOLUTE_LIFETIME, now)
  }

  function Touched(s: Stored, now: int): Stored {
    s.(session := s.session.(lastActivityAt := now))
  }

  datatype Minted = Fresh(token: string) | Collided | BadSource

  /** The collision loop: draw until a token is not live.  A source that stops answering, or
      answers with anything but 32 bytes, raises. */
  function Mint(h: Hash, live: Table, draws: seq<Bytes>, attempt: nat): Minted
    decreases MAX_COLLISION_ATTEMPTS - attempt
  {
    if attempt >= MAX_COLLISION_ATTEMPTS then Collided
    else if attempt >= |draws| || |draws[attempt]| != TOKEN_BYTES then BadSource
    else if h(Encode(draws[attempt])) in live then Mint(h, live, draws, attempt + 1)
    else Fresh(Encode(draws[attempt]))
  }

  /** The live entry a token and a principal give access to. */
  function Owned(h: Hash, live: Table, token: Option<string>, principal: Principal): Option<Digest> {
    if token.Some? && h(token.value) in live && live[h(token.value)].principal == principal
    then Some(h(token.value)) else None
  }

  /** The live entry a touch handle still refers to. */
  function Held(live: Table, handle: Handle): Option<Digest> {
    if handle.tokenDigest in live && live[handle.tokenDigest].session.createdAt == handle.createdAt
    then Some(handle.tokenDigest) else None
  }

  /** What one operation returns, and the entry it writes or removes, given the live entries. */
  datatype Effect = Put(digest: Digest, entry: Stored) | Remove(digest: Digest) | RemoveAll | Keep

  function Answer(h: Hash, live: Table, op: Op, now: int): (Result, Effect) {
    match op
    case Create(settings, principal, draws) =>
      if |live| >= MAX_SESSIONS then (CapacityExhausted, Keep) else
      (match Mint(h, live, draws, 0)
       case Fresh(token) =>
         (Created(token, NewSession(settings, now)),
          Put(h(token), Stored(h(token), NewSession(settings, now), principal)))
       case Collided => (TokenCollision, Keep)
       case BadSource => (BadRandomSource, Keep))
    case Resolve(token, principal, touch) =>
      var d := Owned(h, live, token, principal);
      if d.None? then (Missing, Keep)
      else if !touch then (Found(live[d.value].session), Keep)
      else (Found(Touched(live[d.value], now).session), Put(d.value, Touched(live[d.value], now)))
    case TouchDispatch(handle) =>
      if handle.None? || Held(live, handle.value).None? then (Missing, Keep)
      else (Found(Touched(live[handle.value.tokenDigest], now).session),
            Put(handle.value.tokenDigest, Touched(live[handle.value.tokenDigest], now)))
    case Revoke(token, principal) =>
      var d := Owned(h, live, token, principal);
      if d.None? then (Revoked(false), Keep) else (Revoked(true), Remove(d.value))
    case InvalidateAll => (Cleared, RemoveAll)
  }

  function Apply(m: Table, effect: Effect): Table {
    match effect
    case Put(d, entry) => m[d := entry]
    case Remove(d) => m - {d}
    case RemoveAll => map[]
    case Keep => m
  }

  /** Without a handle a touch returns before it reads the clock. */
  predicate ReadsClock(op: Op) {
    !(op.TouchDispatch? && op.handle.None?)
  }

  /** One operation of the store, which first deletes every expired entry.  A clock that does
      not return an aware time raises before anything changes. */
  function Step(h: Hash, m: Table, op: Op, clock: Option<int>): (Table, Result) {
    if !ReadsClock(op) then (m, Missing)
    else if clock.None? then (m, BadClock)
    else
      var live := Live(m, clock.value);
      var (result, effect) := Answer(h, live, op, clock.value);
      (Apply(live, effect), result)
  }

  datatype Call = Call(op: Op, clock: Option<int>)

  /** The table after a run. */
  function Run(h: Hash, calls: seq<Call>): Table {
    if calls == [] then map[] else
    var last := calls[|calls| - 1];
    Step(h, Run(h, calls[..|calls| - 1]), last.op, last.clock).0
  }

  /** What the last call of a run returned. */
  function LastResult(h: Hash, calls: seq<Call>): Result
    requires calls != []
  {
    var last := calls[|calls| - 1];
    Step(h, Run(h, calls[..|calls| - 1]), last.op, last.clock).1
  }

  // ----- the store as the code performs it

  class AdvancedSessionStore {
    const digest: Hash
    var sessions: Table

    constructor (digest: Hash)
      ensures this.digest == digest && sessions == map[]
    {
      this.digest := digest;
      sessions := map[];
    }

    /** Every entry sits under its own digest. */
    ghost predicate Valid()
      reads this
    {
      forall d | d in sessions :: sessions[d].tokenDigest == d
    }

    /** _purge_expired_locked */
    method Purge(now: int)
      modifies this`sessions
      ensures sessions == Live(old(sessions), now)
    {
      hide Expired;
      var expired := ExpiredDigests(now);
      for i := 0 to |expired|
        invariant forall d :: d in sessions <==> d in old(sessions) && forall k | 0 <= k < i :: expired[k] != d
        invariant forall d | d in sessions :: sessions[d] == old(sessions)[d]
      {
        sessions := sessions - {expired[i]};
      }
    }

    /** The list of expired digests it deletes. */
    method ExpiredDigests(now: int) returns (expired: seq<Digest>)
      ensures forall d :: d in expired <==> d in sessions && Expired(sessions[d].session, now)
    {
      expired := [];
      var todo := sessions.Keys;
      while todo != {}
        invariant todo <= sessions.Keys
        invariant forall d :: d in expired <==>
                    d in sessions && d !in todo && Expired(sessions[d].session, now)
        decreases |todo|
      {
        var d :| d in todo;
        var session := sessions[d].session;
        if now >= session.expiresAt || now >= session.lastActivityAt + IDLE_TIMEOUT {
          expired := expired + [d];
        }
        todo := todo - {d};
      }
    }

    /** The lookup compares the candidate with every stored digest and keeps the last match. */
    method LocateDigest(candidate: Digest) returns (match': Option<Stored>)
      requires Valid()
      ensures match' == if candidate in sessions then Some(sessions[candidate]) else None
    {
      match' := None;
      var todo := sessions.Keys;
      while todo != {}
        invariant todo <= sessions.Keys
        invariant match' == if candidate in sessions && candidate !in todo then Some(sessions[candidate]) else None
        decreases |todo|
      {
        var d :| d in todo;
        if candidate == sessions[d].tokenDigest {
          match' := Some(sessions[d]);
        }
        todo := todo - {d};
      }
    }

    method Locate(token: Option<string>) returns (stored: Option<Stored>)
      requires Valid()
      ensures stored == if token.Some? && digest(token.value) in sessions
                        then Some(sessions[digest(token.value)]) else None
    {
      if token.None? {
        return None;
      }
      stored := LocateDigest(digest(token.value));
    }

    method Create(settings: Settings, principal: Principal, draws: seq<Bytes>, clock: Option<int>) returns (r: Result)
      requires Valid()
      modifies this`sessions
      ensures Valid()
      ensures (sessions, r) == Step(digest, old(sessions), Op.Create(settings, principal, draws), clock)
    {
      if clock.None? {
        return BadClock;
      }
      var now := clock.value;
      Purge(now);
      if |sessions| >= MAX_SESSIONS {
        return CapacityExhausted;
      }
      for attempt := 0 to MAX_COLLISION_ATTEMPTS
        invariant sessions == Live(old(sessions), now)
        invariant Mint(digest, sessions, draws, 0) == Mint(digest, sessions, draws, attempt)
      {
        if attempt >= |draws| || |draws[attempt]| != TOKEN_BYTES {
          return BadRandomSource;
        }
        var token := Encode(draws[attempt]);
        var tokenDigest := digest(token);
        var existing := LocateDigest(tokenDigest);
        if existing.None? {
          var session := Session(settings, now, now + ABSOLUTE_LIFETIME, now);
          sessions := sessions[tokenDigest := Stored(tokenDigest, session, principal)];
          return Created(token, session);
        }
      }
      r := TokenCollision;
    }

    method Resolve(token: Option<string>, principal: Principal, touch: bool, clock: Option<int>) returns (r: Result)
      requires Valid()
      modifies this`sessions
      ensures Valid()
      ensures (sessions, r) == Step(digest, old(sessions), Op.Resolve(token, principal, touch), clock)
    {
      if clock.None? {
        return BadClock;
      }
      Purge(clock.value);
      var stored := Locate(token);
      if stored.None? || stored.value.principal != principal {
        return Missing;
      }
      if !touch {
        return Found(stored.value.session);
      }
      var refreshed := stored.value.session.(lastActivityAt := clock.value);
      sessions := sessions[stored.value.tokenDigest := stored.value.(session := refreshed)];
      r := Found(refreshed);
    }

    /** touch_handle_for_resolved_session */
    function TouchHandle(token: string, session: Session): Handle {
      Handle(digest(token), session.createdAt)
    }

    method TouchDispatch(handle: Option<Handle>, clock: Option<int>) returns (r: Result)
      requires Valid()
      modifies this`sessions
      ensures Valid()
      ensures (sessions, r) == Step(digest, old(sessions), Op.TouchDispatch(handle), clock)
    {
      if handle.None? {
        return Missing;
      }
      if clock.None? {
        return BadClock;
      }
      Purge(clock.value);
      var d := handle.value.tokenDigest;
      if d !in sessions || sessions[d].session.createdAt != handle.value.createdAt {
        return Missing;
      }
      var refreshed := sessions[d].session.(lastActivityAt := clock.value);
      sessions := sessions[d := sessions[d].(session := refreshed)];
      r := Found(refreshed);
    }

    method Revoke(token: Option<string>, principal: Principal, clock: Option<int>) returns (r: Result)
      requires Valid()
      modifies this`sessions
      ensures Valid()
      ensures (sessions, r) == Step(digest, old(sessions), Op.Revoke(token, principal), clock)
    {
      if clock.None? {
        return BadClock;
      }
      Purge(clock.value);
      var stored := Locate(token);
      if stored.None? || stored.value.principal != principal {
        return Revoked(false);
      }
      sessions := sessions - {stored.value.tokenDigest};
      r := Revoked(true);
    }

    method InvalidateAll(clock: Option<int>) returns (r: Result)
      requires Valid()
      modifies this`sessions
      ensures Valid()
      ensures (sessions, r) == Step(digest, old(sessions), Op.InvalidateAll, clock)
    {
      if clock.None? {
        return BadClock;
      }
      Purge(clock.value);
      sessions := map[];
      r := Cleared;
    }
  }
}
