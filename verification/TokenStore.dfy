/**
 The API token store (src/daemon/api/tokens.rs): the work done inside each lock
 section as a function on values, and the store itself as a class whose methods
 string those sections together.
 */
module TokenStore {
  import opened Common
  import ConsoleTokens

  type Token = seq<octet>
  type Time = ConsoleTokens.Time

  const SECOND: nat := ConsoleTokens.SECOND
  const ACCESS_TTL: nat := 600 * SECOND
  const ACCESS_TTL_MAX: nat := 3600 * SECOND
  const MAX_LIVE_ACCESS: nat := 64
  const ROTATION_GRACE_MAX: nat := 3600 * SECOND

  /** SHA-256, taken as injective: a digest is its own preimage under a constructor. */
  datatype Digest = Sha256(preimage: Token)

  datatype TokenKind = Primary | Access | LocalPeer

  datatype Resolved = Resolved(kind: TokenKind, grace: bool, expiresAt: Option<int>)

  datatype Grace = Grace(token: Token, deadline: Time)

  datatype PrimaryState = PrimaryState(current: Token, previous: Option<Grace>)

  datatype AccessEntry = AccessEntry(expires: Time, expiresAt: int, labelText: string)

  type AccessMap = map<Digest, AccessEntry>

  const CURRENT := Resolved(Primary, false, None)
  const GRACE := Resolved(Primary, true, None)

  /** The whole second an instant falls in. */
  function UnixSeconds(at: Time): (s: int)
    ensures s * 1_000_000_000 <= at < (s + 1) * 1_000_000_000
  {
    at / SECOND
  }

  /** Ten minutes unless asked; what was asked between a second and an hour; otherwise the nearer of the two. */
  ghost predicate Lasts(ttl: Option<nat>, life: nat) {
    match ttl
    case None => life == 600_000_000_000
    case Some(asked) =>
      && (1_000_000_000 <= asked <= 3600_000_000_000 ==> life == asked)
      && (asked < 1_000_000_000 ==> life == 1_000_000_000)
      && (asked > 3600_000_000_000 ==> life == 3600_000_000_000)
  }

  /** `ttl.unwrap_or(ACCESS_TTL).clamp(1s, ACCESS_TTL_MAX)` */
  function ClampTtl(ttl: Option<nat>): (life: nat)
    ensures Lasts(ttl, life)
  {
    var wanted := if ttl.Some? then ttl.value else ACCESS_TTL;
    if wanted < SECOND then SECOND else if wanted > ACCESS_TTL_MAX then ACCESS_TTL_MAX else wanted
  }

  function ClampGrace(grace: nat): (window: nat)
    ensures window <= grace && window <= 3600_000_000_000 && (window == grace || window == 3600_000_000_000)
  {
    if grace <= ROTATION_GRACE_MAX then grace else ROTATION_GRACE_MAX
  }

  // ----- lock sections

  /** `resolve` under the primary's read lock. */
  function MatchPrimary(primary: PrimaryState, presented: Token, now: Time): Option<Resolved> {
    if ConsoleTokens.ConstantTimeEq(presented, primary.current) then Some(CURRENT)
    else if primary.previous.Some? && now < primary.previous.value.deadline
            && ConsoleTokens.ConstantTimeEq(presented, primary.previous.value.token)
    then Some(GRACE)
    else None
  }

  function Sweep(access: AccessMap, now: Time): AccessMap {
    map d | d in access && access[d].expires > now :: access[d]
  }

  /** `resolve` under the access lock. */
  function Lookup(access: AccessMap, presented: Token, now: Time): Option<Resolved> {
    var live := Sweep(access, now);
    if Sha256(presented) in live
    then Some(Resolved(Access, false, Some(live[Sha256(presented)].expiresAt)))
    else None
  }

  /**
   What the eviction loop of `issue_access` may remove from a swept map: as
   little as brings it under the cap, and nothing that outlives what stays.
   Ties are broken by hash order, which is not fixed.
   */
  ghost predicate Evictable(live: AccessMap, victims: set<Digest>) {
    && victims <= live.Keys
    && |victims| == (if |live| < MAX_LIVE_ACCESS then 0 else |live| - (MAX_LIVE_ACCESS - 1))
    && EvictedFirst(live, victims)
  }

  ghost predicate EvictedFirst(live: AccessMap, victims: set<Digest>)
    requires victims <= live.Keys
  {
    forall gone, stays | gone in victims && stays in live.Keys - victims ::
      live[gone].expires <= live[stays].expires
  }

  function Inserted(live: AccessMap, victims: set<Digest>, token: Token, entry: AccessEntry): AccessMap {
    (live - victims)[Sha256(token) := entry]
  }

  function Swapped(primary: PrimaryState, token: Token, grace: nat, now: Time): PrimaryState {
    PrimaryState(token, if ClampGrace(grace) == 0 then None else Some(Grace(primary.current, now + ClampGrace(grace))))
  }

  /** `status` under the primary's read lock: the wall clock is read first, then what remains of the window is added. */
  function GraceUntil(primary: PrimaryState, wallAt: Time, remainAt: Time): Option<int> {
    match primary.previous
    case None => None
    case Some(grace) => Some(UnixSeconds(wallAt + (if grace.deadline > remainAt then grace.deadline - remainAt else 0)))
  }

  /** Both sections of `resolve` at one instant. */
  function ResolveAt(primary: PrimaryState, access: AccessMap, presented: Token, now: Time): Option<Resolved> {
    var first := MatchPrimary(primary, presented, now);
    if first.Some? then first else Lookup(access, presented, now)
  }

  // ----- the guards of token management

  datatype Denied = SocketNeedsRoot | AccessCannotManage | Unrecognised | ConfirmWithNewToken

  function RequirePrimary(resolved: Option<Resolved>, isRoot: bool): Result<(), Denied> {
    match resolved
    case None => Err(Unrecognised)
    case Some(r) =>
      match r.kind
      case Primary => Ok(())
      case LocalPeer => if isRoot then Ok(()) else Err(SocketNeedsRoot)
      case Access => Err(AccessCannotManage)
  }

  function RejectGrace(resolved: Option<Resolved>): Result<(), Denied> {
    if resolved.Some? && resolved.value.grace then Err(ConfirmWithNewToken) else Ok(())
  }

  /** The whole table of `require_primary`, and what `reject_grace` adds. */
  lemma Guards(isRoot: bool, grace: bool, expiresAt: Option<int>)
    ensures RequirePrimary(Some(Resolved(Primary, grace, expiresAt)), isRoot) == Ok(())
    ensures RequirePrimary(Some(Resolved(LocalPeer, grace, expiresAt)), isRoot)
         == if isRoot then Ok(()) else Err(SocketNeedsRoot)
    ensures RequirePrimary(Some(Resolved(Access, grace, expiresAt)), isRoot) == Err(AccessCannotManage)
    ensures RequirePrimary(None, isRoot) == Err(Unrecognised)
    ensures forall kind :: RejectGrace(Some(Resolved(kind, grace, expiresAt))).Ok? <==> !grace
    ensures RejectGrace(None) == Ok(())
  {
  }

  /** `rotate/commit` is open to exactly one bearer string, the current primary. */
  lemma CommitOpenToCurrentOnly(primary: PrimaryState, access: AccessMap, presented: Token, now: Time, isRoot: bool)
    ensures var r := ResolveAt(primary, access, presented, now);
      RequirePrimary(r, isRoot).Ok? && RejectGrace(r).Ok? <==> presented == primary.current
  {
  }

  /** Rotating, minting and revoking are open to at most two, the second only inside the window. */
  lemma ManagementOpenToPrimaries(primary: PrimaryState, access: AccessMap, presented: Token, now: Time, isRoot: bool)
    ensures RequirePrimary(ResolveAt(primary, access, presented, now), isRoot).Ok?
      <==> presented == primary.current
           || exists g :: primary.previous == Some(g) && presented == g.token && now < g.deadline
  {
  }

  // ----- the store

  datatype Rotation = Rotation(token: Token, rotatedAt: int, graceUntil: Option<int>, revoked: nat)

  datatype Status = Status(
    kind: TokenKind, expiresAt: Option<int>, accessTokensLive: nat, primaryDigest: Digest, rotationPending: bool,
    graceUntil: Option<int>, ttlDefaultSecs: nat)

  /** `min_by_key` finds an entry whenever there is one. */
  lemma SoonestExists(live: AccessMap, among: set<Digest>)
    requires among <= live.Keys && among != {}
    ensures exists oldest :: Soonest(live, among, oldest)
  {
    var d :| d in among;
    if among == {d} {
      assert Soonest(live, among, d);
    } else {
      SoonestExists(live, among - {d});
      var o :| Soonest(live, among - {d}, o);
      assert Soonest(live, among, if live[o].expires <= live[d].expires then o else d);
    }
  }

  ghost predicate Soonest(live: AccessMap, among: set<Digest>, d: Digest)
    requires among <= live.Keys
  {
    d in among && forall e | e in among :: live[d].expires <= live[e].expires
  }

  lemma SoonestOf(access: AccessMap)
    requires |access| > 0
    ensures exists oldest :: oldest in access && forall d | d in access :: access[oldest].expires <= access[d].expires
  {
    SoonestExists(access, access.Keys);
  }

  lemma WithoutSize(live: AccessMap, victims: set<Digest>)
    requires victims <= live.Keys
    ensures (live - victims).Keys == live.Keys - victims
    ensures |live - victims| == |live| - |victims|
  {
    assert live.Keys == (live.Keys - victims) + victims;
    assert |(live - victims).Keys| == |live.Keys| - |victims|;
  }

  lemma SubsetSize<T>(a: set<T>, b: set<T>)
    requires a <= b
    ensures |a| <= |b|
  {
    assert b == a + (b - a);
  }

  lemma EvictOneMore(live: AccessMap, victims: set<Digest>, oldest: Digest)
    requires victims <= live.Keys && EvictedFirst(live, victims)
    requires oldest in live - victims
    requires forall d | d in live - victims :: live[oldest].expires <= live[d].expires
    ensures EvictedFirst(live, victims + {oldest})
    ensures live - victims - {oldest} == live - (victims + {oldest})
    ensures |live - (victims + {oldest})| == |live| - |victims| - 1
  {
    WithoutSize(live, victims + {oldest});
  }

  class Store {
    var primary: PrimaryState
    var access: AccessMap

    constructor (token: Token)
      ensures primary == PrimaryState(token, None) && access == map[]
    {
      primary := PrimaryState(token, None);
      access := map[];
    }

    method Resolve(presented: Token, readAt: Time, lookupAt: Time) returns (r: Option<Resolved>)
      modifies this`access
      ensures MatchPrimary(primary, presented, readAt).Some? ==>
        r == MatchPrimary(primary, presented, readAt) && access == old(access)
      ensures MatchPrimary(primary, presented, readAt) == None ==>
        r == Lookup(old(access), presented, lookupAt) && access == Sweep(old(access), lookupAt)
    {
      var first := MatchPrimary(primary, presented, readAt);
      if first.Some? {
        return first;
      }
      access := Sweep(access, lookupAt);
      var key := Sha256(presented);
      r := if key in access then Some(Resolved(Access, false, Some(access[key].expiresAt))) else None;
    }

    /** The eviction loop of `issue_access`. */
    method MakeRoom() returns (ghost victims: set<Digest>)
      modifies this`access
      ensures Evictable(old(access), victims)
      ensures access == old(access) - victims
    {
      ghost var live := access;
      victims := {};
      WithoutSize(live, victims);
      while |access| >= MAX_LIVE_ACCESS
        invariant victims <= live.Keys && access == live - victims
        invariant |access| == |live| - |victims|
        invariant victims != {} ==> |access| >= MAX_LIVE_ACCESS - 1
        invariant EvictedFirst(live, victims)
        decreases |access|
      {
        SoonestOf(access);
        var oldest :| oldest in access && forall d | d in access :: access[oldest].expires <= access[d].expires;
        EvictOneMore(live, victims, oldest);
        access := access - {oldest};
        victims := victims + {oldest};
      }
    }

    /** `token` is `random_hex`'s draw; the clock is read before the lock and again inside it. */
    method IssueAccess(ttl: Option<nat>, labelText: string, token: Token, drawnAt: Time, insertAt: Time)
      returns (issued: Token, expiresAt: int)
      modifies this`access
      ensures issued == token && Sha256(token) in access && drawnAt <= access[Sha256(token)].expires
      ensures Lasts(ttl, access[Sha256(token)].expires - drawnAt)
      ensures expiresAt * 1_000_000_000 <= access[Sha256(token)].expires < (expiresAt + 1) * 1_000_000_000
      ensures access[Sha256(token)].expiresAt == expiresAt && access[Sha256(token)].labelText == labelText
      ensures exists victims ::
                && Evictable(Sweep(old(access), insertAt), victims)
                && access == Inserted(Sweep(old(access), insertAt), victims, token,
                                      AccessEntry(drawnAt + ClampTtl(ttl), expiresAt, labelText))
    {
      var wanted := if ttl.Some? then ttl.value else ACCESS_TTL;
      var life := if wanted < SECOND then SECOND else if wanted > ACCESS_TTL_MAX then ACCESS_TTL_MAX else wanted;
      expiresAt := UnixSeconds(drawnAt + life);
      issued := token;
      access := Sweep(access, insertAt);
      ghost var victims := MakeRoom();
      access := access[Sha256(token) := AccessEntry(drawnAt + life, expiresAt, labelText)];
    }

    method RevokeAllAccess(now: Time) returns (count: nat)
      modifies this`access
      ensures count == |Sweep(old(access), now)| && access == map[]
    {
      access := Sweep(access, now);
      count := |access|;
      access := map[];
    }

    /** `persisted` is the outcome of writing `token` to disk; it runs before the swap. */
    method Rotate(grace: nat, token: Token, persisted: Result<(), string>, revokeAt: Time, stampedAt: Time,
        swapAt: Time)
      returns (r: Result<Rotation, string>)
      modifies this
      ensures access == map[]
      ensures persisted.Err? ==> r == Err(persisted.error) && primary == old(primary)
      ensures persisted.Ok? ==> primary == Swapped(old(primary), token, grace, swapAt)
      ensures persisted.Ok? ==>
                && primary.current == token
                && (grace == 0 ==> primary.previous == None)
                && (0 < grace <= 3600_000_000_000 ==>
                      primary.previous == Some(Grace(old(primary).current, swapAt + grace)))
                && (grace > 3600_000_000_000 ==>
                      primary.previous == Some(Grace(old(primary).current, swapAt + 3600_000_000_000)))
      ensures persisted.Ok? ==>
                r == Ok(Rotation(token, UnixSeconds(stampedAt),
                                 if ClampGrace(grace) == 0 then None
                                 else Some(UnixSeconds(stampedAt + ClampGrace(grace))),
                                 |Sweep(old(access), revokeAt)|))
    {
      var revoked := RevokeAllAccess(revokeAt);
      var window := if grace <= ROTATION_GRACE_MAX then grace else ROTATION_GRACE_MAX;
      if persisted.Err? {
        return Err(persisted.error);
      }
      var replaced := primary.current;
      primary := primary.(current := token);
      primary := primary.(previous := if window != 0 then Some(Grace(replaced, swapAt + window)) else None);
      r := Ok(Rotation(token, UnixSeconds(stampedAt),
                       if window != 0 then Some(UnixSeconds(stampedAt + window)) else None, revoked));
    }

    method CommitRotation()
      modifies this`primary
      ensures primary == old(primary).(previous := None)
    {
      primary := primary.(previous := None);
    }

    method GetStatus(resolved: Resolved, wallAt: Time, remainAt: Time, countAt: Time) returns (status: Status)
      modifies this`access
      ensures access == Sweep(old(access), countAt)
      ensures status.kind == resolved.kind && status.expiresAt == resolved.expiresAt
      ensures status.accessTokensLive == |Sweep(old(access), countAt)|
      ensures status.graceUntil == GraceUntil(primary, wallAt, remainAt)
      ensures primary.previous == None <==> status.graceUntil == None
      ensures primary.previous.Some? && wallAt == remainAt ==>
                && status.graceUntil.value * 1_000_000_000 <= Max(primary.previous.value.deadline, wallAt)
                && Max(primary.previous.value.deadline, wallAt) < (status.graceUntil.value + 1) * 1_000_000_000
      ensures forall held :: status.primaryDigest == Sha256(held) <==> held == primary.current
      ensures status.rotationPending <==> primary.previous.Some?
      ensures status.ttlDefaultSecs == 600
    {
      var graceUntil := GraceUntil(primary, wallAt, remainAt);
      var digest := Sha256(primary.current);
      access := Sweep(access, countAt);
      status := Status(
        resolved.kind, resolved.expiresAt, |access|, digest, graceUntil.Some?, graceUntil, ACCESS_TTL / SECOND);
    }
  }

  // ----- counting and capping

  /** The tokens a sweep at `now` leaves, as bearer strings. */
  function LiveTokens(access: AccessMap, now: Time): set<Token> {
    set d | d in Sweep(access, now) :: d.preimage
  }

  /** The revocation count is the number of strings that would have resolved as access tokens. */
  lemma CountIsWhatResolves(access: AccessMap, now: Time)
    ensures |Sweep(access, now)| == |LiveTokens(access, now)|
    ensures forall p :: p in LiveTokens(access, now) <==> Lookup(access, p, now).Some?
  {
    PreimagesCount(Sweep(access, now).Keys);
    forall p
      ensures p in LiveTokens(access, now) <==> Sha256(p) in Sweep(access, now)
    {
      assert Sha256(p).preimage == p;
    }
  }

  lemma PreimagesCount(ds: set<Digest>)
    ensures |set d | d in ds :: d.preimage| == |ds|
  {
    if ds != {} {
      var d :| d in ds;
      PreimagesCount(ds - {d});
      assert (set e | e in ds :: e.preimage) == (set e | e in ds - {d} :: e.preimage) + {d.preimage};
    }
  }

  lemma InsertedSize(live: AccessMap, victims: set<Digest>, token: Token, entry: AccessEntry)
    requires victims <= live.Keys
    ensures |Inserted(live, victims, token, entry)| <= |live| - |victims| + 1
  {
    WithoutSize(live, victims);
    var kept := live - victims;
    assert kept[Sha256(token) := entry].Keys == kept.Keys + {Sha256(token)};
  }

  lemma SweepShrinks(access: AccessMap, now: Time)
    ensures |Sweep(access, now)| <= |access|
  {
    assert Sweep(access, now).Keys <= access.Keys;
    SubsetSize(Sweep(access, now).Keys, access.Keys);
  }

  /** The cap holds after any mint; nobody pays for it below the cap, and at most one entry when it held before. */
  lemma MintKeepsCap(access: AccessMap, now: Time, victims: set<Digest>, token: Token, entry: AccessEntry)
    requires Evictable(Sweep(access, now), victims)
    ensures |Inserted(Sweep(access, now), victims, token, entry)| <= 64
    ensures |Sweep(access, now)| < 64 ==> victims == {}
    ensures |access| <= 64 ==> |victims| <= 1
  {
    InsertedSize(Sweep(access, now), victims, token, entry);
    SweepShrinks(access, now);
  }

  /**
   An evicted entry never outlives a surviving older one. It can outlive the
   entry it made room for: that never happens iff the new entry expires no
   sooner than the ones evicted.
   */
  lemma EvictionOrder(live: AccessMap, victims: set<Digest>, token: Token, entry: AccessEntry)
    requires Evictable(live, victims) && Sha256(token) !in live
    ensures var after := Inserted(live, victims, token, entry);
      (forall gone, stays | gone in victims && stays in after :: live[gone].expires <= after[stays].expires)
      <==> (|live| >= 64 ==> |set e | e in live && live[e].expires <= entry.expires| >= |live| - 63)
  {
    var after := Inserted(live, victims, token, entry);
    var early := set e | e in live && live[e].expires <= entry.expires;
    assert after[Sha256(token)] == entry;
    if |live| >= MAX_LIVE_ACCESS {
      if forall gone | gone in victims :: live[gone].expires <= entry.expires {
        assert victims <= early;
        SubsetSize(victims, early);
      } else {
        var gone :| gone in victims && live[gone].expires > entry.expires;
        assert early <= victims - {gone};
        SubsetSize(early, victims - {gone});
      }
    }
  }

  /** Some number of tokens, told apart by their lengths, that all expire two seconds in. */
  lemma {:induction false} Crowd(n: nat) returns (live: AccessMap, next: Token)
    ensures |live| == n && Sha256(next) !in live && |next| == n
    ensures forall d | d in live :: |d.preimage| < n && live[d].expires == 2 * SECOND
  {
    live, next := map[], [];
    if n > 0 {
      live, next := Crowd(n - 1);
      live, next := live[Sha256(next) := AccessEntry(2 * SECOND, 2, "")], next + [0];
    }
  }

  /** The cap reached, a token minted for one second displaces one that had two. */
  lemma EvictionOrderExample() returns (live: AccessMap, victims: set<Digest>, token: Token, entry: AccessEntry)
    ensures Evictable(live, victims) && Sha256(token) !in live
    ensures var after := Inserted(live, victims, token, entry);
      exists gone, stays :: gone in victims && stays in after && live[gone].expires > after[stays].expires
  {
    live, token := Crowd(MAX_LIVE_ACCESS);
    assert live.Keys != {} by {
      assert |live.Keys| == MAX_LIVE_ACCESS;
    }
    var gone :| gone in live.Keys;
    victims, entry := {gone}, AccessEntry(SECOND, 1, "");
    var after := Inserted(live, victims, token, entry);
    assert gone in victims && Sha256(token) in after && live[gone].expires > after[Sha256(token)].expires;
  }
}
