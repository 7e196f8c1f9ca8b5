/**
 Every sequence of lock sections on the token store, as any interleaving of
 callers produces it, and the ideal store it is indistinguishable from: one
 that forgets a token at the very instant it expires.
 */
module TokenTraces {
  import opened Common
  import opened TokenStore

  /** One lock section. The victims of an insertion are the hash map's choice among ties. */
  datatype Section =
    | Match(presented: Token)
    | Find(presented: Token)
    | Insert(token: Token, entry: AccessEntry, victims: set<Digest>)
    | Revoke
    | Swap(newToken: Token, grace: nat)
    | Commit
    | ReadGrace
    | CountLive

  /** What a section lets its caller see. */
  datatype Seen = Answer(r: Option<Resolved>) | Count(n: nat) | Until(at: Option<int>) | Nothing

  datatype Event = Event(now: Time, section: Section, seen: Seen)

  // ----- the store as it is: lazily swept

  datatype Lazy = Lazy(primary: PrimaryState, access: AccessMap)

  ghost predicate LazyEnabled(s: Lazy, now: Time, section: Section) {
    section.Insert? ==> Evictable(Sweep(s.access, now), section.victims)
  }

  function LazyNext(s: Lazy, now: Time, section: Section): Lazy {
    match section
    case Match(_) => s
    case Find(_) => s.(access := Sweep(s.access, now))
    case Insert(token, entry, victims) => s.(access := Inserted(Sweep(s.access, now), victims, token, entry))
    case Revoke => s.(access := map[])
    case Swap(token, grace) => s.(primary := Swapped(s.primary, token, grace, now))
    case Commit => s.(primary := s.primary.(previous := None))
    case ReadGrace => s
    case CountLive => s.(access := Sweep(s.access, now))
  }

  function LazySeen(s: Lazy, now: Time, section: Section): Seen {
    match section
    case Match(presented) => Answer(MatchPrimary(s.primary, presented, now))
    case Find(presented) => Answer(Lookup(s.access, presented, now))
    case Revoke => Count(|Sweep(s.access, now)|)
    case ReadGrace => Until(GraceUntil(s.primary, now, now))
    case CountLive => Count(|Sweep(s.access, now)|)
    case _ => Nothing
  }

  ghost predicate LazyAccepts(s: Lazy, events: seq<Event>)
    decreases |events|
  {
    events == [] ||
    (var e := events[0];
     && LazyEnabled(s, e.now, e.section)
     && e.seen == LazySeen(s, e.now, e.section)
     && LazyAccepts(LazyNext(s, e.now, e.section), events[1..]))
  }

  // ----- the ideal store: time itself removes what has expired

  /** `pending` is all that is left of a grace window that has run out unconfirmed. */
  datatype Ideal = Ideal(current: Token, previous: Option<Grace>, pending: bool, access: AccessMap)

  function Elapse(i: Ideal, now: Time): Ideal {
    i.(previous := if i.previous.Some? && i.previous.value.deadline > now then i.previous else None,
       access := Sweep(i.access, now))
  }

  ghost predicate IdealEnabled(i: Ideal, section: Section) {
    section.Insert? ==> Evictable(i.access, section.victims)
  }

  /** No section looks at the clock except to compute a new deadline. */
  function IdealNext(i: Ideal, now: Time, section: Section): Ideal {
    match section
    case Insert(token, entry, victims) =>
      i.(access := if entry.expires > now then Inserted(i.access, victims, token, entry)
                   else i.access - victims - {Sha256(token)})
    case Revoke => i.(access := map[])
    case Swap(token, grace) =>
      if ClampGrace(grace) == 0 then Ideal(token, None, false, i.access)
      else Ideal(token, Some(Grace(i.current, now + ClampGrace(grace))), true, i.access)
    case Commit => i.(previous := None, pending := false)
    case _ => i
  }

  function IdealSeen(i: Ideal, now: Time, section: Section): Seen {
    match section
    case Match(presented) =>
      Answer(if presented == i.current then Some(CURRENT)
             else if i.previous.Some? && presented == i.previous.value.token then Some(GRACE)
             else None)
    case Find(presented) =>
      Answer(if Sha256(presented) in i.access
             then Some(Resolved(Access, false, Some(i.access[Sha256(presented)].expiresAt)))
             else None)
    case Revoke => Count(|i.access|)
    case ReadGrace =>
      Until(if i.pending then Some(UnixSeconds(if i.previous.Some? then i.previous.value.deadline else now)) else None)
    case CountLive => Count(|i.access|)
    case _ => Nothing
  }

  ghost predicate IdealAccepts(i: Ideal, events: seq<Event>)
    decreases |events|
  {
    events == [] ||
    (var e := events[0];
     var aged := Elapse(i, e.now);
     && IdealEnabled(aged, e.section)
     && e.seen == IdealSeen(aged, e.now, e.section)
     && IdealAccepts(IdealNext(aged, e.now, e.section), events[1..]))
  }

  // ----- they cannot be told apart

  function Abstraction(s: Lazy, now: Time): Ideal {
    Elapse(Ideal(s.primary.current, s.primary.previous, s.primary.previous.Some?, s.access), now)
  }

  ghost predicate Clocked(since: Time, events: seq<Event>)
    decreases |events|
  {
    events == [] || (since <= events[0].now && Clocked(events[0].now, events[1..]))
  }

  lemma AbstractionAges(s: Lazy, since: Time, now: Time)
    requires since <= now
    ensures Elapse(Abstraction(s, since), now) == Abstraction(s, now)
  {
    assert Sweep(Sweep(s.access, since), now) == Sweep(s.access, now);
  }

  ghost predicate Simulated(s: Lazy, now: Time, section: Section) {
    var i := Abstraction(s, now);
    && (LazyEnabled(s, now, section) <==> IdealEnabled(i, section))
    && (LazyEnabled(s, now, section) ==>
          && LazySeen(s, now, section) == IdealSeen(i, now, section)
          && Abstraction(LazyNext(s, now, section), now) == IdealNext(i, now, section))
  }

  lemma InsertionSwept(live: AccessMap, victims: set<Digest>, token: Token, entry: AccessEntry, now: Time)
    requires Sweep(live, now) == live
    ensures Sweep(Inserted(live, victims, token, entry), now)
         == if entry.expires > now then Inserted(live, victims, token, entry) else live - victims - {Sha256(token)}
  {
    assert forall d | d in live :: d in Sweep(live, now) && live[d].expires > now;
  }

  lemma SectionSimulated(s: Lazy, now: Time, section: Section)
    ensures Simulated(s, now, section)
  {
    if section.Find? || section.Insert? || section.Revoke? || section.CountLive? {
      AccessSimulated(s, now, section);
    }
  }

  /** The sections under the access lock. */
  lemma AccessSimulated(s: Lazy, now: Time, section: Section)
    requires section.Find? || section.Insert? || section.Revoke? || section.CountLive?
    ensures Simulated(s, now, section)
  {
    assert Sweep(Sweep(s.access, now), now) == Sweep(s.access, now);
    match section
    case Insert(token, entry, victims) => InsertionSwept(Sweep(s.access, now), victims, token, entry, now);
    case Revoke => assert Sweep(map[], now) == map[];
    case _ =>
  }

  /**
   Lazy sweeping is unobservable: the store accepts exactly the same runs, with
   the same answers, counts and evictions, as the store that never keeps an
   expired token. Only `rotation_pending` outlives its deadline.
   */
  lemma {:induction false} LazyIsIdeal(s: Lazy, since: Time, events: seq<Event>)
    requires Clocked(since, events)
    ensures LazyAccepts(s, events) <==> IdealAccepts(Abstraction(s, since), events)
    decreases |events|
  {
    if events != [] {
      var e := events[0];
      AbstractionAges(s, since, e.now);
      SectionSimulated(s, e.now, e.section);
      LazyIsIdeal(LazyNext(s, e.now, e.section), e.now, events[1..]);
    }
  }

  // ----- what a run leaves behind

  function StateAfter(s: Lazy, events: seq<Event>): Lazy
    decreases |events|
  {
    if events == [] then s
    else
      var last := events[|events| - 1];
      LazyNext(StateAfter(s, events[..|events| - 1]), last.now, last.section)
  }

  ghost predicate EndsWindow(section: Section) {
    section.Swap? || section.Commit?
  }

  /** Event `i` replaced `presented` by a rotation whose clamped window is still open, and nothing ended it since. */
  ghost predicate InWindow(s: Lazy, events: seq<Event>, i: int, presented: Token, now: Time) {
    && 0 <= i < |events| && events[i].section.Swap?
    && StateAfter(s, events[..i]).primary.current == presented
    && now < events[i].now + events[i].section.grace && now < events[i].now + 3600_000_000_000
    && forall j | i < j < |events| :: !EndsWindow(events[j].section)
  }

  /**
   Over every run of a fresh daemon, a replaced primary still works exactly when
   the last rotation or commit is the rotation that replaced it, less than
   min(requested, 3600 s) ago.
   */
  lemma {:induction false} GraceIffInWindow(token: Token, events: seq<Event>, presented: Token, now: Time)
    requires forall i | 0 <= i < |events| :: events[i].now <= now
    requires var s := StateAfter(Lazy(PrimaryState(token, None), map[]), events); presented != s.primary.current
    ensures var s0 := Lazy(PrimaryState(token, None), map[]);
      MatchPrimary(StateAfter(s0, events).primary, presented, now) == Some(GRACE)
      <==> exists i :: InWindow(s0, events, i, presented, now)
    decreases |events|
  {
    var s0 := Lazy(PrimaryState(token, None), map[]);
    if events != [] {
      var n := |events| - 1;
      var before := StateAfter(s0, events[..n]);
      assert forall i | 0 <= i < n :: events[..n][..i] == events[..i];
      assert StateAfter(s0, events) == LazyNext(before, events[n].now, events[n].section);
      if EndsWindow(events[n].section) {
        assert InWindow(s0, events, n, presented, now) <==>
          events[n].section.Swap? && before.primary.current == presented
          && now < events[n].now + ClampGrace(events[n].section.grace);
        assert forall i | 0 <= i < n :: !InWindow(s0, events, i, presented, now);
      } else {
        GraceIffInWindow(token, events[..n], presented, now);
        assert forall i | 0 <= i < n ::
            InWindow(s0, events, i, presented, now) <==> InWindow(s0, events[..n], i, presented, now);
      }
    }
  }

  /** The token the last rotation put in place, or the one the daemon started with. */
  function LastInstalled(token: Token, events: seq<Event>): Token
    decreases |events|
  {
    if events == [] then token
    else
      var last := events[|events| - 1].section;
      if last.Swap? then last.newToken else LastInstalled(token, events[..|events| - 1])
  }

  /**
   After every run, the two guards on confirming a rotation pass exactly one
   bearer string: the token the last rotation returned, whoever presents it.
   */
  lemma {:induction false} ConfirmedByLastInstalled(token: Token, events: seq<Event>, presented: Token, now: Time,
      isRoot: bool)
    ensures var s := StateAfter(Lazy(PrimaryState(token, None), map[]), events);
      var r := ResolveAt(s.primary, s.access, presented, now);
      RequirePrimary(r, isRoot).Ok? && RejectGrace(r).Ok? <==> presented == LastInstalled(token, events)
  {
    CurrentIsLastInstalled(token, events);
    var s := StateAfter(Lazy(PrimaryState(token, None), map[]), events);
    CommitOpenToCurrentOnly(s.primary, s.access, presented, now, isRoot);
  }

  lemma {:induction false} CurrentIsLastInstalled(token: Token, events: seq<Event>)
    ensures StateAfter(Lazy(PrimaryState(token, None), map[]), events).primary.current == LastInstalled(token, events)
    decreases |events|
  {
    if events != [] {
      CurrentIsLastInstalled(token, events[..|events| - 1]);
    }
  }

  /** The cap holds after any run. */
  lemma {:induction false} NeverAboveCap(token: Token, events: seq<Event>)
    requires LazyAccepts(Lazy(PrimaryState(token, None), map[]), events)
    ensures |StateAfter(Lazy(PrimaryState(token, None), map[]), events).access| <= 64
  {
    CappedFrom(Lazy(PrimaryState(token, None), map[]), events);
  }

  lemma {:induction false} CappedFrom(s: Lazy, events: seq<Event>)
    requires LazyAccepts(s, events) && |s.access| <= MAX_LIVE_ACCESS
    ensures |StateAfter(s, events).access| <= MAX_LIVE_ACCESS
    decreases |events|
  {
    if events != [] {
      var e := events[0];
      SweepShrinks(s.access, e.now);
      if e.section.Insert? {
        MintKeepsCap(s.access, e.now, e.section.victims, e.section.token, e.section.entry);
      }
      CappedFrom(LazyNext(s, e.now, e.section), events[1..]);
      StateAfterFirst(s, events);
    }
  }

  lemma {:induction false} StateAfterFirst(s: Lazy, events: seq<Event>)
    requires events != []
    ensures StateAfter(s, events) == StateAfter(LazyNext(s, events[0].now, events[0].section), events[1..])
    decreases |events|
  {
    var n := |events| - 1;
    if n > 0 {
      StateAfterFirst(s, events[..n]);
      assert events[..n][1..] == events[1..][..n - 1];
    } else {
      assert StateAfter(s, events[..0]) == s;
    }
  }
}
